/** The JSON text builder: a list of chunks that grows at its tail, read off in order at the end. */
module JsonBuilder {
  import opened JsonText

  const CHUNK_SIZE: nat := 1024
  const SIZE_LIMIT: nat := 0xFFFF_FFFF_FFFF_FFFF

  class Chunk {
    const data: array<Octet>
    var used: nat
    var next: Chunk?

    constructor (capacity: nat)
      ensures fresh(data) && data.Length == capacity && used == 0 && next == null
    {
      data := new Octet[capacity];
      used := 0;
      next := null;
    }
  }

  ghost function Buffers(chunks: seq<Chunk>): set<object> { set c: Chunk | c in chunks :: c.data }

  /** The used part of every chunk, in order. */
  ghost function Joined(chunks: seq<Chunk>): seq<Octet>
    requires forall i :: 0 <= i < |chunks| ==> chunks[i].used <= chunks[i].data.Length
    reads chunks, Buffers(chunks)
  {
    if chunks == [] then []
    else
      var last := chunks[|chunks| - 1];
      Joined(chunks[..|chunks| - 1]) + last.data[..last.used]
  }

  /** Chunks whose bytes stay the same hold the same text. */
  twostate lemma {:induction false} SameText(chunks: seq<Chunk>)
    requires forall i :: 0 <= i < |chunks| ==>
               && chunks[i].used == old(chunks[i].used) <= chunks[i].data.Length
               && chunks[i].data[..] == old(chunks[i].data[..])
    ensures Joined(chunks) == old(Joined(chunks))
    decreases |chunks|
  {
    if chunks != [] {
      var last := chunks[|chunks| - 1];
      SameText(chunks[..|chunks| - 1]);
      assert last.data[..last.used] == last.data[..][..last.used];
      assert old(last.data[..last.used]) == old(last.data[..])[..last.used];
    }
  }

  class Builder {
    var size: nat
    var head: Chunk?
    var tail: Chunk?
    ghost var chunks: seq<Chunk>
    ghost var Repr: set<object>

    /** The chunks are linked in order and differ in themselves and in their buffers. */
    ghost predicate Linked()
      reads this`head, this`tail, this`chunks, chunks`next
    {
      && (chunks == [] <==> head == null) && (chunks == [] <==> tail == null)
      && (chunks != [] ==> head == chunks[0] && tail == chunks[|chunks| - 1] && tail.next == null)
      && (forall i, j :: 0 <= i && i + 1 == j < |chunks| ==> chunks[i].next == chunks[j])
      && (forall i, j :: 0 <= i < j < |chunks| ==> chunks[i] != chunks[j] && chunks[i].data != chunks[j].data)
    }

    /** Every chunk but the tail is full. */
    ghost predicate FullButTail()
      reads this`chunks, chunks`used
    {
      && (forall i :: 0 <= i < |chunks| ==> chunks[i].used <= chunks[i].data.Length && CHUNK_SIZE <= chunks[i].data.Length)
      && (forall i :: 0 <= i < |chunks| - 1 ==> chunks[i].used == chunks[i].data.Length)
    }

    ghost predicate Valid()
      reads this, Repr
      ensures Valid() ==> this in Repr
    {
      Owned() && Linked() && FullButTail() && size == |Joined(chunks)|
    }

    /** The builder, its chunks and their buffers are its own. */
    ghost predicate Owned()
      reads this`chunks, this`Repr
    {
      this in Repr && forall c :: c in chunks ==> c in Repr && c.data in Repr
    }

    /** The text appended so far. */
    ghost function Text(): seq<Octet>
      requires Valid()
      reads this, Repr
    {
      Joined(chunks)
    }

    constructor ()
      ensures Valid() && fresh(Repr) && Text() == []
    {
      size, head, tail, chunks := 0, null, null, [];
      Repr := {this};
    }

    /** Appends an empty chunk that holds at least the minimum. */
    method AppendChunk(minimum: nat)
      requires Valid() && (tail != null ==> tail.used == tail.data.Length)
      modifies this, if tail != null then {tail} else {}
      ensures Valid() && Text() == old(Text()) && fresh(Repr - old(Repr))
      ensures tail != null && tail.used == 0 && tail.data.Length == if CHUNK_SIZE < minimum then minimum else CHUNK_SIZE
      ensures fresh(tail) && fresh(tail.data)
    {
      hide Joined, Linked, FullButTail, Text;
      var capacity := if CHUNK_SIZE < minimum then minimum else CHUNK_SIZE;
      var chunk := new Chunk(capacity);
      ChunksAreWithin();
      SameText(chunks);
      Extend(chunk);
    }

    /** Takes an empty chunk into the builder. */
    method Extend(chunk: Chunk)
      requires Valid() && (tail != null ==> tail.used == tail.data.Length)
      requires forall c :: c in chunks ==> c != chunk && c.data != chunk.data
      requires chunk.used == 0 && chunk.next == null && CHUNK_SIZE <= chunk.data.Length
      modifies this, if tail != null then {tail} else {}
      ensures Valid() && Text() == old(Text())
      ensures tail == chunk && chunk.used == 0 && Repr == old(Repr) + {chunk, chunk.data}
    {
      hide Joined, Linked, FullButTail, Owned, Buffers;
      ghost var before := chunks;
      ChunksAreWithin();
      Link(chunk);
      ChunksAreWithin();
      assert chunks[..|chunks| - 1] == before;
      SameText(before);
      JoinedLast(chunks);
    }

    /** Hangs an empty chunk behind the tail. */
    method Link(chunk: Chunk)
      requires Owned() && Linked() && FullButTail() && (tail != null ==> tail.used == tail.data.Length)
      requires forall c :: c in chunks ==> c != chunk && c.data != chunk.data
      requires chunk.used == 0 && chunk.next == null && CHUNK_SIZE <= chunk.data.Length
      modifies this`head, this`tail, this`chunks, this`Repr, if tail != null then {tail} else {}
      ensures Owned() && Linked() && FullButTail() && tail == chunk && chunks == old(chunks) + [chunk]
      ensures Repr == old(Repr) + {chunk, chunk.data}
      ensures forall i :: 0 <= i < |old(chunks)| ==> old(chunks)[i].used == old(chunks[i].used)
      ensures chunk.used == old(chunk.used)
    {
      if tail != null { tail.next := chunk; } else { head := chunk; }
      tail := chunk;
      chunks := chunks + [chunk];
      Repr := Repr + {chunk, chunk.data};
    }

    /** Copies bytes that fit into the tail. */
    method CopyIntoTail(part: seq<Octet>)
      requires Valid() && tail != null && tail.used + |part| <= tail.data.Length
      modifies this`size, tail`used, tail.data
      ensures Valid() && Text() == old(Text()) + part
      ensures tail == old(tail) && head == old(head) && chunks == old(chunks)
      ensures tail.used == old(tail.used) + |part|
    {
      hide Joined, Linked, FullButTail;
      ChunksAreWithin();
      TailIsApart();
      ghost var front := chunks[..|chunks| - 1];
      JoinedLast(chunks);
      size := size + |part|;
      FillTail(part);
      ChunksAreWithin();
      SameText(front);
      JoinedLast(chunks);
    }

    method FillTail(part: seq<Octet>)
      requires Linked() && FullButTail() && tail != null && tail.used + |part| <= tail.data.Length
      modifies tail`used, tail.data
      ensures Linked() && FullButTail() && tail.used == old(tail.used) + |part|
      ensures tail.data[..tail.used] == old(tail.data[..tail.used]) + part
      ensures forall i :: 0 <= i < |chunks| - 1 ==>
                chunks[i].used == old(chunks[i].used) && chunks[i].data[..] == old(chunks[i].data[..])
    {
      hide Linked;
      TailIsApart();
      FillChunk(tail, part);
    }

    /** Appends bytes, filling the tail before a new chunk is made. */
    method AppendBytes(bytes: seq<Octet>)
      requires Valid()
      modifies Repr
      ensures Valid() && Text() == old(Text()) + bytes && fresh(Repr - old(Repr))
    {
      hide Valid, Text, Joined;
      var cursor := 0;
      while cursor < |bytes|
        invariant 0 <= cursor <= |bytes|
        invariant Valid() && Text() == old(Text()) + bytes[..cursor] && fresh(Repr - old(Repr))
        decreases |bytes| - cursor
      {
        var next := AppendSome(bytes, cursor);
        assert bytes[..next] == bytes[..cursor] + bytes[cursor..next];
        cursor := next;
      }
      assert bytes[..cursor] == bytes;
    }

    /** One round of the loop: as many bytes as fit into the tail, which is made when it is full. */
    method AppendSome(bytes: seq<Octet>, cursor: nat) returns (next: nat)
      requires Valid() && cursor < |bytes|
      modifies Repr
      ensures cursor < next <= |bytes|
      ensures Valid()
      ensures Text() == old(Text()) + bytes[cursor..next] && fresh(Repr - old(Repr))
    {
      hide Joined, Linked, FullButTail;
      var remaining := |bytes| - cursor;
      TailIsWithin();
      if tail == null || tail.used == tail.data.Length { AppendChunk(remaining); }
      TailIsWithin();
      var available := tail.data.Length - tail.used;
      var count := if remaining < available then remaining else available;
      CopyIntoTail(bytes[cursor..cursor + count]);
      next := cursor + count;
    }

    lemma TailIsWithin()
      requires Owned() && Linked() && FullButTail()
      ensures tail != null ==> tail.used <= tail.data.Length
      ensures tail != null ==> tail in Repr && tail.data in Repr
    {
    }

    /** Appends the text of another builder, chunk by chunk, and leaves that builder alone. */
    method AppendBuilder(source: Builder)
      requires Valid() && source.Valid() && Repr !! source.Repr
      modifies Repr
      ensures Valid() && Text() == old(Text()) + old(source.Text()) && fresh(Repr - old(Repr))
      ensures source.Valid() && source.Text() == old(source.Text()) && source.chunks == old(source.chunks)
    {
      hide Joined, Linked, FullButTail;
      ghost var i := 0;
      source.ChunksAreWithin();
      source.Walk(0);
      NothingJoined();
      var chunk := source.head;
      while chunk != null
        invariant 0 <= i <= |source.chunks| && chunk == if i < |source.chunks| then source.chunks[i] else null
        invariant Valid() && fresh(Repr - old(Repr)) && Repr !! source.Repr
        invariant source.Valid() && source.chunks == old(source.chunks)
        invariant source.Text() == old(source.Text())
        invariant source.PrefixIsWithin(i) && Text() == old(Text()) + Joined(source.chunks[..i])
        decreases |source.chunks| - i
      {
        chunk := AppendNext(source, i, chunk);
        i := i + 1;
      }
      assert source.chunks[..i] == source.chunks;
    }

    ghost predicate PrefixIsWithin(i: nat)
      reads this`chunks, chunks`used
    {
      i <= |chunks| && forall k :: 0 <= k < |chunks| ==> chunks[k].used <= chunks[k].data.Length
    }

    /** One round of the loop over the chunks of the other builder. */
    method AppendNext(source: Builder, ghost i: nat, chunk: Chunk) returns (next: Chunk?)
      requires Valid() && source.Valid() && Repr !! source.Repr && source.PrefixIsWithin(i + 1)
      requires i < |source.chunks| && chunk == source.chunks[i]
      modifies Repr
      ensures Valid() && fresh(Repr - old(Repr)) && Repr !! source.Repr
      ensures source.Valid() && source.chunks == old(source.chunks) && source.Text() == old(source.Text())
      ensures source.PrefixIsWithin(i + 1)
      ensures next == if i + 1 < |source.chunks| then source.chunks[i + 1] else null
      ensures forall before: seq<Octet> :: old(Text()) == before + old(Joined(source.chunks[..i])) ==>
                Text() == before + Joined(source.chunks[..i + 1])
    {
      hide Joined, Linked, FullButTail;
      ghost var parts := source.chunks;
      JoinedLast(parts[..i + 1]);
      assert parts[..i + 1][..i] == parts[..i];
      AppendBytes(chunk.data[..chunk.used]);
      SameText(parts[..i + 1]);
      source.Walk(i);
      next := chunk.next;
    }

    /** Appends a JSON string, copying spans of bytes that need no escape in one piece. */
    method AppendJsonString(text: seq<Octet>)
      requires Valid()
      modifies Repr
      ensures Valid() && Text() == old(Text()) + JsonString(text) && fresh(Repr - old(Repr))
    {
      hide Valid, Text, Joined, Escaped, EscapedAll, NeedsBackslash, IsControl;
      AppendBytes([QUOTE]);
      EscapedNone();
      var p, spanStart := 0, 0;
      while p < |text|
        invariant 0 <= spanStart <= p <= |text|
        invariant Valid() && fresh(Repr - old(Repr))
        invariant Text() == old(Text()) + ([QUOTE] + EscapedAll(text[..spanStart]))
        invariant forall i :: spanStart <= i < p ==> IsPlain(text[i])
      {
        if NeedsBackslash(text[p]) || IsControl(text[p]) {
          AppendSpan(text, spanStart, p);
          AppendEscape(text, p);
          p := p + 1;
          spanStart := p;
          continue;
        }
        p := p + 1;
      }
      AppendSpan(text, spanStart, p);
      assert text[..p] == text;
      AppendBytes([QUOTE]);
      assert old(Text()) + ([QUOTE] + EscapedAll(text)) + [QUOTE] == old(Text()) + JsonString(text);
    }

    /** The bytes since the last escape, if there are any. */
    method AppendSpan(text: seq<Octet>, start: nat, end: nat)
      requires Valid() && start <= end <= |text| && forall i :: start <= i < end ==> IsPlain(text[i])
      modifies Repr
      ensures Valid() && fresh(Repr - old(Repr))
      ensures forall before: seq<Octet> :: old(Text()) == before + ([QUOTE] + EscapedAll(text[..start])) ==>
                Text() == before + ([QUOTE] + EscapedAll(text[..end]))
    {
      hide Valid, Text, Joined, Escaped, EscapedAll, IsPlain;
      PlainSpan(text[..start], text[start..end]);
      assert text[..start] + text[start..end] == text[..end];
      if end > start { AppendBytes(text[start..end]); } else { assert text[start..end] == []; }
    }

    /** The escape of one byte. */
    method AppendEscape(text: seq<Octet>, p: nat)
      requires Valid() && p < |text| && (NeedsBackslash(text[p]) || IsControl(text[p]))
      modifies Repr
      ensures Valid() && fresh(Repr - old(Repr))
      ensures forall before: seq<Octet> :: old(Text()) == before + ([QUOTE] + EscapedAll(text[..p])) ==>
                Text() == before + ([QUOTE] + EscapedAll(text[..p + 1]))
    {
      hide Valid, Text, Joined, EscapedAll, FourDigits;
      EscapedLast(text[..p], text[p]);
      assert text[..p] + [text[p]] == text[..p + 1];
      if NeedsBackslash(text[p]) {
        AppendBytes([BACKSLASH, text[p]]);
      } else {
        AppendBytes([BACKSLASH, LETTER_U] + FourDigits(text[p]));
      }
    }

    /** The text with a terminating zero, in a new buffer; none when no buffer can be that long. */
    method Build() returns (buffer: array?<Octet>)
      requires Valid()
      ensures Valid()
      ensures if size == SIZE_LIMIT then buffer == null
              else buffer != null && fresh(buffer) && buffer.Length == size + 1
                   && buffer[..size] == Text() && buffer[size] == 0
    {
      hide Joined, Linked, FullButTail;
      if size == SIZE_LIMIT { return null; }
      var data := new Octet[size + 1];
      var offset := 0;
      ghost var i := 0;
      Walk(0);
      ChunksAreWithin();
      NothingJoined();
      SameText(chunks);
      var chunk := head;
      while chunk != null
        invariant 0 <= i <= |chunks| && chunk == if i < |chunks| then chunks[i] else null
        invariant Valid() && PrefixIsWithin(i) && Text() == old(Text())
        invariant offset == |Joined(chunks[..i])| <= size && data[..offset] == Joined(chunks[..i])
        decreases |chunks| - i
      {
        offset := CopyChunk(i, chunk, data, offset);
        Walk(i);
        chunk := chunk.next;
        i := i + 1;
      }
      assert chunks[..i] == chunks;
      Terminate(data, offset, Text());
      SameText(chunks);
      return data;
    }

    /** One round of the loop that copies the chunks behind each other. */
    method CopyChunk(ghost i: nat, chunk: Chunk, data: array<Octet>, offset: nat) returns (next: nat)
      requires Valid() && PrefixIsWithin(i) && i < |chunks| && chunk == chunks[i]
      requires data !in Repr && data.Length == size + 1
      requires offset == |Joined(chunks[..i])| <= size && data[..offset] == Joined(chunks[..i])
      modifies data
      ensures Valid() && Text() == old(Text())
      ensures next == |Joined(chunks[..i + 1])| <= size && data[..next] == Joined(chunks[..i + 1])
    {
      hide Joined, Linked, FullButTail;
      ghost var prefix := chunks[..i + 1];
      PrefixIsShorter(i + 1);
      JoinedLast(prefix);
      assert prefix[..i] == chunks[..i];
      ghost var before := data[..offset];
      var used := chunk.used;
      if used != 0 {
        forall k | 0 <= k < used { data[offset + k] := chunk.data[k]; }
      }
      next := offset + used;
      SameText(prefix);
      SameText(chunks);
      assert data[..next] == before + chunk.data[..used];
    }

    lemma PrefixIsShorter(n: nat)
      requires n <= |chunks| && PrefixIsWithin(n)
      ensures |Joined(chunks[..n])| <= |Joined(chunks)|
    {
      JoinedGrows(chunks, n);
    }

    /** The list is walked from the head by the links. */
    lemma Walk(i: nat)
      requires Linked()
      ensures i < |chunks| ==> chunks[i].next == if i + 1 < |chunks| then chunks[i + 1] else null
      ensures head == if 0 < |chunks| then chunks[0] else null
    {
    }
    lemma ChunksAreWithin()
      requires FullButTail()
      ensures forall i :: 0 <= i < |chunks| ==> chunks[i].used <= chunks[i].data.Length
    {
    }

    lemma TailIsApart()
      requires Linked() && tail != null
      ensures chunks != [] && tail == chunks[|chunks| - 1]
      ensures forall i :: 0 <= i < |chunks| - 1 ==> chunks[i] != tail && chunks[i].data != tail.data
    {
    }
  }

  lemma {:induction false} JoinedGrows(chunks: seq<Chunk>, n: nat)
    requires n <= |chunks|
    requires forall i :: 0 <= i < |chunks| ==> chunks[i].used <= chunks[i].data.Length
    ensures |Joined(chunks[..n])| <= |Joined(chunks)|
    decreases |chunks|
  {
    if n < |chunks| {
      var front := chunks[..|chunks| - 1];
      JoinedGrows(front, n);
      assert front[..n] == chunks[..n];
    } else {
      assert chunks[..n] == chunks;
    }
  }

  lemma NothingJoined()
    ensures Joined([]) == []
  {
  }

  lemma JoinedLast(chunks: seq<Chunk>)
    requires chunks != []
    requires forall i :: 0 <= i < |chunks| ==> chunks[i].used <= chunks[i].data.Length
    ensures var last := chunks[|chunks| - 1];
            Joined(chunks) == Joined(chunks[..|chunks| - 1]) + last.data[..last.used]
  {
  }

  method Terminate(data: array<Octet>, offset: nat, ghost text: seq<Octet>)
    requires offset < data.Length && data[..offset] == text
    modifies data
    ensures data[..offset] == text && data[offset] == 0
  {
    data[offset] := 0;
  }

  method FillChunk(chunk: Chunk, part: seq<Octet>)
    requires chunk.used + |part| <= chunk.data.Length
    modifies chunk`used, chunk.data
    ensures chunk.used == old(chunk.used) + |part|
    ensures chunk.data[..chunk.used] == old(chunk.data[..chunk.used]) + part
  {
    var start := chunk.used;
    forall i | 0 <= i < |part| { chunk.data[start + i] := part[i]; }
    chunk.used := start + |part|;
  }
}
