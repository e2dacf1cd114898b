/** JSON strings: the escaping of the builder and a parser of section 7 of RFC 8259, which undoes it. */
module JsonText {
  import opened Wrappers

  type Octet = x: nat | x < 256

  const QUOTE: Octet := 0x22
  const BACKSLASH: Octet := 0x5C
  const SLASH: Octet := 0x2F
  const FIRST_UNESCAPED: nat := 0x20
  const LETTER_U: Octet := 0x75

  // ---------- escaping ----------

  predicate NeedsBackslash(octet: Octet) { octet == BACKSLASH || octet == QUOTE }

  predicate IsControl(octet: Octet) { octet < FIRST_UNESCAPED }

  predicate IsPlain(octet: Octet) { !NeedsBackslash(octet) && !IsControl(octet) }

  function HexDigit(digit: nat): Octet
    requires digit < 16
  {
    if digit < 10 then 0x30 + digit else 0x41 + (digit - 10)
  }

  /** Four upper-case hexadecimal digits, as the format %04X writes a byte. */
  function FourDigits(octet: Octet): (digits: seq<Octet>)
    ensures |digits| == 4
  {
    [HexDigit(0), HexDigit(0), HexDigit(octet / 16), HexDigit(octet % 16)]
  }

  function Escaped(octet: Octet): seq<Octet> {
    if NeedsBackslash(octet) then [BACKSLASH, octet]
    else if IsControl(octet) then [BACKSLASH, LETTER_U] + FourDigits(octet)
    else [octet]
  }

  /** Every byte escaped on its own. */
  function EscapedAll(text: seq<Octet>): seq<Octet> {
    if text == [] then [] else EscapedAll(text[..|text| - 1]) + Escaped(text[|text| - 1])
  }

  function JsonString(text: seq<Octet>): seq<Octet> { [QUOTE] + EscapedAll(text) + [QUOTE] }

  lemma PlainIsItself(octet: Octet)
    requires IsPlain(octet)
    ensures Escaped(octet) == [octet]
  {
  }

  lemma EscapedLast(text: seq<Octet>, last: Octet)
    ensures EscapedAll(text + [last]) == EscapedAll(text) + Escaped(last)
  {
    hide Escaped;
    assert (text + [last])[..|text|] == text;
  }

  /** A span of plain bytes is its own escaping. */
  lemma {:induction false} PlainSpan(before: seq<Octet>, span: seq<Octet>)
    requires forall i :: 0 <= i < |span| ==> IsPlain(span[i])
    ensures EscapedAll(before + span) == EscapedAll(before) + span
  {
    hide Escaped, EscapedAll, IsPlain;
    if span == [] {
      assert before + span == before;
    } else {
      var rest, last := span[..|span| - 1], span[|span| - 1];
      PlainSpan(before, rest);
      PlainIsItself(last);
      EscapedLast(before + rest, last);
      assert before + span == (before + rest) + [last];
    }
  }

  lemma EscapedNone()
    ensures EscapedAll([]) == []
  {
  }

  lemma {:induction false} EscapedConcat(a: seq<Octet>, b: seq<Octet>)
    ensures EscapedAll(a + b) == EscapedAll(a) + EscapedAll(b)
  {
    hide Escaped, EscapedAll;
    if b == [] {
      EscapedNone();
      assert a + b == a;
    } else {
      var rest, last := b[..|b| - 1], b[|b| - 1];
      EscapedConcat(a, rest);
      EscapedLast(a + rest, last);
      EscapedLast(rest, last);
      assert b == rest + [last];
      assert a + b == (a + rest) + [last];
      assert EscapedAll(a) + (EscapedAll(rest) + Escaped(last)) == (EscapedAll(a) + EscapedAll(rest)) + Escaped(last);
    }
  }

  // ---------- the parser of RFC 8259 ----------

  datatype Parsed = Parsed(text: seq<Octet>, end: nat) | Malformed

  function HexValue(octet: Octet): (digit: int)
    ensures -1 <= digit < 16
  {
    if 0x30 <= octet <= 0x39 then octet - 0x30
    else if 0x41 <= octet <= 0x46 then octet - 0x41 + 10
    else if 0x61 <= octet <= 0x66 then octet - 0x61 + 10
    else -1
  }

  /** The value of four hexadecimal digits of either case, or -1. */
  function CodeUnit(input: seq<Octet>, i: nat): (unit: int)
    ensures -1 <= unit < 0x10000
  {
    if i + 4 > |input| then -1
    else
      var a, b, c, d := HexValue(input[i]), HexValue(input[i + 1]), HexValue(input[i + 2]), HexValue(input[i + 3]);
      if a < 0 || b < 0 || c < 0 || d < 0 then -1 else ((a * 16 + b) * 16 + c) * 16 + d
  }

  predicate IsHighSurrogate(unit: int) { 0xD800 <= unit < 0xDC00 }
  predicate IsLowSurrogate(unit: int) { 0xDC00 <= unit < 0xE000 }

  /** The UTF-8 encoding of a code point. */
  function Utf8(point: nat): seq<Octet>
    requires point < 0x110000
  {
    if point < 0x80 then [point]
    else if point < 0x800 then [0xC0 + point / 0x40, 0x80 + point % 0x40]
    else if point < 0x10000 then [0xE0 + point / 0x1000, 0x80 + point / 0x40 % 0x40, 0x80 + point % 0x40]
    else [0xF0 + point / 0x40000, 0x80 + point / 0x1000 % 0x40, 0x80 + point / 0x40 % 0x40, 0x80 + point % 0x40]
  }

  /** The byte that a two-character escape stands for. */
  function SimpleEscape(octet: Octet): Option<Octet> {
    if octet == QUOTE || octet == BACKSLASH || octet == SLASH then Some(octet)
    else if octet == 0x62 then Some(0x08)
    else if octet == 0x66 then Some(0x0C)
    else if octet == 0x6E then Some(0x0A)
    else if octet == 0x72 then Some(0x0D)
    else if octet == 0x74 then Some(0x09)
    else None
  }


  /** One escape that starts at `i`, after which the string goes on. */
  function ParseEscape(input: seq<Octet>, i: nat): (parsed: Parsed)
    requires i < |input|
    ensures parsed.Parsed? ==> i < parsed.end <= |input|
  {
    if i + 1 >= |input| then Malformed
    else if SimpleEscape(input[i + 1]).Some? then Parsed([SimpleEscape(input[i + 1]).value], i + 2)
    else if input[i + 1] != LETTER_U || CodeUnit(input, i + 2) < 0 then Malformed
    else
      var unit := CodeUnit(input, i + 2);
      if !IsHighSurrogate(unit) then
        if IsLowSurrogate(unit) then Malformed else Parsed(Utf8(unit), i + 6)
      else if i + 8 <= |input| && input[i + 6] == BACKSLASH && input[i + 7] == LETTER_U
              && IsLowSurrogate(CodeUnit(input, i + 8)) then
        Parsed(Utf8(0x10000 + (unit - 0xD800) * 0x400 + (CodeUnit(input, i + 8) - 0xDC00)), i + 12)
      else Malformed
  }

  /** The characters from `i` on, up to and including the closing quotation mark. */
  function ParseChars(input: seq<Octet>, i: nat): (parsed: Parsed)
    requires i <= |input|
    decreases |input| - i
  {
    if i == |input| || IsControl(input[i]) then Malformed
    else if input[i] == QUOTE then Parsed([], i + 1)
    else
      var first := if input[i] == BACKSLASH then ParseEscape(input, i) else Parsed([input[i]], i + 1);
      if first.Malformed? then Malformed
      else
        match ParseChars(input, first.end)
        case Malformed => Malformed
        case Parsed(text, end) => Parsed(first.text + text, end)
  }

  function ParseString(input: seq<Octet>): Parsed {
    if input == [] || input[0] != QUOTE then Malformed else ParseChars(input, 1)
  }

  // ---------- the round trip ----------

  lemma HexDigitsComeBack(octet: Octet)
    ensures HexValue(HexDigit(octet / 16)) == octet / 16 && HexValue(HexDigit(octet % 16)) == octet % 16
  {
  }

  /** What the parser reads first when an escaped byte stands at `i`. */
  predicate ReadsAs(input: seq<Octet>, i: nat, octet: Octet, next: nat)
    requires i < |input|
  {
    && !IsControl(input[i]) && input[i] != QUOTE
    && (if input[i] == BACKSLASH then ParseEscape(input, i) else Parsed([input[i]], i + 1)) == Parsed([octet], next)
  }

  lemma ControlIsRead(octet: Octet, input: seq<Octet>, i: nat)
    requires IsControl(octet) && i + 6 <= |input| && input[i..i + 6] == [BACKSLASH, LETTER_U] + FourDigits(octet)
    ensures ReadsAs(input, i, octet, i + 6)
  {
    var escape := input[i..i + 6];
    assert input[i] == escape[0] && input[i + 1] == escape[1] && input[i + 2] == escape[2];
    assert input[i + 3] == escape[3] && input[i + 4] == escape[4] && input[i + 5] == escape[5];
    HexDigitsComeBack(octet);
    assert CodeUnit(input, i + 2) == octet;
  }

  lemma BackslashIsRead(octet: Octet, input: seq<Octet>, i: nat)
    requires NeedsBackslash(octet) && i + 2 <= |input| && input[i] == BACKSLASH && input[i + 1] == octet
    ensures ReadsAs(input, i, octet, i + 2)
  {
    hide CodeUnit, Utf8;
  }

  /** An escaped byte in its place is parsed to the byte. */
  lemma EscapedIsParsed(octet: Octet, before: seq<Octet>, after: seq<Octet>)
    ensures |Escaped(octet)| >= 1
    ensures ReadsAs(before + Escaped(octet) + after, |before|, octet, |before| + |Escaped(octet)|)
  {
    hide ParseEscape, FourDigits;
    var input := before + Escaped(octet) + after;
    var i := |before|;
    assert input[i..i + |Escaped(octet)|] == Escaped(octet);
    if NeedsBackslash(octet) {
      assert input[i] == Escaped(octet)[0] && input[i + 1] == Escaped(octet)[1];
      BackslashIsRead(octet, input, i);
    } else if IsControl(octet) {
      ControlIsRead(octet, input, i);
    } else {
      assert input[i] == Escaped(octet)[0];
    }
  }

  lemma EscapedFirst(text: seq<Octet>)
    requires text != []
    ensures EscapedAll(text) == Escaped(text[0]) + EscapedAll(text[1..])
  {
    hide Escaped;
    EscapedLast([], text[0]);
    EscapedConcat([text[0]], text[1..]);
    assert [] + [text[0]] == [text[0]];
    assert [text[0]] + text[1..] == text;
  }

  lemma ParseStep(input: seq<Octet>, i: nat, octet: Octet, next: nat)
    requires i < next <= |input| && ReadsAs(input, i, octet, next)
    ensures ParseChars(input, i) == match ParseChars(input, next)
                                    case Malformed => Malformed
                                    case Parsed(text, end) => Parsed([octet] + text, end)
  {
    hide ParseEscape, IsControl;
  }

  lemma ParseClose(input: seq<Octet>, i: nat)
    requires i < |input| && input[i] == QUOTE
    ensures ParseChars(input, i) == Parsed([], i + 1)
  {
    hide ParseEscape;
  }

  /** The two ways to cut the input behind the first escaped byte. */
  lemma Cuts(before: seq<Octet>, first: seq<Octet>, others: seq<Octet>, close: seq<Octet>)
    ensures before + (first + others) + close == before + first + (others + close)
    ensures before + (first + others) + close == (before + first) + others + close
  {
  }

  lemma {:induction false} CharsComeBack(text: seq<Octet>, before: seq<Octet>, rest: seq<Octet>)
    ensures ParseChars(before + EscapedAll(text) + ([QUOTE] + rest), |before|)
            == Parsed(text, |before| + |EscapedAll(text)| + 1)
    decreases |text|
  {
    hide Escaped, ReadsAs, ParseChars, EscapedAll;
    var close := [QUOTE] + rest;
    var input := before + EscapedAll(text) + close;
    if text == [] {
      EscapedNone();
      ParseClose(input, |before|);
    } else {
      var first, others := Escaped(text[0]), EscapedAll(text[1..]);
      EscapedFirst(text);
      Cuts(before, first, others, close);
      EscapedIsParsed(text[0], before, others + close);
      ParseStep(input, |before|, text[0], |before| + |first|);
      CharsComeBack(text[1..], before + first, rest);
      assert [text[0]] + text[1..] == text;
    }
  }

  /** Parsing the escaped string returns the original bytes, for every byte string and whatever
      follows, and stops behind the closing quotation mark. */
  lemma StringRoundTrip(text: seq<Octet>, rest: seq<Octet>)
    ensures ParseString(JsonString(text) + rest) == Parsed(text, |JsonString(text)|)
  {
    hide ParseChars, EscapedAll;
    CharsComeBack(text, [QUOTE], rest);
    assert JsonString(text) + rest == [QUOTE] + EscapedAll(text) + ([QUOTE] + rest);
  }
}
