/**
 JSON.stringify of an array of strings and nulls, on UTF-16 code units, and a reader for such texts
 (sections 5 and 7 of RFC 8259, without whitespace).
 */
module JsonText {
  import opened Wrappers
  import Ordering
  import Unicode

  type CodeUnit = c: int | 0 <= c < 0x10000

  /** A JavaScript string: any sequence of code units, surrogates included. */
  type Units = seq<CodeUnit>

  const QUOTE: CodeUnit := 0x22
  const BACKSLASH: CodeUnit := 0x5C
  const LOWER_U: CodeUnit := 0x75
  const OPEN: CodeUnit := 0x5B
  const CLOSE: CodeUnit := 0x5D
  const COMMA: CodeUnit := 0x2C
  const NULL: Units := [0x6E, 0x75, 0x6C, 0x6C]

  predicate Leading(c: CodeUnit) { 0xD800 <= c <= 0xDBFF }

  predicate Trailing(c: CodeUnit) { 0xDC00 <= c <= 0xDFFF }

  function HexDigit(n: nat): CodeUnit
    requires n < 16
  {
    if n < 10 then 0x30 + n else 0x61 + n - 10
  }

  function UnicodeEscape(c: CodeUnit): Units {
    [BACKSLASH, LOWER_U, HexDigit(c / 4096), HexDigit(c / 256 % 16), HexDigit(c / 16 % 16), HexDigit(c % 16)]
  }

  /** The letter of a two-character escape: b, t, n, f, r, quote or backslash. */
  function ShortEscape(c: CodeUnit): Option<CodeUnit> {
    match c
    case 0x08 => Some(0x62) case 0x09 => Some(0x74) case 0x0A => Some(0x6E) case 0x0C => Some(0x66) case 0x0D => Some(0x72)
    case 0x22 => Some(0x22) case 0x5C => Some(0x5C)
    case _ => None
  }

  function ShortMeaning(letter: CodeUnit): Option<CodeUnit> {
    match letter
    case 0x62 => Some(0x08) case 0x74 => Some(0x09) case 0x6E => Some(0x0A) case 0x66 => Some(0x0C) case 0x72 => Some(0x0D)
    case 0x22 => Some(0x22) case 0x5C => Some(0x5C) case 0x2F => Some(0x2F)
    case _ => None
  }

  /** One code unit that is not half of a surrogate pair. */
  function EscapeOne(c: CodeUnit): Units {
    if ShortEscape(c).Some? then [BACKSLASH, ShortEscape(c).value]
    else if c < 0x20 || Leading(c) || Trailing(c) then UnicodeEscape(c)
    else [c]
  }

  predicate StartsWithPair(s: Units) { |s| >= 2 && Leading(s[0]) && Trailing(s[1]) }

  function Escape(s: Units): Units {
    if s == [] then []
    else if StartsWithPair(s) then s[..2] + Escape(s[2..])
    else EscapeOne(s[0]) + Escape(s[1..])
  }

  type Field = Option<Units>

  function Value(f: Field): Units { if f.None? then NULL else [QUOTE] + Escape(f.value) + [QUOTE] }

  function Members(fields: seq<Field>): Units
    requires fields != []
  {
    if |fields| == 1 then Value(fields[0]) else Value(fields[0]) + [COMMA] + Members(fields[1..])
  }

  /** JSON.stringify(fields) */
  function Stringify(fields: seq<Field>): Units {
    [OPEN] + (if fields == [] then [] else Members(fields)) + [CLOSE]
  }

  // ---- Reading it back ----

  datatype Read<+T> = Read(value: T, rest: Units)

  /** The code unit at the front of a string literal, escaped or not. */
  function ReadUnit(t: Units): (r: Option<Read<CodeUnit>>)
    ensures r.Some? ==> |r.value.rest| < |t|
  {
    if t == [] || t[0] == QUOTE || t[0] < 0x20 then None
    else if t[0] != BACKSLASH then Some(Read(t[0], t[1..]))
    else if |t| < 2 then None
    else if t[1] != LOWER_U then
      (match ShortMeaning(t[1]) case None => None case Some(c) => Some(Read(c, t[2..])))
    else if |t| < 6 || Unicode.HexValue(t[2]).None? || Unicode.HexValue(t[3]).None? || Unicode.HexValue(t[4]).None? || Unicode.HexValue(t[5]).None? then None
    else
      Some(Read(Unicode.HexValue(t[2]).value * 4096 + Unicode.HexValue(t[3]).value * 256 + Unicode.HexValue(t[4]).value * 16 + Unicode.HexValue(t[5]).value, t[6..]))
  }

  /** The rest of a string literal whose opening quote has been read. */
  function ReadString(t: Units): (r: Option<Read<Units>>)
    ensures r.Some? ==> |r.value.rest| < |t|
    decreases |t|
  {
    if t != [] && t[0] == QUOTE then Some(Read([], t[1..]))
    else
      match ReadUnit(t)
      case None => None
      case Some(first) =>
        match ReadString(first.rest)
        case None => None
        case Some(more) => Some(Read([first.value] + more.value, more.rest))
  }

  function ReadValue(t: Units): (r: Option<Read<Field>>)
    ensures r.Some? ==> |r.value.rest| < |t|
  {
    if NULL <= t then Some(Read(None, t[4..]))
    else if t != [] && t[0] == QUOTE then
      (match ReadString(t[1..]) case None => None case Some(s) => Some(Read(Some(s.value), s.rest)))
    else None
  }

  function ReadMembers(t: Units): Option<Read<seq<Field>>>
    decreases |t|
  {
    match ReadValue(t)
    case None => None
    case Some(first) =>
      if first.rest == [] || first.rest[0] != COMMA then Some(Read([first.value], first.rest))
      else
        match ReadMembers(first.rest[1..])
        case None => None
        case Some(more) => Some(Read([first.value] + more.value, more.rest))
  }

  /** The array a whole text denotes. */
  function Parse(t: Units): Option<seq<Field>> {
    if |t| < 2 || t[0] != OPEN then None
    else if t == [OPEN, CLOSE] then Some([])
    else
      match ReadMembers(t[1..])
      case None => None
      case Some(r) => if r.rest == [CLOSE] then Some(r.value) else None
  }

  lemma HexRoundTrip(n: nat)
    requires n < 16
    ensures Unicode.HexValue(HexDigit(n)) == Some(n)
  {
  }

  lemma Nibbles(c: CodeUnit)
    ensures c / 4096 * 4096 + c / 256 % 16 * 256 + c / 16 % 16 * 16 + c % 16 == c
    ensures c / 4096 < 16
  {
    var a, b := c / 16, c / 256;
    assert c == a * 16 + c % 16;
    assert b == a / 16 && a == b * 16 + a % 16;
    assert c / 4096 == b / 16 && b == b / 16 * 16 + b % 16;
  }

  lemma ReadUnicodeEscape(c: CodeUnit, rest: Units)
    ensures ReadUnit(UnicodeEscape(c) + rest) == Some(Read(c, rest))
  {
    var t := UnicodeEscape(c) + rest;
    Nibbles(c);
    assert |UnicodeEscape(c)| == 6;
    assert t[0] == BACKSLASH && t[1] == LOWER_U && t[2] == HexDigit(c / 4096) && t[3] == HexDigit(c / 256 % 16)
        && t[4] == HexDigit(c / 16 % 16) && t[5] == HexDigit(c % 16);
    HexRoundTrip(c / 4096);
    HexRoundTrip(c / 256 % 16);
    HexRoundTrip(c / 16 % 16);
    HexRoundTrip(c % 16);
    assert t[6..] == rest;
  }

  lemma ReadEscaped(c: CodeUnit, rest: Units)
    ensures ReadUnit(EscapeOne(c) + rest) == Some(Read(c, rest))
    ensures (EscapeOne(c) + rest)[0] != QUOTE
  {
    var t := EscapeOne(c) + rest;
    if ShortEscape(c).Some? {
      assert t[0] == BACKSLASH && t[1] == ShortEscape(c).value && t[2..] == rest;
    } else if c < 0x20 || Leading(c) || Trailing(c) {
      ReadUnicodeEscape(c, rest);
    } else {
      assert t[0] == c && t[1..] == rest;
    }
  }

  lemma ReadFront(t: Units, c: CodeUnit, tail: Units, s: Units, rest: Units)
    requires t != [] && t[0] != QUOTE && ReadUnit(t) == Some(Read(c, tail)) && ReadString(tail) == Some(Read(s, rest))
    ensures ReadString(t) == Some(Read([c] + s, rest))
  {
  }

  lemma ReadPair(hi: CodeUnit, lo: CodeUnit, tail: Units, s: Units, rest: Units)
    requires Leading(hi) && Trailing(lo) && ReadString(tail) == Some(Read(s, rest))
    ensures ReadString([hi, lo] + tail) == Some(Read([hi, lo] + s, rest))
  {
    var u, t := [lo] + tail, [hi, lo] + tail;
    assert u[1..] == tail && t[1..] == u;
    ReadFront(u, lo, tail, s, rest);
    ReadFront(t, hi, u, [lo] + s, rest);
    assert [hi] + ([lo] + s) == [hi, lo] + s;
  }

  lemma ReadOne(c: CodeUnit, tail: Units, s: Units, rest: Units)
    requires ReadString(tail) == Some(Read(s, rest))
    ensures ReadString(EscapeOne(c) + tail) == Some(Read([c] + s, rest))
  {
    var t := EscapeOne(c) + tail;
    ReadEscaped(c, tail);
    ReadFront(t, c, tail, s, rest);
  }

  /** The escaped text of a string up to its end, cut after a surrogate pair at its front. */
  lemma EscapePair(s: Units, end: Units)
    requires StartsWithPair(s)
    ensures Escape(s) + end == [s[0], s[1]] + (Escape(s[2..]) + end)
  {
    assert s[..2] == [s[0], s[1]];
    Ordering.Associates(s[..2], Escape(s[2..]), end);
  }

  lemma EscapeSingle(s: Units, end: Units)
    requires s != [] && !StartsWithPair(s)
    ensures Escape(s) + end == EscapeOne(s[0]) + (Escape(s[1..]) + end)
  {
    Ordering.Associates(EscapeOne(s[0]), Escape(s[1..]), end);
  }

  lemma {:induction false} ReadLiteral(s: Units, end: Units, rest: Units)
    requires end == [QUOTE] + rest
    ensures ReadString(Escape(s) + end) == Some(Read(s, rest))
    decreases |s|
  {
    if s == [] {
      assert Escape(s) + end == end && end[1..] == rest;
    } else {
      if StartsWithPair(s) {
        ReadLiteral(s[2..], end, rest);
        ReadPair(s[0], s[1], Escape(s[2..]) + end, s[2..], rest);
        EscapePair(s, end);
        assert s == [s[0], s[1]] + s[2..];
      } else {
        ReadLiteral(s[1..], end, rest);
        ReadOne(s[0], Escape(s[1..]) + end, s[1..], rest);
        EscapeSingle(s, end);
        assert s == [s[0]] + s[1..];
      }
    }
  }

  lemma ReadQuoted(u: Units, s: Units, rest: Units)
    requires ReadString(u) == Some(Read(s, rest))
    ensures ReadValue([QUOTE] + u) == Some(Read(Some(s), rest))
  {
    var t := [QUOTE] + u;
    assert t[0] == QUOTE && t[1..] == u;
  }

  lemma ValueOfText(s: Units, rest: Units)
    ensures Value(Some(s)) + rest == [QUOTE] + (Escape(s) + ([QUOTE] + rest))
  {
  }

  lemma ReadField(f: Field, rest: Units)
    ensures ReadValue(Value(f) + rest) == Some(Read(f, rest))
  {
    match f {
      case None => assert NULL <= NULL + rest && (NULL + rest)[4..] == rest;
      case Some(s) =>
        ValueOfText(s, rest);
        assert ReadValue([QUOTE] + (Escape(s) + ([QUOTE] + rest))) == Some(Read(f, rest)) by {
          ReadLiteral(s, [QUOTE] + rest, rest);
          ReadQuoted(Escape(s) + ([QUOTE] + rest), s, rest);
        }
    }
  }

  lemma ReadLast(f: Field, rest: Units)
    requires rest != [] && rest[0] != COMMA
    ensures ReadMembers(Value(f) + rest) == Some(Read([f], rest))
  {
    ReadField(f, rest);
  }

  lemma ReadFirst(f: Field, tail: Units, more: Units, fields: seq<Field>, rest: Units)
    requires tail == [COMMA] + more && ReadMembers(more) == Some(Read(fields, rest))
    ensures ReadMembers(Value(f) + tail) == Some(Read([f] + fields, rest))
  {
    ReadField(f, tail);
    assert tail[0] == COMMA && tail[1..] == more;
  }

  lemma MembersFront(fields: seq<Field>, rest: Units)
    requires |fields| > 1
    ensures Members(fields) + rest == Value(fields[0]) + ([COMMA] + (Members(fields[1..]) + rest))
  {
    Ordering.Associates(Value(fields[0]) + [COMMA], Members(fields[1..]), rest);
    Ordering.Associates(Value(fields[0]), [COMMA], Members(fields[1..]) + rest);
  }

  lemma {:induction false} ReadAll(fields: seq<Field>, rest: Units)
    requires fields != [] && rest != [] && rest[0] != COMMA
    ensures ReadMembers(Members(fields) + rest) == Some(Read(fields, rest))
    decreases |fields|
  {
    if |fields| == 1 {
      ReadLast(fields[0], rest);
      assert fields == [fields[0]];
    } else {
      var more := Members(fields[1..]) + rest;
      ReadAll(fields[1..], rest);
      ReadFirst(fields[0], [COMMA] + more, more, fields[1..], rest);
      MembersFront(fields, rest);
      assert fields == [fields[0]] + fields[1..];
    }
  }

  lemma ValueStarts(fields: seq<Field>)
    requires fields != []
    ensures Members(fields) != [] && Members(fields)[0] != CLOSE
  {
    assert Value(fields[0])[0] == QUOTE || Value(fields[0]) == NULL;
  }

  /** Every array of strings and nulls can be read back from its text, whatever code units it holds. */
  lemma StringifyParses(fields: seq<Field>)
    ensures Parse(Stringify(fields)) == Some(fields)
  {
    var t := Stringify(fields);
    if fields == [] {
      assert t == [OPEN, CLOSE];
    } else {
      ValueStarts(fields);
      assert t[1..] == Members(fields) + [CLOSE];
      ReadAll(fields, [CLOSE]);
      assert t[1] == Members(fields)[0];
    }
  }

  /** What becomes of single code units: two-character escapes, \u001f in lower case, a lone surrogate, and what stays. */
  lemma EscapedSamples()
    ensures EscapeOne(0x08) == [0x5C, 0x62] && EscapeOne(0x09) == [0x5C, 0x74] && EscapeOne(0x0A) == [0x5C, 0x6E]
    ensures EscapeOne(0x0C) == [0x5C, 0x66] && EscapeOne(0x0D) == [0x5C, 0x72]
    ensures EscapeOne(0x22) == [0x5C, 0x22] && EscapeOne(0x5C) == [0x5C, 0x5C]
    ensures EscapeOne(0x1F) == [0x5C, 0x75, 0x30, 0x30, 0x31, 0x66]
    ensures EscapeOne(0xD8FA) == [0x5C, 0x75, 0x64, 0x38, 0x66, 0x61]
    ensures forall c: CodeUnit :: 0x20 <= c && c != 0x22 && c != 0x5C && !(0xD800 <= c <= 0xDFFF) ==> EscapeOne(c) == [c]
  {
  }

  /** A string and a null: ["...",null]. */
  lemma StringifiedSample(s: Units)
    ensures Stringify([Some(s), None]) == [0x5B, 0x22] + Escape(s) + [0x22, 0x2C, 0x6E, 0x75, 0x6C, 0x6C, 0x5D]
  {
    var fields: seq<Field> := [Some(s), None];
    assert fields[1..] == [None];
    assert Members(fields) == Value(Some(s)) + [COMMA] + Members([None]);
  }
}
