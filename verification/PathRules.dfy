/**
 Which project identifiers are accepted, and what each of the others is refused for, on the characters
 themselves: segments are stretches between slashes, not the output of a splitting function.
 */
module PathRules {
  import opened Wrappers
  import opened Unicode
  import opened ProjectPath

  // ---- Segments ----

  /** The stretch from i to j is one segment: bounded by slashes or the ends, and without a slash. */
  predicate SegmentAt(s: Text, i: int, j: int) {
    && 0 <= i <= j <= |s|
    && (i > 0 ==> s[i - 1] == 0x2F) && (j < |s| ==> s[j] == 0x2F)
    && forall k :: i <= k < j ==> s[k] != 0x2F
  }

  ghost predicate HasSegment(s: Text, segment: Text) { exists i, j :: SegmentAt(s, i, j) && s[i..j] == segment }

  /** A segment of the rest that does not start the rest, or that follows a slash, is a segment one place later. */
  lemma ShiftedSegment(s: Text, i: int, j: int)
    requires s != [] && 0 <= i <= j < |s| && (i > 0 || s[0] == 0x2F)
    ensures SegmentAt(s[1..], i, j) <==> SegmentAt(s, i + 1, j + 1)
    ensures s[1..][i..j] == s[i + 1..j + 1]
  {
    var t := s[1..];
    assert forall k :: 0 <= k < |t| ==> t[k] == s[k + 1];
    if SegmentAt(s, i + 1, j + 1) {
      forall k | i <= k < j ensures t[k] != 0x2F { assert s[k + 1] != 0x2F; }
    }
  }

  /** Segments that start after the first slash. */
  ghost predicate LaterSegment(s: Text, segment: Text) { exists i, j :: 0 < i && SegmentAt(s, i, j) && s[i..j] == segment }

  lemma LaterShifts(s: Text, segment: Text)
    requires s != []
    ensures s[0] != 0x2F ==> (LaterSegment(s, segment) <==> LaterSegment(s[1..], segment))
    ensures s[0] == 0x2F ==> (LaterSegment(s, segment) <==> HasSegment(s[1..], segment))
  {
    var t := s[1..];
    if LaterSegment(s, segment) {
      var i, j :| 0 < i && SegmentAt(s, i, j) && s[i..j] == segment;
      if i > 1 || s[0] == 0x2F { ShiftedSegment(s, i - 1, j - 1); }
    }
    if LaterSegment(t, segment) {
      var i, j :| 0 < i && SegmentAt(t, i, j) && t[i..j] == segment;
      ShiftedSegment(s, i, j);
    }
    if s[0] == 0x2F && HasSegment(t, segment) {
      var i, j :| SegmentAt(t, i, j) && t[i..j] == segment;
      ShiftedSegment(s, i, j);
    }
  }

  lemma FirstSegment(s: Text, j: int)
    requires s != [] && s[0] != 0x2F && SegmentAt(s[1..], 0, j)
    ensures SegmentAt(s, 0, j + 1) && s[0..j + 1] == [s[0]] + s[1..][0..j]
  {
    var t := s[1..];
    forall k | 0 <= k < j + 1 ensures s[k] != 0x2F {
      if k > 0 { assert t[k - 1] == s[k]; }
    }
  }

  lemma {:induction false} SplitSegments(s: Text)
    ensures exists j :: SegmentAt(s, 0, j) && Split(s)[0] == s[0..j]
    ensures forall segment :: segment in Split(s)[1..] <==> LaterSegment(s, segment)
  {
    if s == [] {
      assert SegmentAt(s, 0, 0) && s[0..0] == [];
    } else {
      SplitSegments(s[1..]);
      var rest := Split(s[1..]);
      var j :| SegmentAt(s[1..], 0, j) && rest[0] == s[1..][0..j];
      if s[0] == 0x2F {
        assert SegmentAt(s, 0, 0) && s[0..0] == [] && Split(s)[1..] == rest;
        forall segment ensures segment in rest <==> LaterSegment(s, segment) {
          LaterShifts(s, segment);
          SegmentsOf(s[1..], rest, segment);
        }
      } else {
        FirstSegment(s, j);
        assert Split(s)[1..] == rest[1..];
        forall segment ensures segment in rest[1..] <==> LaterSegment(s, segment) { LaterShifts(s, segment); }
      }
    }
  }

  lemma OnlyOneFirst(s: Text, i: int, j: int)
    requires SegmentAt(s, 0, i) && SegmentAt(s, 0, j)
    ensures i == j
  {
  }

  lemma SegmentsOf(s: Text, parts: seq<Text>, segment: Text)
    requires parts != [] && (exists j :: SegmentAt(s, 0, j) && parts[0] == s[0..j])
    requires segment in parts[1..] <==> LaterSegment(s, segment)
    ensures segment in parts <==> HasSegment(s, segment)
  {
    var j :| SegmentAt(s, 0, j) && parts[0] == s[0..j];
    assert segment in parts <==> segment == parts[0] || segment in parts[1..];
    if HasSegment(s, segment) {
      var a, b :| SegmentAt(s, a, b) && s[a..b] == segment;
      if a == 0 { OnlyOneFirst(s, b, j); }
    }
  }

  /** split("/") yields exactly the segments. */
  lemma SplitExactly(s: Text, segment: Text)
    ensures segment in Split(s) <==> HasSegment(s, segment)
  {
    SplitSegments(s);
    SegmentsOf(s, Split(s), segment);
  }

  // ---- Decoded paths ----

  const CHECKS := [FullUrl, ControlCharacters, HasBackslash, EdgeSlash, EmptySegment, DotSegment, NotEncodable]

  /** A colon and two slashes. */
  predicate UrlStartsAt(s: Text, i: int) { 0 <= i && i + 2 < |s| && s[i] == 0x3A && s[i + 1] == 0x2F && s[i + 2] == 0x2F }

  /** What each check objects to. */
  ghost predicate Objects(why: Refusal, path: Text) {
    match why
    case FullUrl => exists i :: UrlStartsAt(path, i)
    case ControlCharacters => exists i :: 0 <= i < |path| && (0 <= path[i] < 0x20 || path[i] == 0x7F)
    case HasBackslash => exists i :: 0 <= i < |path| && path[i] == 0x5C
    case EdgeSlash => path != [] && (path[0] == 0x2F || path[|path| - 1] == 0x2F)
    case EmptySegment => HasSegment(path, [])
    case DotSegment => HasSegment(path, [0x2E]) || HasSegment(path, [0x2E, 0x2E])
    case NotEncodable => exists i :: 0 <= i < |path| && !(0 <= path[i] < 0xD800 || 0xDFFF < path[i] <= 0x10FFFF)
    case _ => false
  }

  lemma UrlAt(s: Text)
    ensures HasUrl(s) <==> Objects(FullUrl, s)
  {
    if i :| 0 <= i < |s| - 2 && s[i] == 0x3A && s[i + 1] == SLASH && s[i + 2] == SLASH { assert UrlStartsAt(s, i); }
  }

  lemma ControlAt(s: Text)
    ensures HasControl(s) <==> Objects(ControlCharacters, s)
  {
    if c :| c in s && IsControl(c) { var i :| 0 <= i < |s| && s[i] == c; }
    if i :| 0 <= i < |s| && (0 <= s[i] < 0x20 || s[i] == 0x7F) { assert s[i] in s && IsControl(s[i]); }
  }

  /** A path is refused for the first objection, in the order the checks are made, and accepted when there is none. */
  lemma ProblemIsFirstObjection(path: Text)
    ensures PathProblem(path).None? <==> forall n :: 0 <= n < |CHECKS| ==> !Objects(CHECKS[n], path)
    ensures forall n :: 0 <= n < |CHECKS| ==>
      (PathProblem(path) == Some(CHECKS[n]) <==> Objects(CHECKS[n], path) && forall m :: 0 <= m < n ==> !Objects(CHECKS[m], path))
  {
    UrlAt(path);
    ControlAt(path);
    SplitExactly(path, []);
    SplitExactly(path, [0x2E]);
    SplitExactly(path, [0x2E, 0x2E]);
    assert BACKSLASH in path <==> Objects(HasBackslash, path);
    assert Encodable(path) <==> !Objects(NotEncodable, path) by { assert forall i :: 0 <= i < |path| ==> path[i] in path; }
    FirstOf(path, PathProblem(path));
  }

  lemma FirstOf(path: Text, problem: Option<Refusal>)
    requires problem ==
      if Objects(FullUrl, path) then Some(FullUrl)
      else if Objects(ControlCharacters, path) then Some(ControlCharacters)
      else if Objects(HasBackslash, path) then Some(HasBackslash)
      else if Objects(EdgeSlash, path) then Some(EdgeSlash)
      else if Objects(EmptySegment, path) then Some(EmptySegment)
      else if Objects(DotSegment, path) then Some(DotSegment)
      else if Objects(NotEncodable, path) then Some(NotEncodable)
      else None
    ensures problem.None? <==> forall n :: 0 <= n < |CHECKS| ==> !Objects(CHECKS[n], path)
    ensures forall n :: 0 <= n < |CHECKS| ==>
      (problem == Some(CHECKS[n]) <==> Objects(CHECKS[n], path) && forall m :: 0 <= m < n ==> !Objects(CHECKS[m], path))
  {
    assert CHECKS[0] == FullUrl && CHECKS[1] == ControlCharacters && CHECKS[2] == HasBackslash && CHECKS[3] == EdgeSlash
        && CHECKS[4] == EmptySegment && CHECKS[5] == DotSegment && CHECKS[6] == NotEncodable;
  }

  /** A percent sign that two hexadecimal digits of either case do not follow. */
  predicate MalformedAt(s: Text, i: int) {
    0 <= i < |s| && s[i] == 0x25 && !(i + 2 < |s| && IsHex(s[i + 1]) && IsHex(s[i + 2]))
  }

  predicate IsHex(c: int) { 0x30 <= c <= 0x39 || 0x41 <= c <= 0x46 || 0x61 <= c <= 0x66 }

  /** A path text is accepted exactly when neither it nor what it denotes meets an objection. */
  lemma AcceptedExactly(raw: Text)
    ensures CanonicalizeProjectPath(raw).Canonical? <==>
      && !Objects(FullUrl, raw) && !Objects(ControlCharacters, raw) && (forall i :: !MalformedAt(raw, i))
      && Unquote(raw).Some? && forall n :: 0 <= n < |CHECKS| ==> !Objects(CHECKS[n], Unquote(raw).value)
  {
    UrlAt(raw);
    ControlAt(raw);
    forall i: nat | i < |raw| && raw[i] == PERCENT ensures HexPair(raw, i + 1) <==> !MalformedAt(raw, i) {}
    if Unquote(raw).Some? { ProblemIsFirstObjection(Unquote(raw).value); }
  }

  // ---- Canonical texts ----

  /** Letters, digits, "_", ".", "-" and "~". */
  predicate Plain(c: int) {
    'a' as int <= c <= 'z' as int || 'A' as int <= c <= 'Z' as int || '0' as int <= c <= '9' as int
    || c == '_' as int || c == '.' as int || c == '-' as int || c == '~' as int
  }

  const HEX_DIGITS := "0123456789ABCDEF"

  /** A plain byte stays; any other is written as a percent sign and two upper-case hexadecimal digits. */
  lemma QuotedByte(b: int)
    requires 0 <= b < 256
    ensures QuoteByte(b) == if Plain(b) then [b] else ['%' as int, HEX_DIGITS[b / 16] as int, HEX_DIGITS[b % 16] as int]
  {
    HexDigitWritten(b / 16);
    HexDigitWritten(b % 16);
  }

  lemma HexDigitWritten(n: int)
    requires 0 <= n < 16
    ensures HexDigit(n) == HEX_DIGITS[n] as int
  {
    assert HEX_DIGITS[..10] == "0123456789" && HEX_DIGITS[10..] == "ABCDEF";
    assert forall i :: 0 <= i < 10 ==> "0123456789"[i] as int == 0x30 + i;
    assert forall i :: 0 <= i < 6 ==> "ABCDEF"[i] as int == 0x41 + i;
  }

  /** The quoted text, byte by byte of the UTF-8 encoding. */
  lemma {:induction false} QuotedConcat(a: Text, b: Text)
    requires (forall x <- a :: IsByte(x)) && (forall x <- b :: IsByte(x))
    ensures QuoteBytes(a + b) == QuoteBytes(a) + QuoteBytes(b)
    decreases |a|
  {
    if a == [] {
      assert a + b == b;
    } else {
      assert a[0] in a && forall x <- a[1..] :: x in a;
      assert (a + b)[1..] == a[1..] + b;
      QuotedConcat(a[1..], b);
      assert QuoteByte(a[0]) + (QuoteBytes(a[1..]) + QuoteBytes(b)) == (QuoteByte(a[0]) + QuoteBytes(a[1..])) + QuoteBytes(b);
    }
  }

  /** A canonical path is one segment of plain characters and escapes: no slash is left in it. */
  lemma CanonicalCharacters(raw: Text)
    requires CanonicalizeProjectPath(raw).Canonical?
    ensures forall c <- CanonicalizeProjectPath(raw).text :: (Plain(c) || c == '%' as int) && c != '/' as int
  {
    var path := Unquote(raw).value;
    QuotedCharacters(path);
    forall c | c in Quote(path) ensures (Plain(c) || c == '%' as int) && c != '/' as int { UnreservedIsPlain(c); }
  }

  lemma UnreservedIsPlain(c: int)
    ensures Unreserved(c) <==> Plain(c)
    ensures Plain(c) ==> c != '/' as int
  {
  }

  // ---- Identifiers ----

  predicate Spaces(s: Text) { forall i :: 0 <= i < |s| ==> IsSpace(s[i]) }

  /** What strip() removes is white space at the ends, all of it and nothing else. */
  lemma {:induction false} StripExactly(s: Text) returns (front: Text, back: Text)
    ensures s == front + Strip(s) + back && Spaces(front) && Spaces(back)
    ensures Strip(s) != [] ==> !IsSpace(Strip(s)[0]) && !IsSpace(Strip(s)[|Strip(s)| - 1])
    decreases |s|
  {
    if s == [] {
      front, back := [], [];
    } else if IsSpace(s[0]) {
      front, back := StripExactly(s[1..]);
      assert s == [s[0]] + s[1..];
      assert [s[0]] + (front + Strip(s) + back) == ([s[0]] + front) + Strip(s) + back;
      front := [s[0]] + front;
    } else if IsSpace(s[|s| - 1]) {
      var n := |s| - 1;
      front, back := StripExactly(s[..n]);
      assert s == s[..n] + [s[n]];
      assert (front + Strip(s) + back) + [s[n]] == front + Strip(s) + (back + [s[n]]);
      back := back + [s[n]];
    } else {
      front, back := [], [];
    }
  }

  lemma {:induction false} DecimalValue(digit: DigitValues, n: nat)
    requires AsciiDigitsOnly(digit)
    ensures AllDigits(digit, DecimalText(n)) && ValueOf(digit, DecimalText(n)) == n
    ensures forall i :: 0 <= i < |DecimalText(n)| ==> 0x30 <= DecimalText(n)[i] <= 0x39
  {
    if n < 10 {
      var t := DecimalText(n);
      assert digit(t[0]) == Some(n) && t[..0] == [] && ValueOf(digit, []) == 0;
    } else {
      var t, last := DecimalText(n / 10), 0x30 + n % 10;
      DecimalValue(digit, n / 10);
      assert digit(last) == Some(n % 10);
      assert (t + [last])[..|t|] == t;
    }
  }

  lemma Written(digit: DigitValues, n: nat)
    requires AsciiDigitsOnly(digit)
    ensures var t := DecimalText(n); t != [] && Strip(t) == t && Numeric(digit, t) && IntOf(digit, t) == n
  {
    DecimalValue(digit, n);
  }

  lemma WrittenNegative(digit: DigitValues, n: nat)
    requires AsciiDigitsOnly(digit)
    ensures var t := [MINUS] + DecimalText(n); Strip(t) == t && Numeric(digit, t) && IntOf(digit, t) == 0 - n
  {
    var digits := DecimalText(n);
    var t := [MINUS] + digits;
    DecimalValue(digit, n);
    assert t[1..] == digits && t[|t| - 1] == digits[|digits| - 1];
    assert digit(t[0]).None?;
  }

  /** A positive number, given as such or written out, comes to its decimal text; zero and a minus sign are refused. */
  lemma NumbersAgree(digit: DigitValues, n: nat)
    requires AsciiDigitsOnly(digit)
    ensures n > 0 ==>
      && CanonicalizeGitlabProject(digit, Number(n)) == Canonical(DecimalText(n))
      && CanonicalizeGitlabProject(digit, Words(DecimalText(n))) == Canonical(DecimalText(n))
    ensures CanonicalizeGitlabProject(digit, Number(0 - n)) == Refused(NotPositive)
    ensures CanonicalizeGitlabProject(digit, Words([MINUS] + DecimalText(n))) == Refused(NotPositive)
  {
    Written(digit, n);
    WrittenNegative(digit, n);
  }

  lemma {:induction false} SpacesStrip(s: Text)
    requires Spaces(s)
    ensures Strip(s) == []
    decreases |s|
  {
    if s != [] { SpacesStrip(s[1..]); }
  }

  /** An identifier in words comes to what its trimmed text does; nothing but white space is refused as empty. */
  lemma WordsAreTrimmed(digit: DigitValues, s: Text)
    ensures var t := Strip(s);
      CanonicalizeGitlabProject(digit, Words(s)) ==
        (if t == [] then Refused(EmptyIdentifier)
         else if Numeric(digit, t) then CanonicalizeGitlabProject(digit, Number(IntOf(digit, t)))
         else CanonicalizeProjectPath(t))
    ensures Strip(s) == [] <==> Spaces(s)
  {
    var front, back := StripExactly(s);
    if Spaces(s) { SpacesStrip(s); }
  }
}
