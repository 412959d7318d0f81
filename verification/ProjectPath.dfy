/**
 Canonical GitLab project identifiers (canonicalize_gitlab_project of
 src/cloudops_guard/collectors/gitlab.py), with urllib's quote and unquote.
 */
module ProjectPath {
  import opened Wrappers
  import opened Unicode

  const PERCENT := 0x25
  const SLASH := 0x2F
  const BACKSLASH := 0x5C
  const MINUS := 0x2D

  // ---- quote and unquote ----

  /** Never quoted: letters, digits, "_", ".", "-" and "~". */
  predicate Unreserved(c: int) {
    0x30 <= c <= 0x39 || 0x41 <= c <= 0x5A || 0x61 <= c <= 0x7A || c == 0x5F || c == 0x2E || c == 0x2D || c == 0x7E
  }

  function HexDigit(n: int): int
    requires 0 <= n < 16
  {
    if n < 10 then 0x30 + n else 0x41 + n - 10
  }

  predicate HexPair(s: Text, i: nat) { i + 1 < |s| && HexValue(s[i]).Some? && HexValue(s[i + 1]).Some? }

  function QuoteByte(b: int): Text
    requires IsByte(b)
  {
    if Unreserved(b) then [b] else [PERCENT, HexDigit(b / 16), HexDigit(b % 16)]
  }

  function QuoteBytes(bs: Text): Text
    requires forall b <- bs :: IsByte(b)
  {
    if bs == [] then [] else QuoteByte(bs[0]) + QuoteBytes(bs[1..])
  }

  predicate Encodable(s: Text) { forall c <- s :: IsScalar(c) }

  /** quote(s, safe="") */
  function Quote(s: Text): Text
    requires Encodable(s)
  {
    QuoteBytes(Encode(s))
  }

  /** unquote_to_bytes, on ASCII text; a stray percent sign stays. */
  function PercentBytes(s: Text): Text {
    if s == [] then []
    else if s[0] == PERCENT && HexPair(s, 1) then [HexValue(s[1]).value * 16 + HexValue(s[2]).value] + PercentBytes(s[3..])
    else [s[0]] + PercentBytes(s[1..])
  }

  predicate IsAscii(c: int) { 0 <= c < 0x80 }

  /** How many characters at the front are ASCII. */
  function AsciiRun(s: Text): (n: nat)
    ensures n <= |s| && (forall i :: 0 <= i < n ==> IsAscii(s[i])) && (n < |s| ==> !IsAscii(s[n]))
  {
    if s == [] || !IsAscii(s[0]) then 0 else 1 + AsciiRun(s[1..])
  }

  /** unquote(s, errors="strict"): each run of ASCII is unquoted to bytes and decoded by itself. */
  function Unquote(s: Text): Option<Text>
    decreases |s|
  {
    if s == [] then Some([])
    else if !IsAscii(s[0]) then
      (match Unquote(s[1..]) case None => None case Some(more) => Some([s[0]] + more))
    else
      var n := AsciiRun(s);
      match Decode(PercentBytes(s[..n]))
      case None => None
      case Some(run) => match Unquote(s[n..]) case None => None case Some(more) => Some(run + more)
  }

  lemma HexRoundTrip(n: int)
    requires 0 <= n < 16
    ensures HexValue(HexDigit(n)) == Some(n) && IsAscii(HexDigit(n))
  {
  }

  lemma QuotedByteBack(b: int, rest: Text)
    requires IsByte(b)
    ensures PercentBytes(QuoteByte(b) + rest) == [b] + PercentBytes(rest)
    ensures forall c <- QuoteByte(b) :: Unreserved(c) || c == PERCENT
  {
    var q := QuoteByte(b) + rest;
    if Unreserved(b) {
      assert q[0] == b && q[1..] == rest;
    } else {
      HexRoundTrip(b / 16);
      HexRoundTrip(b % 16);
      assert q[0] == PERCENT && q[1] == HexDigit(b / 16) && q[2] == HexDigit(b % 16) && q[3..] == rest;
    }
  }

  lemma {:induction false} QuotedBytesBack(bs: Text)
    requires forall b <- bs :: IsByte(b)
    ensures PercentBytes(QuoteBytes(bs)) == bs
    ensures forall c <- QuoteBytes(bs) :: Unreserved(c) || c == PERCENT
  {
    if bs != [] {
      assert bs[0] in bs;
      QuotedByteBack(bs[0], QuoteBytes(bs[1..]));
      QuotedBytesBack(bs[1..]);
      assert bs == [bs[0]] + bs[1..];
    }
  }

  lemma UnquoteAscii(s: Text)
    requires forall c <- s :: IsAscii(c)
    ensures Unquote(s) == Decode(PercentBytes(s))
  {
    if s == [] {
    } else {
      assert AsciiRun(s) == |s| && s[..|s|] == s && s[|s|..] == [];
      match Decode(PercentBytes(s)) {
        case None =>
        case Some(run) => assert run + [] == run;
      }
    }
  }

  /** Unquoting a quoted text gives it back. */
  lemma UnquoteQuoted(s: Text)
    requires Encodable(s)
    ensures Unquote(Quote(s)) == Some(s)
  {
    QuotedBytesBack(Encode(s));
    UnquoteAscii(Quote(s));
    DecodeEncoded(s);
  }

  lemma {:induction false} NoPercentBytes(s: Text)
    requires PERCENT !in s
    ensures PercentBytes(s) == s
  {
    if s != [] {
      NoPercentBytes(s[1..]);
      assert s == [s[0]] + s[1..];
    }
  }

  /** Text without a percent sign is its own unquoting. */
  lemma {:induction false} UnquotePlain(s: Text)
    requires PERCENT !in s
    ensures Unquote(s) == Some(s)
    decreases |s|
  {
    if s == [] {
    } else if !IsAscii(s[0]) {
      UnquotePlain(s[1..]);
      assert s == [s[0]] + s[1..];
    } else {
      var n := AsciiRun(s);
      NoPercentBytes(s[..n]);
      DecodeAscii(s[..n]);
      UnquotePlain(s[n..]);
      assert s == s[..n] + s[n..];
    }
  }

  // ---- The identifier ----

  datatype Identifier = Words(s: Text) | Number(n: int) | Boolean(b: bool)

  datatype Refusal =
    | NotAnIdentifier | EmptyIdentifier | NotPositive | FullUrl | ControlCharacters | MalformedEscape | InvalidBytes
    | HasBackslash | EdgeSlash | EmptySegment | DotSegment
    | NotEncodable   // quote raises for a surrogate; not one of the collector's own errors

  datatype Outcome = Canonical(text: Text) | Refused(why: Refusal)

  /** The value of a decimal digit of any script (the characters that match \d). */
  type DigitValues = int -> Option<nat>

  ghost predicate AsciiDigitsOnly(digit: DigitValues) {
    && (forall c :: IsAscii(c) ==> digit(c) == if 0x30 <= c <= 0x39 then Some((c - 0x30) as nat) else None)
    && (forall c :: digit(c).Some? ==> digit(c).value < 10)
  }

  predicate Digits(digit: DigitValues, s: Text) { forall i :: 0 <= i < |s| ==> digit(s[i]).Some? }

  predicate AllDigits(digit: DigitValues, s: Text) { s != [] && Digits(digit, s) }

  /** -?\d+ */
  predicate Numeric(digit: DigitValues, s: Text) {
    AllDigits(digit, s) || (s != [] && s[0] == MINUS && AllDigits(digit, s[1..]))
  }

  function ValueOf(digit: DigitValues, s: Text): nat
    requires Digits(digit, s)
  {
    if s == [] then 0
    else
      var n := |s| - 1;
      ValueOf(digit, s[..n]) * 10 + digit(s[n]).value
  }

  function IntOf(digit: DigitValues, s: Text): int
    requires Numeric(digit, s)
  {
    if AllDigits(digit, s) then ValueOf(digit, s) else 0 - ValueOf(digit, s[1..])
  }

  /** str(n) */
  function DecimalText(n: nat): Text {
    if n < 10 then [0x30 + n] else DecimalText(n / 10) + [0x30 + n % 10]
  }

  predicate IsControl(c: int) { 0 <= c <= 0x1F || c == 0x7F }

  predicate HasUrl(s: Text) { exists i :: 0 <= i < |s| - 2 && s[i] == 0x3A && s[i + 1] == SLASH && s[i + 2] == SLASH }

  predicate HasControl(s: Text) { exists c <- s :: IsControl(c) }

  predicate HasMalformedEscape(s: Text) { exists i :: 0 <= i < |s| && s[i] == PERCENT && !HexPair(s, i + 1) }

  /** s.split("/") */
  function Split(s: Text): (r: seq<Text>)
    ensures r != []
  {
    if s == [] then [[]]
    else if s[0] == SLASH then [[]] + Split(s[1..])
    else var rest := Split(s[1..]); [[s[0]] + rest[0]] + rest[1..]
  }

  /** The demands on a decoded path, in the order they are made. */
  function PathProblem(decoded: Text): Option<Refusal> {
    if HasUrl(decoded) then Some(FullUrl)
    else if HasControl(decoded) then Some(ControlCharacters)
    else if BACKSLASH in decoded then Some(HasBackslash)
    else if decoded != [] && (decoded[0] == SLASH || decoded[|decoded| - 1] == SLASH) then Some(EdgeSlash)
    else if [] in Split(decoded) then Some(EmptySegment)
    else if [0x2E] in Split(decoded) || [0x2E, 0x2E] in Split(decoded) then Some(DotSegment)
    else if !Encodable(decoded) then Some(NotEncodable)
    else None
  }

  function CanonicalizeProjectPath(raw: Text): Outcome {
    if HasUrl(raw) then Refused(FullUrl)
    else if HasControl(raw) then Refused(ControlCharacters)
    else if HasMalformedEscape(raw) then Refused(MalformedEscape)
    else
      match Unquote(raw)
      case None => Refused(InvalidBytes)
      case Some(decoded) => if PathProblem(decoded).Some? then Refused(PathProblem(decoded).value) else Canonical(Quote(decoded))
  }

  function CanonicalizeNumericId(n: int): Outcome { if n <= 0 then Refused(NotPositive) else Canonical(DecimalText(n)) }

  function Strip(s: Text): Text {
    if s == [] then []
    else if IsSpace(s[0]) then Strip(s[1..])
    else if IsSpace(s[|s| - 1]) then Strip(s[..|s| - 1])
    else s
  }

  function CanonicalizeGitlabProject(digit: DigitValues, id: Identifier): Outcome {
    match id
    case Boolean(_) => Refused(NotAnIdentifier)
    case Number(n) => CanonicalizeNumericId(n)
    case Words(s) =>
      var stripped := Strip(s);
      if stripped == [] then Refused(EmptyIdentifier)
      else if Numeric(digit, stripped) then CanonicalizeNumericId(IntOf(digit, stripped))
      else CanonicalizeProjectPath(stripped)
  }

  // ---- Round trips ----

  /** The canonical form decodes to exactly the path the input denoted. */
  lemma CanonicalDecodes(raw: Text)
    requires CanonicalizeProjectPath(raw).Canonical?
    ensures Unquote(raw).Some? && Unquote(CanonicalizeProjectPath(raw).text) == Unquote(raw)
  {
    UnquoteQuoted(Unquote(raw).value);
  }

  /** Two accepted paths have the same canonical form exactly when they denote the same path. */
  lemma CanonicalIdentifies(raw: Text, other: Text)
    requires CanonicalizeProjectPath(raw).Canonical? && CanonicalizeProjectPath(other).Canonical?
    ensures CanonicalizeProjectPath(raw) == CanonicalizeProjectPath(other) <==> Unquote(raw) == Unquote(other)
  {
    CanonicalDecodes(raw);
    CanonicalDecodes(other);
  }

  lemma QuotedCharacters(s: Text)
    requires Encodable(s)
    ensures forall c <- Quote(s) :: Unreserved(c) || c == PERCENT
  {
    QuotedBytesBack(Encode(s));
  }

  lemma {:induction false} QuotedWellFormed(bs: Text)
    requires forall b <- bs :: IsByte(b)
    ensures !HasMalformedEscape(QuoteBytes(bs))
  {
    if bs != [] {
      assert bs[0] in bs;
      var front, rest := QuoteByte(bs[0]), QuoteBytes(bs[1..]);
      QuotedWellFormed(bs[1..]);
      var q := front + rest;
      forall i | 0 <= i < |q| && q[i] == PERCENT ensures HexPair(q, i + 1) {
        if i < |front| {
          QuotedEscape(bs[0], rest, i);
        } else {
          var j := i - |front|;
          assert rest[j] == PERCENT && HexPair(rest, j + 1);
          assert q[i + 1] == rest[j + 1] && q[i + 2] == rest[j + 2];
        }
      }
    }
  }

  lemma QuotedEscape(b: int, rest: Text, i: nat)
    requires IsByte(b) && i < |QuoteByte(b)| && QuoteByte(b)[i] == PERCENT
    ensures HexPair(QuoteByte(b) + rest, i + 1)
  {
    if !Unreserved(b) {
      HexRoundTrip(b / 16);
      HexRoundTrip(b % 16);
      var q := QuoteByte(b) + rest;
      assert q[1] == HexDigit(b / 16) && q[2] == HexDigit(b % 16);
    }
  }

  lemma CleanText(q: Text)
    requires forall c <- q :: Unreserved(c) || c == PERCENT
    ensures !HasUrl(q) && !HasControl(q) && Strip(q) == q
  {
    assert forall i :: 0 <= i < |q| ==> q[i] in q;
  }

  /** A quoted text passes every check made before decoding. */
  lemma QuotedPassesRaw(s: Text)
    requires Encodable(s)
    ensures Strip(Quote(s)) == Quote(s)
    ensures CanonicalizeProjectPath(Quote(s)) == if PathProblem(s).Some? then Refused(PathProblem(s).value) else Canonical(Quote(s))
  {
    QuotedCharacters(s);
    CleanText(Quote(s));
    QuotedWellFormed(Encode(s));
    UnquoteQuoted(s);
  }

  lemma {:induction false} QuotedNumeric(digit: DigitValues, bs: Text)
    requires AsciiDigitsOnly(digit) && forall b <- bs :: IsByte(b)
    requires PERCENT !in QuoteBytes(bs)
    ensures QuoteBytes(bs) == bs
  {
    if bs != [] {
      assert bs[0] in bs;
      var front, rest := QuoteByte(bs[0]), QuoteBytes(bs[1..]);
      assert forall c <- front + rest :: c != PERCENT;
      assert front[0] in front + rest;
      assert forall c <- rest :: c in front + rest;
      QuotedNumeric(digit, bs[1..]);
      assert bs == [bs[0]] + bs[1..];
    }
  }

  lemma {:induction false} AsciiBytes(s: Text)
    requires Encodable(s) && forall b <- Encode(s) :: IsAscii(b)
    ensures Encode(s) == s
  {
    if s != [] {
      assert s[0] in s;
      assert EncodeOne(s[0])[0] in Encode(s);
      assert s[0] < 0x80;
      assert forall b <- Encode(s[1..]) :: b in Encode(s);
      AsciiBytes(s[1..]);
      assert s == [s[0]] + s[1..];
    }
  }

  /** Only a text that looks like a number has a quoted spelling that does. */
  lemma QuotedNumericIsPlain(digit: DigitValues, s: Text)
    requires AsciiDigitsOnly(digit) && Encodable(s) && Numeric(digit, Quote(s))
    ensures Quote(s) == s
  {
    var q := Quote(s);
    assert digit(PERCENT).None?;
    forall i | 0 <= i < |q| ensures q[i] != PERCENT {
      if AllDigits(digit, q) {
        assert q[i] in q;
      } else if i > 0 {
        assert q[1..][i - 1] in q[1..];
      }
    }
    QuotedNumeric(digit, Encode(s));
    QuotedCharacters(s);
    forall b | b in Encode(s) ensures IsAscii(b) {}
    AsciiBytes(s);
  }

  /**
   A path without percent signs that is trimmed and not a number, and its percent-encoded spelling, come
   to the same canonical form or are refused for the same reason.
   */
  lemma SpellingsAgree(digit: DigitValues, s: Text)
    requires AsciiDigitsOnly(digit) && Encodable(s)
    requires PERCENT !in s && s != [] && Strip(s) == s && !Numeric(digit, s)
    ensures CanonicalizeGitlabProject(digit, Words(s)) == CanonicalizeGitlabProject(digit, Words(Quote(s)))
  {
    UnquotePlain(s);
    QuotedPassesRaw(s);
    UnquoteQuoted(s);
    if Numeric(digit, Quote(s)) { QuotedNumericIsPlain(digit, s); }
    assert !HasMalformedEscape(s) by { assert forall i :: 0 <= i < |s| ==> s[i] in s; }
    assert Quote(s) != [] by { assert Unquote([]) == Some([]); }
  }

  // ---- Canonicalizing what is canonical already ----

  lemma {:induction false} DecimalStarts(n: nat)
    requires n > 0
    ensures 0x31 <= DecimalText(n)[0] <= 0x39
  {
    if n >= 10 { DecimalStarts(n / 10); }
  }

  lemma {:induction false} DecimalRoundTrip(digit: DigitValues, s: Text)
    requires AsciiDigitsOnly(digit) && AllDigits(digit, s) && (forall c <- s :: IsAscii(c)) && s[0] != 0x30
    ensures ValueOf(digit, s) > 0 && DecimalText(ValueOf(digit, s)) == s
  {
    var n := |s| - 1;
    assert s[n] in s && s[0] in s;
    if n == 0 {
      assert s[..0] == [];
    } else {
      assert forall c <- s[..n] :: c in s;
      DecimalRoundTrip(digit, s[..n]);
      DecimalSnoc(digit, ValueOf(digit, s[..n]), s[n]);
      assert s == s[..n] + [s[n]];
    }
  }

  lemma DecimalSnoc(digit: DigitValues, v: nat, c: int)
    requires AsciiDigitsOnly(digit) && IsAscii(c) && digit(c).Some? && v > 0
    ensures DecimalText(v * 10 + digit(c).value) == DecimalText(v) + [c]
  {
    var d := digit(c).value;
    assert d < 10 && c == 0x30 + d;
    assert (v * 10 + d) / 10 == v && (v * 10 + d) % 10 == d;
  }

  /** What canonicalizing a quoted path again comes to. */
  lemma QuotedAgain(digit: DigitValues, s: Text)
    requires AsciiDigitsOnly(digit) && Encodable(s) && PathProblem(s).None? && Quote(s) != []
    ensures var c := Quote(s);
            CanonicalizeGitlabProject(digit, Words(c)) ==
            if Numeric(digit, c) then CanonicalizeNumericId(IntOf(digit, c)) else Canonical(c)
  {
    QuotedPassesRaw(s);
  }

  /** A number's text is its own canonical form exactly when it has neither sign nor leading zero. */
  lemma NumberIsFixedExactly(digit: DigitValues, c: Text)
    requires AsciiDigitsOnly(digit) && Numeric(digit, c) && forall x <- c :: IsAscii(x)
    ensures CanonicalizeNumericId(IntOf(digit, c)) == Canonical(c) <==> 0x31 <= c[0] <= 0x39
  {
    assert c[0] in c;
    if AllDigits(digit, c) {
      if c[0] != 0x30 { DecimalRoundTrip(digit, c); }
      if ValueOf(digit, c) > 0 { DecimalStarts(ValueOf(digit, c)); }
    }
  }

  /** The decoded path reads as a number once it is quoted. */
  predicate LooksNumeric(digit: DigitValues, path: Text) { Numeric(digit, path) && forall c <- path :: IsAscii(c) }

  lemma {:induction false} UnreservedQuotes(s: Text)
    requires forall c <- s :: Unreserved(c)
    ensures Encodable(s) && Quote(s) == s
  {
    assert forall c <- s :: IsScalar(c);
    if s != [] {
      assert s[0] in s && forall c <- s[1..] :: c in s;
      UnreservedQuotes(s[1..]);
      assert Encode(s) == [s[0]] + Encode(s[1..]);
      assert s == [s[0]] + s[1..];
    }
  }

  /** Quoting neither makes nor hides a number, except that digits of other scripts are escaped. */
  lemma QuotedLooksNumeric(digit: DigitValues, s: Text)
    requires AsciiDigitsOnly(digit) && Encodable(s)
    ensures Numeric(digit, Quote(s)) <==> LooksNumeric(digit, s)
    ensures LooksNumeric(digit, s) ==> Quote(s) == s
  {
    if LooksNumeric(digit, s) {
      forall c | c in s ensures Unreserved(c) {
        var i :| 0 <= i < |s| && s[i] == c;
        if !AllDigits(digit, s) && i > 0 { assert s[1..][i - 1] == c; }
      }
      UnreservedQuotes(s);
    }
    if Numeric(digit, Quote(s)) {
      QuotedNumericIsPlain(digit, s);
      QuotedCharacters(s);
    }
  }

  /**
   Canonicalizing a second time changes nothing exactly when the path the input denotes does not look
   like a number, or looks like one without sign and leading zeros.
   */
  lemma CanonicalIsFixedExactly(digit: DigitValues, raw: Text)
    requires AsciiDigitsOnly(digit) && CanonicalizeProjectPath(raw).Canonical?
    ensures var c, path := CanonicalizeProjectPath(raw).text, Unquote(raw).value;
            && path != []
            && (CanonicalizeGitlabProject(digit, Words(c)) == Canonical(c) <==> (LooksNumeric(digit, path) ==> 0x31 <= path[0] <= 0x39))
  {
    var s := Unquote(raw).value;
    QuotedNonempty(s);
    QuotedAgain(digit, s);
    QuotedLooksNumeric(digit, s);
    if LooksNumeric(digit, s) { NumberIsFixedExactly(digit, s); }
  }

  /** %30%31%32 */
  const ESCAPED_012: Text := [0x25, 0x33, 0x30, 0x25, 0x33, 0x31, 0x25, 0x33, 0x32]

  const PATH_012: Text := [0x30, 0x31, 0x32]

  lemma Escaped012Bytes()
    ensures PercentBytes(ESCAPED_012) == PATH_012
  {
    var two, one := [0x25, 0x33, 0x31, 0x25, 0x33, 0x32], [0x25, 0x33, 0x32];
    assert one[3..] == [] && PercentBytes(one) == [0x32];
    assert two[3..] == one && PercentBytes(two) == [0x31, 0x32];
    assert ESCAPED_012[3..] == two;
  }

  lemma AsciiDenotes(s: Text, path: Text)
    requires (forall c <- s :: IsAscii(c)) && PercentBytes(s) == path && forall c <- path :: IsAscii(c)
    ensures Unquote(s) == Some(path)
  {
    UnquoteAscii(s);
    DecodeAscii(path);
  }

  lemma Escaped012Denotes()
    ensures Unquote(ESCAPED_012) == Some(PATH_012)
  {
    Escaped012Bytes();
    AsciiDenotes(ESCAPED_012, PATH_012);
  }

  lemma Path012IsFine()
    ensures PathProblem(PATH_012).None? && Quote(PATH_012) == PATH_012
  {
    var d := PATH_012;
    UnreservedQuotes(d);
    assert Split([]) == [[]];
    assert [0x32][1..] == [] && Split([0x32]) == [[0x32]];
    assert [0x31, 0x32][1..] == [0x32] && Split([0x31, 0x32]) == [[0x31, 0x32]];
    assert d[1..] == [0x31, 0x32] && Split(d) == [d];
  }

  lemma Escaped012IsFine(digit: DigitValues)
    requires AsciiDigitsOnly(digit)
    ensures var s := ESCAPED_012;
            !HasUrl(s) && !HasControl(s) && !HasMalformedEscape(s) && Strip(s) == s && !Numeric(digit, s)
  {
    assert digit(ESCAPED_012[0]).None? && ESCAPED_012[0] != MINUS;
  }

  lemma Number012(digit: DigitValues)
    requires AsciiDigitsOnly(digit)
    ensures Numeric(digit, PATH_012) && Strip(PATH_012) == PATH_012
    ensures CanonicalizeNumericId(IntOf(digit, PATH_012)) == Canonical([0x31, 0x32])
  {
    var d := PATH_012;
    assert AllDigits(digit, d);
    assert ValueOf(digit, []) == 0;
    assert [0x30][..0] == [] && ValueOf(digit, [0x30]) == 0;
    assert [0x30, 0x31][..1] == [0x30] && ValueOf(digit, [0x30, 0x31]) == 1;
    assert d[..2] == [0x30, 0x31] && ValueOf(digit, d) == 12;
    assert DecimalText(1) == [0x31] && DecimalText(12) == DecimalText(1) + [0x32];
  }

  /** The input that shows it: the escaped path 012 has canonical form 012, which canonicalizes to 12. */
  lemma Escaped012IsNotFixed(digit: DigitValues)
    requires AsciiDigitsOnly(digit)
    ensures CanonicalizeProjectPath(ESCAPED_012) == Canonical(PATH_012)
    ensures CanonicalizeGitlabProject(digit, Words(ESCAPED_012)) == Canonical(PATH_012)
    ensures CanonicalizeGitlabProject(digit, Words(PATH_012)) == Canonical([0x31, 0x32])
  {
    Escaped012Denotes();
    Escaped012IsFine(digit);
    Path012IsFine();
    Number012(digit);
  }

  lemma QuotedNonempty(s: Text)
    requires Encodable(s) && PathProblem(s).None?
    ensures Quote(s) != []
  {
    assert s != [] by { assert [] in Split([]); }
    assert s[0] in s && EncodeOne(s[0]) != [];
  }
}
