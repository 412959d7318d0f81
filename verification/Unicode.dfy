/** Code points, and the strict UTF-8 of RFC 3629. */
module Unicode {
  import opened Wrappers

  type Text = seq<int>

  /** The characters str.strip() removes. */
  predicate IsSpace(n: int) {
    || 0x09 <= n <= 0x0D || 0x1C <= n <= 0x20 || n == 0x85 || n == 0xA0 || n == 0x1680
    || 0x2000 <= n <= 0x200A || n == 0x2028 || n == 0x2029 || n == 0x202F || n == 0x205F || n == 0x3000
  }

  predicate IsSurrogate(c: int) { 0xD800 <= c <= 0xDFFF }

  /** What UTF-8 can encode: every code point but the surrogates. */
  predicate IsScalar(c: int) { 0 <= c <= 0x10FFFF && !IsSurrogate(c) }

  /** The value of a hexadecimal digit of either case. */
  function HexValue(c: int): Option<nat> {
    if 0x30 <= c <= 0x39 then Some(c - 0x30)
    else if 0x41 <= c <= 0x46 then Some(c - 0x41 + 10)
    else if 0x61 <= c <= 0x66 then Some(c - 0x61 + 10)
    else None
  }

  predicate IsByte(b: int) { 0 <= b < 0x100 }

  function EncodeOne(c: int): (r: Text)
    requires IsScalar(c)
    ensures r != [] && forall b <- r :: IsByte(b)
  {
    if c < 0x80 then [c]
    else if c < 0x800 then [0xC0 + c / 64, 0x80 + c % 64]
    else if c < 0x1_0000 then [0xE0 + c / 4096, 0x80 + c / 64 % 64, 0x80 + c % 64]
    else [0xF0 + c / 262144, 0x80 + c / 4096 % 64, 0x80 + c / 64 % 64, 0x80 + c % 64]
  }

  function Encode(s: Text): (r: Text)
    requires forall c <- s :: IsScalar(c)
    ensures forall b <- r :: IsByte(b)
  {
    if s == [] then [] else EncodeOne(s[0]) + Encode(s[1..])
  }

  predicate Continues(b: int) { 0x80 <= b <= 0xBF }

  datatype Decoded = Decoded(code: int, length: nat)

  /** The scalar a byte sequence starts with; None if it starts ill-formed. */
  function DecodeOne(t: Text): (r: Option<Decoded>)
    ensures r.Some? ==> 0 < r.value.length <= |t|
  {
    if t == [] || t[0] < 0 then None
    else if t[0] < 0x80 then Some(Decoded(t[0], 1))
    else if 0xC2 <= t[0] <= 0xDF && |t| >= 2 && Continues(t[1]) then
      Some(Decoded((t[0] - 0xC0) * 64 + (t[1] - 0x80), 2))
    else if 0xE0 <= t[0] <= 0xEF && |t| >= 3 && Continues(t[1]) && Continues(t[2]) then
      var c := (t[0] - 0xE0) * 4096 + (t[1] - 0x80) * 64 + (t[2] - 0x80);
      if c >= 0x800 && !IsSurrogate(c) then Some(Decoded(c, 3)) else None
    else if 0xF0 <= t[0] <= 0xF4 && |t| >= 4 && Continues(t[1]) && Continues(t[2]) && Continues(t[3]) then
      var c := (t[0] - 0xF0) * 262144 + (t[1] - 0x80) * 4096 + (t[2] - 0x80) * 64 + (t[3] - 0x80);
      if 0x1_0000 <= c <= 0x10FFFF then Some(Decoded(c, 4)) else None
    else None
  }

  /** bytes.decode("utf-8", "strict") */
  function Decode(t: Text): Option<Text> {
    if t == [] then Some([])
    else
      match DecodeOne(t)
      case None => None
      case Some(first) =>
        match Decode(t[first.length..])
        case None => None
        case Some(more) => Some([first.code] + more)
  }

  lemma Sextets(c: int)
    requires 0 <= c
    ensures c == c / 64 * 64 + c % 64
    ensures c / 64 == c / 4096 * 64 + c / 64 % 64
    ensures c / 4096 == c / 262144 * 64 + c / 4096 % 64
  {
  }

  lemma DecodeEncodedOne(c: int, rest: Text)
    requires IsScalar(c)
    ensures DecodeOne(EncodeOne(c) + rest) == Some(Decoded(c, |EncodeOne(c)|))
  {
    var t := EncodeOne(c) + rest;
    Sextets(c);
    if c < 0x80 {
      assert t[0] == c;
    } else if c < 0x800 {
      assert t[0] == 0xC0 + c / 64 && t[1] == 0x80 + c % 64;
    } else if c < 0x1_0000 {
      assert t[0] == 0xE0 + c / 4096 && t[1] == 0x80 + c / 64 % 64 && t[2] == 0x80 + c % 64;
    } else {
      assert t[0] == 0xF0 + c / 262144 && t[1] == 0x80 + c / 4096 % 64 && t[2] == 0x80 + c / 64 % 64 && t[3] == 0x80 + c % 64;
    }
  }

  /** Decoding gives back exactly what was encoded. */
  lemma {:induction false} DecodeEncoded(s: Text)
    requires forall c <- s :: IsScalar(c)
    ensures Decode(Encode(s)) == Some(s)
  {
    if s != [] {
      var rest := Encode(s[1..]);
      DecodeEncodedOne(s[0], rest);
      DecodeEncoded(s[1..]);
      assert (EncodeOne(s[0]) + rest)[|EncodeOne(s[0])|..] == rest;
      assert s == [s[0]] + s[1..];
    }
  }

  lemma {:induction false} DecodeAscii(s: Text)
    requires forall c <- s :: 0 <= c < 0x80
    ensures Decode(s) == Some(s)
  {
    if s != [] {
      assert s[0] in s && forall c <- s[1..] :: c in s;
      DecodeAscii(s[1..]);
      assert s == [s[0]] + s[1..];
    }
  }

  lemma Sextet(a: int, b: int)
    requires 0 <= b < 64
    ensures (a * 64 + b) / 64 == a && (a * 64 + b) % 64 == b
  {
  }

  lemma EncodedTwo(a: int, b: int)
    requires 2 <= a < 32 && 0 <= b < 64
    ensures IsScalar(a * 64 + b) && EncodeOne(a * 64 + b) == [0xC0 + a, 0x80 + b]
  {
    Sextet(a, b);
  }

  lemma EncodedThree(x: int, y: int, z: int)
    requires 0 <= x < 16 && 0 <= y < 64 && 0 <= z < 64 && x * 4096 + y * 64 + z >= 0x800 && !IsSurrogate(x * 4096 + y * 64 + z)
    ensures var c := x * 4096 + y * 64 + z; IsScalar(c) && EncodeOne(c) == [0xE0 + x, 0x80 + y, 0x80 + z]
  {
    var b := x * 64 + y;
    Sextet(x, y);
    Sextet(b, z);
    assert x * 4096 + y * 64 + z == b * 64 + z;
    Sextets(b * 64 + z);
  }

  lemma EncodedFour(w: int, x: int, y: int, z: int)
    requires 0 <= w < 8 && 0 <= x < 64 && 0 <= y < 64 && 0 <= z < 64
    requires 0x1_0000 <= w * 262144 + x * 4096 + y * 64 + z <= 0x10FFFF
    ensures var c := w * 262144 + x * 4096 + y * 64 + z; IsScalar(c) && EncodeOne(c) == [0xF0 + w, 0x80 + x, 0x80 + y, 0x80 + z]
  {
    var a := w * 64 + x;
    var b := a * 64 + y;
    Sextet(w, x);
    Sextet(a, y);
    Sextet(b, z);
    assert w * 262144 + x * 4096 + y * 64 + z == b * 64 + z;
    Sextets(b * 64 + z);
  }

  /** Only what encoding a scalar gives is decoded: no surrogate, no overlong form, nothing beyond the last code point. */
  lemma DecodeOneStrict(t: Text)
    requires DecodeOne(t).Some?
    ensures var d := DecodeOne(t).value; IsScalar(d.code) && EncodeOne(d.code) == t[..d.length]
  {
    if 0x80 <= t[0] <= 0xDF {
      EncodedTwo(t[0] - 0xC0, t[1] - 0x80);
    } else if 0xE0 <= t[0] <= 0xEF {
      EncodedThree(t[0] - 0xE0, t[1] - 0x80, t[2] - 0x80);
    } else if 0xF0 <= t[0] {
      EncodedFour(t[0] - 0xF0, t[1] - 0x80, t[2] - 0x80, t[3] - 0x80);
    }
  }

  /** Strict decoding: a byte sequence decodes to a text exactly when it is that text's encoding. */
  lemma {:induction false} DecodeExactly(t: Text, s: Text)
    ensures Decode(t) == Some(s) <==> (forall c <- s :: IsScalar(c)) && Encode(s) == t
    decreases |t|
  {
    if (forall c <- s :: IsScalar(c)) && Encode(s) == t { DecodeEncoded(s); }
    if Decode(t) == Some(s) && t != [] {
      var d := DecodeOne(t).value;
      DecodeOneStrict(t);
      DecodeExactly(t[d.length..], s[1..]);
      assert s == [d.code] + s[1..];
      assert t == t[..d.length] + t[d.length..];
    }
  }

  /** One code point of each length: "$", "\u00A3", "\u20AC" and U+10348. */
  lemma EncodedSamples()
    ensures EncodeOne(0x24) == [0x24] && EncodeOne(0xA3) == [0xC2, 0xA3]
    ensures EncodeOne(0x20AC) == [0xE2, 0x82, 0xAC] && EncodeOne(0x1_0348) == [0xF0, 0x90, 0x8D, 0x88]
  {
  }
}
