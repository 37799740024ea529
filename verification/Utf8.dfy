/** UTF-8 (RFC 3629), as Python's strict `encode` and `decode` apply it. */
module Utf8 {
  import opened Options

  type Byte = x: int | 0 <= x < 256

  function EncodeChar(c: char): (b: seq<Byte>)
    ensures 1 <= |b| <= 4
  {
    var n := c as int;
    if n < 0x80 then [n]
    else if n < 0x800 then [0xC0 + n / 64, 0x80 + n % 64]
    else if n < 0x1_0000 then [0xE0 + n / 4096, 0x80 + n / 64 % 64, 0x80 + n % 64]
    else [0xF0 + n / 262144, 0x80 + n / 4096 % 64, 0x80 + n / 64 % 64, 0x80 + n % 64]
  }

  function Encode(s: string): seq<Byte> {
    if s == [] then [] else EncodeChar(s[0]) + Encode(s[1..])
  }

  predicate Continues(b: seq<Byte>, i: nat) {
    i < |b| && 0x80 <= b[i] < 0xC0
  }

  predicate Scalar(n: int) {
    0 <= n < 0xD800 || 0xE000 <= n < 0x11_0000
  }

  /** The first character and the number of bytes it takes; overlong forms, surrogates
      and stray continuation bytes are errors. */
  function DecodeChar(b: seq<Byte>): (r: Option<(char, nat)>)
    requires b != []
    ensures r.Some? ==> 1 <= r.value.1 <= |b|
  {
    if b[0] < 0x80 then Some((b[0] as char, 1))
    else if 0xC2 <= b[0] < 0xE0 && Continues(b, 1) then
      Some((((b[0] as int - 0xC0) * 64 + (b[1] as int - 0x80)) as char, 2))
    else if 0xE0 <= b[0] < 0xF0 && Continues(b, 1) && Continues(b, 2) then
      var n := (b[0] as int - 0xE0) * 4096 + (b[1] as int - 0x80) * 64 + (b[2] as int - 0x80);
      if n >= 0x800 && Scalar(n) then Some((n as char, 3)) else None
    else if 0xF0 <= b[0] < 0xF8 && Continues(b, 1) && Continues(b, 2) && Continues(b, 3) then
      var n := (b[0] as int - 0xF0) * 262144 + (b[1] as int - 0x80) * 4096 + (b[2] as int - 0x80) * 64
        + (b[3] as int - 0x80);
      if n >= 0x1_0000 && Scalar(n) then Some((n as char, 4)) else None
    else None
  }

  function Decode(b: seq<Byte>): Option<string> {
    if b == [] then Some([])
    else match DecodeChar(b)
      case None => None
      case Some((c, n)) =>
        match Decode(b[n..])
        case None => None
        case Some(rest) => Some([c] + rest)
  }

  lemma SixBits(n: nat)
    ensures n == n / 64 * 64 + n % 64 && n % 64 < 64
    ensures n / 64 == n / 4096 * 64 + n / 64 % 64 && n / 4096 == n / 262144 * 64 + n / 4096 % 64
  {
  }

  lemma CharRoundTrip(c: char, rest: seq<Byte>)
    ensures DecodeChar(EncodeChar(c) + rest) == Some((c, |EncodeChar(c)|))
  {
    var e := EncodeChar(c);
    var b := e + rest;
    assert forall i :: 0 <= i < |e| ==> b[i] == e[i];
    SixBits(c as int);
  }

  /** Decoding undoes encoding. */
  lemma {:induction false} RoundTrip(s: string)
    ensures Decode(Encode(s)) == Some(s)
  {
    if s == [] {
    } else {
      CharRoundTrip(s[0], Encode(s[1..]));
      RoundTrip(s[1..]);
      assert Encode(s)[|EncodeChar(s[0])|..] == Encode(s[1..]);
      assert [s[0]] + s[1..] == s;
    }
  }

  /** Different texts have different encodings. */
  lemma EncodeInjective(s: string, t: string)
    requires Encode(s) == Encode(t)
    ensures s == t
  {
    RoundTrip(s);
    RoundTrip(t);
  }

  lemma {:induction false} EncodeConcat(s: string, t: string)
    ensures Encode(s + t) == Encode(s) + Encode(t)
  {
    if s == [] {
      assert s + t == t;
    } else {
      assert (s + t)[1..] == s[1..] + t;
      EncodeConcat(s[1..], t);
    }
  }

  /** Six-bit groups are read off by division. */
  lemma Groups(w: nat, x: nat, y: nat, z: nat)
    requires x < 64 && y < 64 && z < 64
    ensures var n := w * 262144 + x * 4096 + y * 64 + z;
      n / 262144 == w && n / 4096 % 64 == x && n / 64 % 64 == y && n % 64 == z
  {
    var n := w * 262144 + x * 4096 + y * 64 + z;
    assert n == ((w * 64 + x) * 64 + y) * 64 + z;
    assert n / 64 == (w * 64 + x) * 64 + y;
    assert n / 4096 == n / 64 / 64 == w * 64 + x;
    assert n / 262144 == n / 4096 / 64 == w;
  }

  lemma CharExact(b: seq<Byte>)
    requires b != [] && DecodeChar(b).Some?
    ensures var (c, n) := DecodeChar(b).value; EncodeChar(c) == b[..n]
  {
    if b[0] < 0x80 {
    } else if b[0] < 0xE0 {
      TwoExact(b);
    } else if b[0] < 0xF0 {
      ThreeExact(b);
    } else {
      FourExact(b);
    }
  }

  lemma TwoExact(b: seq<Byte>)
    requires b != [] && 0x80 <= b[0] < 0xE0 && DecodeChar(b).Some?
    ensures var (c, n) := DecodeChar(b).value; EncodeChar(c) == b[..n]
  {
    Groups(0, 0, b[0] - 0xC0, b[1] - 0x80);
    assert EncodeChar(DecodeChar(b).value.0) == [b[0], b[1]] == b[..2];
  }

  lemma ThreeExact(b: seq<Byte>)
    requires b != [] && 0xE0 <= b[0] < 0xF0 && DecodeChar(b).Some?
    ensures var (c, n) := DecodeChar(b).value; EncodeChar(c) == b[..n]
  {
    Groups(0, b[0] - 0xE0, b[1] - 0x80, b[2] - 0x80);
    assert EncodeChar(DecodeChar(b).value.0) == [b[0], b[1], b[2]] == b[..3];
  }

  lemma FourExact(b: seq<Byte>)
    requires b != [] && 0xF0 <= b[0] && DecodeChar(b).Some?
    ensures var (c, n) := DecodeChar(b).value; EncodeChar(c) == b[..n]
  {
    Groups(b[0] - 0xF0, b[1] - 0x80, b[2] - 0x80, b[3] - 0x80);
    assert EncodeChar(DecodeChar(b).value.0) == [b[0], b[1], b[2], b[3]] == b[..4];
  }

  /** Decoding is strict: exactly the bytes that encode a text decode to it, so that every
      text has one encoding and everything else is refused. */
  lemma {:induction false} DecodeExact(b: seq<Byte>, s: string)
    ensures Decode(b) == Some(s) <==> Encode(s) == b
  {
    RoundTrip(s);
    if Decode(b).Some? {
      DecodeThenEncode(b);
    }
  }

  lemma {:induction false} DecodeThenEncode(b: seq<Byte>)
    requires Decode(b).Some?
    ensures Encode(Decode(b).value) == b
    decreases |b|
  {
    hide DecodeChar, EncodeChar;
    if b == [] {
    } else {
      var (c, n) := DecodeChar(b).value;
      CharExact(b);
      DecodeThenEncode(b[n..]);
      var s := Decode(b).value;
      assert s[0] == c && s[1..] == Decode(b[n..]).value;
      assert b == b[..n] + b[n..];
    }
  }

  /** The examples of section 7 of RFC 3629 for one, two, three and four bytes. */
  lemma Examples()
    ensures EncodeChar('A') == [0x41] && EncodeChar(0x391 as char) == [0xCE, 0x91]
    ensures EncodeChar(0x2262 as char) == [0xE2, 0x89, 0xA2] && EncodeChar(0xFEFF as char) == [0xEF, 0xBB, 0xBF]
    ensures EncodeChar(0x233B4 as char) == [0xF0, 0xA3, 0x8E, 0xB4]
  {
  }

  /** ASCII text is its own encoding. */
  lemma {:induction false} EncodeAscii(s: string)
    requires forall i :: 0 <= i < |s| ==> (s[i] as int) < 128
    ensures |Encode(s)| == |s| && forall i :: 0 <= i < |s| ==> Encode(s)[i] == s[i] as int
  {
    if s == [] {
    } else {
      EncodeAscii(s[1..]);
    }
  }
}
