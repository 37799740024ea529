/** CBOR heads: a major type and an unsigned argument in the shortest of five widths
    (server/cose.py; section 3 of RFC 8949). */
module CborHead {
  import opened Options
  import opened Utf8

  datatype Error =
    | EndAtHead | ShortArgument | ReservedInfo | ShortString | BadText | BadMajor | Trailing
    | UnhashableKey
    | NotTagged18 | NotFourElements | NotBytes | TooLong | BadSignature | HeaderNotMap

  type Parsed<+T> = Result<T, Error>

  const MAX64: nat := 0x1_0000_0000_0000_0000

  function Pow256(w: nat): nat {
    if w == 0 then 1 else 256 * Pow256(w - 1)
  }

  /** `n.to_bytes(w, "big")`. */
  function BigEndian(n: nat, w: nat): (b: seq<Byte>)
    ensures |b| == w
  {
    if w == 0 then [] else BigEndian(n / 256, w - 1) + [n % 256]
  }

  /** `int.from_bytes(b, "big")`. */
  function FromBigEndian(b: seq<Byte>): nat {
    if b == [] then 0 else FromBigEndian(b[..|b| - 1]) * 256 + b[|b| - 1]
  }

  lemma {:induction false} BigEndianRoundTrip(n: nat, w: nat)
    requires n < Pow256(w)
    ensures FromBigEndian(BigEndian(n, w)) == n
  {
    if w == 0 {
    } else {
      BigEndianRoundTrip(n / 256, w - 1);
      assert BigEndian(n, w)[..w - 1] == BigEndian(n / 256, w - 1);
    }
  }

  lemma {:induction false} FromBigEndianBound(b: seq<Byte>)
    ensures FromBigEndian(b) < Pow256(|b|)
  {
    if b == [] {
    } else {
      FromBigEndianBound(b[..|b| - 1]);
    }
  }

  lemma Powers()
    ensures Pow256(0) == 1 && Pow256(1) == 0x100 && Pow256(2) == 0x1_0000
    ensures Pow256(4) == 0x1_0000_0000 && Pow256(8) == MAX64
  {
    assert Pow256(3) == 0x100_0000;
    assert Pow256(5) == 0x100_0000_0000;
    assert Pow256(6) == 0x1_0000_0000_0000;
    assert Pow256(7) == 0x100_0000_0000_0000;
  }

  /** `_enc_head`; None when eight bytes are not enough. */
  function EncHead(major: nat, n: nat): (r: Option<seq<Byte>>)
    requires major < 8
    ensures r.Some? <==> n < MAX64
    ensures r.Some? ==> 1 <= |r.value| <= 9
  {
    var head := major * 32;
    if n < 24 then Some([head + n])
    else if n < 256 then Some([head + 24, n])
    else if n < 65536 then Some([head + 25] + BigEndian(n, 2))
    else if n < 0x1_0000_0000 then Some([head + 26] + BigEndian(n, 4))
    else if n < MAX64 then Some([head + 27] + BigEndian(n, 8))
    else None
  }

  /** Bytes of the argument that follow the first byte of a head. */
  function ArgumentWidth(info: nat): nat
    requires 24 <= info < 28
  {
    if info == 24 then 1 else if info == 25 then 2 else if info == 26 then 4 else 8
  }

  /** `_read_head`: major type, argument, and the position after the head. */
  function ReadHead(data: seq<Byte>, pos: nat): (r: Parsed<(nat, nat, nat)>)
    ensures r.Ok? ==> r.value.0 < 8 && pos < r.value.2 <= |data|
  {
    if pos >= |data| then Err(EndAtHead)
    else
      var major, info := data[pos] / 32, data[pos] % 32;
      if info < 24 then Ok((major, info, pos + 1))
      else if info >= 28 then Err(ReservedInfo)
      else
        var end := pos + 1 + ArgumentWidth(info);
        if end > |data| then Err(ShortArgument)
        else Ok((major, FromBigEndian(data[pos + 1..end]), end))
  }

  /** Heads that are refused: the reserved ones, and those whose argument is cut off. */
  lemma RefusedHeads(major: nat, info: nat, rest: seq<Byte>)
    requires major < 8 && info < 32
    ensures info >= 28 ==> ReadHead([major * 32 + info] + rest, 0) == Err(ReservedInfo)
    ensures ((info == 24 && |rest| < 1) || (info == 25 && |rest| < 2) || (info == 26 && |rest| < 4)
      || (info == 27 && |rest| < 8)) ==> ReadHead([major * 32 + info] + rest, 0) == Err(ShortArgument)
    ensures ReadHead([], 0) == Err(EndAtHead)
  {
    assert (major * 32 + info) / 32 == major && (major * 32 + info) % 32 == info;
  }

  /** The bytes `e` stand in `data` at position `pos`. */
  ghost predicate At(data: seq<Byte>, pos: nat, e: seq<Byte>) {
    pos + |e| <= |data| && data[pos..pos + |e|] == e
  }

  lemma AtSplit(data: seq<Byte>, pos: nat, a: seq<Byte>, b: seq<Byte>)
    ensures At(data, pos, a + b) <==> At(data, pos, a) && At(data, pos + |a|, b)
  {
    if pos + |a| + |b| <= |data| {
      var c := data[pos..pos + |a| + |b|];
      assert data[pos..pos + |a|] == c[..|a|];
      assert data[pos + |a|..pos + |a| + |b|] == c[|a|..];
      assert c == c[..|a|] + c[|a|..];
      assert (a + b)[..|a|] == a && (a + b)[|a|..] == b;
    }
  }

  lemma AtInside(data: seq<Byte>, pos: nat, e: seq<Byte>)
    requires At(data, pos, e)
    ensures pos <= pos + |e| <= |data|
  {
  }

  lemma AtSurrounded(pre: seq<Byte>, e: seq<Byte>, suf: seq<Byte>)
    ensures At(pre + e + suf, |pre|, e)
  {
  }

  /** Reading undoes encoding, whatever surrounds the head. */
  lemma HeadRoundTrip(major: nat, n: nat, data: seq<Byte>, pos: nat)
    requires major < 8 && n < MAX64 && At(data, pos, EncHead(major, n).value)
    ensures ReadHead(data, pos) == Ok((major, n, pos + |EncHead(major, n).value|))
  {
    var h := EncHead(major, n).value;
    assert data[pos] == data[pos..pos + |h|][0] == h[0];
    assert h[0] / 32 == major;
    if n >= 24 {
      Powers();
      var w := |h| - 1;
      assert data[pos + 1..pos + 1 + w] == data[pos..pos + |h|][1..] == h[1..];
      if n < 256 {
        assert h[1..] == [n];
        assert FromBigEndian([n]) == FromBigEndian([n][..0]) * 256 + n;
      } else {
        assert h[1..] == BigEndian(n, w);
        BigEndianRoundTrip(n, w);
      }
    }
  }

  /** No other head for the same argument is shorter (section 4.2.1 of RFC 8949). */
  lemma HeadIsShortest(data: seq<Byte>, pos: nat)
    requires ReadHead(data, pos).Ok?
    ensures var (major, n, end) := ReadHead(data, pos).value;
      n < MAX64 && |EncHead(major, n).value| <= end - pos
  {
    var (major, n, end) := ReadHead(data, pos).value;
    Powers();
    FromBigEndianBound(data[pos + 1..end]);
  }
}
