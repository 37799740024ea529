/** COSE_Sign1 envelopes (server/cose.py; sections 4.2 and 4.4 of RFC 8152). Signing and
    checking are parameters; what is needed of them is stated where it is used. */
module Cose {
  import opened Options
  import opened Sorting
  import opened Utf8
  import opened CborHead
  import opened Cbor
  import opened CborBytes
  import opened CborCodec

  const HEADER_ALG := 1
  const HEADER_KID := 4
  const HEADER_TYP := 16
  const ALG_EDDSA := -8
  const TAG_COSE_SIGN1: nat := 18

  type Signer = seq<Byte> -> seq<Byte>
  type Checker = (seq<Byte>, seq<Byte>) -> bool  // signature, message

  function Header(kid: string, typ: string): map<Key, Value> {
    map[KInt(HEADER_ALG) := Int(ALG_EDDSA), KInt(HEADER_KID) := Text(kid), KInt(HEADER_TYP) := Text(typ)]
  }

  /** The signing input, before encoding. */
  function SigValue(protected: seq<Byte>, payload: seq<Byte>): Value {
    List([Text("Signature1"), Bytes(protected), Bytes([]), Bytes(payload)])
  }

  function Envelope(protected: seq<Byte>, payload: seq<Byte>, signature: seq<Byte>): Value {
    List([Bytes(protected), Map(map[]), Bytes(payload), Bytes(signature)])
  }

  function Tagged(body: seq<Byte>): seq<Byte> {
    EncHead(6, TAG_COSE_SIGN1).value + body
  }

  ghost function Build(sign: Signer, payload: seq<Byte>, kid: string, typ: string): Option<seq<Byte>> {
    match EncodeValue(Map(Header(kid, typ)))
    case None => None
    case Some(protected) =>
      match EncodeValue(SigValue(protected, payload))
      case None => None
      case Some(message) =>
        match EncodeValue(Envelope(protected, payload, sign(message)))
        case None => None
        case Some(body) => Some(Tagged(body))
  }

  /** The four fields of a well-shaped message. */
  datatype Fields = Fields(protected: seq<Byte>, payload: seq<Byte>, signature: seq<Byte>)

  function Open(cose: seq<Byte>): Parsed<Fields> {
    var decoded :- DecodeAll(cose);
    if !decoded.Tag? || decoded.tag != TAG_COSE_SIGN1 then Err(NotTagged18)
    else if !decoded.inner.List? || |decoded.inner.items| != 4 then Err(NotFourElements)
    else
      var a := decoded.inner.items;
      if !a[0].Bytes? || !a[2].Bytes? || !a[3].Bytes? then Err(NotBytes)
      else Ok(Fields(a[0].bytes, a[2].bytes, a[3].bytes))
  }

  function HeaderOf(protected: seq<Byte>): Parsed<map<Key, Value>> {
    var v :- if protected == [] then Ok(Map(map[])) else DecodeAll(protected);
    if v.Map? then Ok(v.entries) else Err(HeaderNotMap)
  }

  ghost function Verify(check: Checker, cose: seq<Byte>): Parsed<map<Key, Value>> {
    var f :- Open(cose);
    match EncodeValue(SigValue(f.protected, f.payload))
    case None => Err(TooLong)
    case Some(message) =>
      if !check(f.signature, message) then Err(BadSignature) else HeaderOf(f.protected)
  }

  // ----- the code

  /** `build_cose_sign1`. */
  method BuildCoseSign1(sign: Signer, payload: seq<Byte>, kid: string, typ: string) returns (r: Option<seq<Byte>>)
    ensures r == Build(sign, payload, kid, typ)
  {
    hide EncodeValue;
    var protected := CborEncode(Map(Header(kid, typ)));
    if protected.None? {
      return None;
    }
    var message := CborEncode(SigValue(protected.value, payload));
    if message.None? {
      return None;
    }
    var signature := sign(message.value);
    var body := CborEncode(Envelope(protected.value, payload, signature));
    return if body.None? then None else Some(Tagged(body.value));
  }

  /** `verify_cose_sign1`: the decoded protected header of a message whose signature holds. */
  method VerifyCoseSign1(check: Checker, cose: seq<Byte>) returns (r: Parsed<map<Key, Value>>)
    ensures r == Verify(check, cose)
  {
    hide EncodeValue, DecodeAt;
    var decoded := CborDecode(cose);
    if decoded.Err? {
      return Err(decoded.error);
    }
    if !decoded.value.Tag? || decoded.value.tag != TAG_COSE_SIGN1 {
      return Err(NotTagged18);
    }
    var fields := decoded.value.inner;
    if !fields.List? || |fields.items| != 4 {
      return Err(NotFourElements);
    }
    var protected, payload, signature := fields.items[0], fields.items[2], fields.items[3];
    if !protected.Bytes? || !payload.Bytes? || !signature.Bytes? {
      return Err(NotBytes);
    }
    var message := CborEncode(SigValue(protected.bytes, payload.bytes));
    if message.None? {
      return Err(TooLong);
    }
    if !check(signature.bytes, message.value) {
      return Err(BadSignature);
    }
    var header := Ok(Map(map[]));
    if protected.bytes != [] {
      header := CborDecode(protected.bytes);
    }
    if header.Err? {
      return Err(header.error);
    }
    return if header.value.Map? then Ok(header.value.entries) else Err(HeaderNotMap);
  }

  // ----- the messages in bytes

  function ByteString(b: seq<Byte>): seq<Byte>
    requires |b| < MAX64
  {
    Head(2, |b|) + b
  }

  function TextString(s: string): seq<Byte>
    requires |Utf8.Encode(s)| < MAX64
  {
    Head(3, |Utf8.Encode(s)|) + Utf8.Encode(s)
  }

  const SIGNATURE1: seq<Byte> := [0x53, 0x69, 0x67, 0x6E, 0x61, 0x74, 0x75, 0x72, 0x65, 0x31]

  /** The protected header: a map of three entries, algorithm, key id and type. */
  lemma HeaderBytes(kid: string, typ: string)
    requires |Utf8.Encode(kid)| < MAX64 && |Utf8.Encode(typ)| < MAX64
    ensures EncodeValue(Map(Header(kid, typ)))
      == Some([0xA3, 0x01, 0x27, 0x04] + TextString(kid) + [0x10] + TextString(typ))
  {
    hide EncodeValue, Utf8.Encode, Head, Code, Codable, ByCode, Joined;
    var m := Header(kid, typ);
    SmallHeads();
    IntBytes(7);
    TextBytes(kid);
    TextBytes(typ);
    LabelsAscend();
    var a: seq<Byte>, b, d := [0x01, 0x27], [0x04] + TextString(kid), [0x10] + TextString(typ);
    assert EntryBytes(Map(m), KInt(1), a);
    assert EntryBytes(Map(m), KInt(4), b);
    assert EntryBytes(Map(m), KInt(16), d);
    assert |m| == 3;
    MapBytes(m, [KInt(1), KInt(4), KInt(16)], [a, b, d]);
    ThreeJoined(a, b, d);
    assert [0xA3] + (a + b + d)
      == [0xA3, 0x01, 0x27, 0x04] + TextString(kid) + [0x10] + TextString(typ);
  }

  lemma SmallHeads()
    ensures Head(0, 1) == [0x01] && Head(0, 4) == [0x04] && Head(0, 16) == [0x10] && Head(1, 7) == [0x27]
    ensures Head(2, 0) == [0x40] && Head(3, 10) == [0x6A] && Head(4, 4) == [0x84] && Head(5, 3) == [0xA3]
    ensures Head(5, 0) == [0xA0] && Head(6, 18) == [0xD2]
    ensures Codable(KInt(1)) && Code(KInt(1)) == [0x01] && Codable(KInt(4)) && Code(KInt(4)) == [0x04]
    ensures Codable(KInt(16)) && Code(KInt(16)) == [0x10]
  {
  }

  lemma LabelsAscend()
    ensures Sorted(ByCode, [KInt(1), KInt(4), KInt(16)])
  {
    hide Code, Less;
    SmallHeads();
    OneByte(0x01, 0x04);
    OneByte(0x01, 0x10);
    OneByte(0x04, 0x10);
    var keys := [KInt(1), KInt(4), KInt(16)];
    assert keys[1..] == [KInt(4), KInt(16)] && keys[1..][1..] == [KInt(16)] && keys[1..][1..][1..] == [];
    assert Sorted(ByCode, [KInt(16)]);
    assert Sorted(ByCode, keys[1..]);
  }

  lemma OneByte(a: Byte, b: Byte)
    requires a < b
    ensures Less([a], [b])
  {
  }

  lemma SignatureOneText()
    ensures Utf8.Encode("Signature1") == SIGNATURE1
  {
    hide Utf8.Encode;
    EncodeAscii("Signature1");
  }

  lemma ThreeJoined(a: seq<Byte>, b: seq<Byte>, c: seq<Byte>)
    ensures Joined([a, b, c]) == a + b + c
  {
    assert [a, b, c][1..] == [b, c] && [b, c][1..] == [c] && [c][1..] == [];
    assert Joined([c]) == c;
    assert Joined([b, c]) == b + c;
    assert a + (b + c) == a + b + c;
  }

  lemma FourJoined(a: seq<Byte>, b: seq<Byte>, c: seq<Byte>, d: seq<Byte>)
    ensures Joined([a, b, c, d]) == a + b + c + d
  {
    assert [a, b, c, d][1..] == [b, c, d];
    ThreeJoined(b, c, d);
    assert a + (b + c + d) == a + b + c + d;
  }

  /** The signing input (section 4.4 of RFC 8152). */
  lemma SigningBytes(protected: seq<Byte>, payload: seq<Byte>)
    requires |protected| < MAX64 && |payload| < MAX64
    ensures EncodeValue(SigValue(protected, payload))
      == Some([0x84, 0x6A] + SIGNATURE1 + ByteString(protected) + [0x40] + ByteString(payload))
  {
    hide EncodeValue, Utf8.Encode, Head;
    SmallHeads();
    SignatureOneText();
    TextBytes("Signature1");
    BytesBytes(protected);
    BytesBytes([]);
    BytesBytes(payload);
    var a, b, d: seq<Byte>, e := [0x6A] + SIGNATURE1, ByteString(protected), [0x40], ByteString(payload);
    assert EncodeValue(Text("Signature1")) == Some(a) && EncodeValue(Bytes(protected)) == Some(b);
    assert [0x40] + [] == d && EncodeValue(Bytes([])) == Some(d) && EncodeValue(Bytes(payload)) == Some(e);
    ListBytes(SigValue(protected, payload).items, [a, b, d, e]);
    FourJoined(a, b, d, e);
    assert [0x84] + (a + b + d + e) == [0x84, 0x6A] + SIGNATURE1 + ByteString(protected) + [0x40] + ByteString(payload);
  }

  /** The whole envelope: tag 18, an array of four, an empty unprotected map in second place. */
  lemma {:induction false} BuiltBytes(sign: Signer, payload: seq<Byte>, kid: string, typ: string)
    requires |Utf8.Encode(kid)| < MAX64 && |Utf8.Encode(typ)| < MAX64
    ensures var protected := [0xA3, 0x01, 0x27, 0x04] + TextString(kid) + [0x10] + TextString(typ);
      |protected| < MAX64 && |payload| < MAX64 ==>
      var signature := sign([0x84, 0x6A] + SIGNATURE1 + ByteString(protected) + [0x40] + ByteString(payload));
      |signature| < MAX64 ==>
      Build(sign, payload, kid, typ)
        == Some([0xD2, 0x84] + ByteString(protected) + [0xA0] + ByteString(payload) + ByteString(signature))
  {
    hide EncodeValue, Utf8.Encode, Head, EncHead;
    var protected := [0xA3, 0x01, 0x27, 0x04] + TextString(kid) + [0x10] + TextString(typ);
    HeaderBytes(kid, typ);
    if |protected| < MAX64 && |payload| < MAX64 {
      var signature := sign([0x84, 0x6A] + SIGNATURE1 + ByteString(protected) + [0x40] + ByteString(payload));
      SigningBytes(protected, payload);
      if |signature| < MAX64 {
        SmallHeads();
        HeadBytes(6, 18);
        EnvelopeBytes(protected, payload, signature);
        assert [0xD2] + ([0x84] + ByteString(protected) + [0xA0] + ByteString(payload) + ByteString(signature))
          == [0xD2, 0x84] + ByteString(protected) + [0xA0] + ByteString(payload) + ByteString(signature);
      }
    }
  }

  lemma EnvelopeBytes(protected: seq<Byte>, payload: seq<Byte>, signature: seq<Byte>)
    requires |protected| < MAX64 && |payload| < MAX64 && |signature| < MAX64
    ensures EncodeValue(Envelope(protected, payload, signature))
      == Some([0x84] + ByteString(protected) + [0xA0] + ByteString(payload) + ByteString(signature))
  {
    hide EncodeValue, Utf8.Encode, Head;
    SmallHeads();
    BytesBytes(protected);
    BytesBytes(payload);
    BytesBytes(signature);
    MapBytes(map[], [], []);
    var a, b: seq<Byte>, e, f := ByteString(protected), [0xA0], ByteString(payload), ByteString(signature);
    assert [0xA0] + [] == b && EncodeValue(Map(map[])) == Some(b);
    ListBytes(Envelope(protected, payload, signature).items, [a, b, e, f]);
    FourJoined(a, b, e, f);
    assert [0x84] + (a + b + e + f)
      == [0x84] + ByteString(protected) + [0xA0] + ByteString(payload) + ByteString(signature);
  }

  // ----- what it is for

  ghost predicate Agree(sign: Signer, check: Checker) {
    forall m :: check(sign(m), m)
  }

  lemma ShapesAreProper(kid: string, typ: string, protected: seq<Byte>, payload: seq<Byte>, signature: seq<Byte>)
    ensures Proper(Map(Header(kid, typ))) && Proper(SigValue(protected, payload))
    ensures Proper(Envelope(protected, payload, signature))
  {
  }

  lemma TaggedDecodes(v: Object)
    requires EncodeValue(v).Some?
    ensures DecodeAll(Tagged(EncodeValue(v).value)) == Ok(Tag(TAG_COSE_SIGN1, v))
  {
    hide EncodeValue, EncHead, ReadHead;
    var body := EncodeValue(v).value;
    var data := Tagged(body);
    assert At(data, 0, EncHead(6, TAG_COSE_SIGN1).value + body);
    var p := HeadThenBody(6, TAG_COSE_SIGN1, body, data, 0);
    RoundTripAt(v, data, p);
    assert DecodeBody(data, p, 6, TAG_COSE_SIGN1) == Ok((Tag(TAG_COSE_SIGN1, v), |data|));
  }

  /** What is built opens into exactly what was put in. */
  lemma {:induction false} BuildOpens(sign: Signer, payload: seq<Byte>, kid: string, typ: string)
    ensures Build(sign, payload, kid, typ).Some? ==>
      var protected := EncodeValue(Map(Header(kid, typ))).value;
      && EncodeValue(SigValue(protected, payload)).Some?
      && Open(Build(sign, payload, kid, typ).value)
        == Ok(Fields(protected, payload, sign(EncodeValue(SigValue(protected, payload)).value)))
  {
    hide EncodeValue, DecodeAll, Tagged;
    if Build(sign, payload, kid, typ).Some? {
      var protected := EncodeValue(Map(Header(kid, typ))).value;
      var message := EncodeValue(SigValue(protected, payload)).value;
      ShapesAreProper(kid, typ, protected, payload, sign(message));
      TaggedDecodes(Envelope(protected, payload, sign(message)));
    }
  }

  lemma {:induction false} HeaderReadsBack(kid: string, typ: string)
    requires EncodeValue(Map(Header(kid, typ))).Some?
    ensures HeaderOf(EncodeValue(Map(Header(kid, typ))).value) == Ok(Header(kid, typ))
  {
    hide EncHead, EncodeEntries, DecodeAll;
    var v := Map(Header(kid, typ));
    ShapesAreProper(kid, typ, [], [], []);
    DecodeAllRoundTrip(v);
    assert EncodeValue(v).value != [] by {
      assert EncHead(5, |v.entries|).value <= EncodeValue(v).value;
      assert EncHead(5, |v.entries|).value != [];
    }
  }

  /** A message verifies with the key it was signed with and yields its header. */
  lemma {:induction false} BuildVerifies(sign: Signer, check: Checker, payload: seq<Byte>, kid: string, typ: string)
    requires Agree(sign, check)
    ensures var built := Build(sign, payload, kid, typ);
      built.Some? ==>
      Verify(check, built.value) == Ok(map[KInt(1) := Int(-8), KInt(4) := Text(kid), KInt(16) := Text(typ)])
  {
    hide EncodeValue, Open, HeaderOf;
    if Build(sign, payload, kid, typ).Some? {
      BuildOpens(sign, payload, kid, typ);
      HeaderReadsBack(kid, typ);
    }
  }

  /** The signing input determines the protected header and the payload. */
  lemma SigStructureInjective(protected: seq<Byte>, payload: seq<Byte>, protecteb: seq<Byte>, payloab: seq<Byte>)
    requires EncodeValue(SigValue(protected, payload)).Some?
    requires EncodeValue(SigValue(protected, payload)) == EncodeValue(SigValue(protecteb, payloab))
    ensures protected == protecteb && payload == payloab
  {
    hide EncodeValue;
    ShapesAreProper([], [], protected, payload, []);
    ShapesAreProper([], [], protecteb, payloab, []);
    PrefixFree(SigValue(protected, payload), SigValue(protecteb, payloab));
    assert SigValue(protected, payload).items[1] == SigValue(protecteb, payloab).items[1];
    assert SigValue(protected, payload).items[3] == SigValue(protecteb, payloab).items[3];
  }

  /** What verifies, byte for byte: four elements under tag 18, of which the first, third and
      fourth are byte strings, and a signature that holds over the first and the third. The
      header is the first one's map, and an empty one where it is empty. */
  lemma VerifyExactly(check: Checker, cose: seq<Byte>, header: map<Key, Value>)
    ensures Verify(check, cose) == Ok(header) <==> exists protected, unprotected, payload, signature :: (
      && DecodeAll(cose) == Ok(Tag(18, List([Bytes(protected), unprotected, Bytes(payload), Bytes(signature)])))
      && |protected| < MAX64 && |payload| < MAX64
      && check(signature, [0x84, 0x6A] + SIGNATURE1 + ByteString(protected) + [0x40] + ByteString(payload))
      && if protected == [] then header == map[] else DecodeAll(protected) == Ok(Map(header)))
  {
    hide DecodeAll, EncodeValue, ByteString;
    if Verify(check, cose) == Ok(header) {
      var f := Open(cose).value;
      var items := DecodeAll(cose).value.inner.items;
      assert items == [Bytes(f.protected), items[1], Bytes(f.payload), Bytes(f.signature)];
      SignableFits(f.protected, f.payload);
      SigningBytes(f.protected, f.payload);
    }
    forall protected, unprotected, payload, signature |
      && DecodeAll(cose) == Ok(Tag(18, List([Bytes(protected), unprotected, Bytes(payload), Bytes(signature)])))
      && |protected| < MAX64 && |payload| < MAX64
      && check(signature, [0x84, 0x6A] + SIGNATURE1 + ByteString(protected) + [0x40] + ByteString(payload))
      && if protected == [] then header == map[] else DecodeAll(protected) == Ok(Map(header))
      ensures Verify(check, cose) == Ok(header)
    {
      assert Open(cose) == Ok(Fields(protected, payload, signature));
      SigningBytes(protected, payload);
    }
  }

  lemma SignableFits(protected: seq<Byte>, payload: seq<Byte>)
    requires EncodeValue(SigValue(protected, payload)).Some?
    ensures |protected| < MAX64 && |payload| < MAX64
  {
    hide EncodeValue;
    var v := SigValue(protected, payload);
    EncodesIffEncodable(v);
    assert v.items[1] in v.items && v.items[3] in v.items;
    assert Encodable(Bytes(protected)) && Encodable(Bytes(payload));
  }

  /** Something that was signed. */
  datatype Event = Event(payload: seq<Byte>, kid: string, typ: string)

  /** What is signed for an event. */
  ghost function SigningInput(e: Event): Option<seq<Byte>> {
    match EncodeValue(Map(Header(e.kid, e.typ)))
    case None => None
    case Some(protected) => EncodeValue(SigValue(protected, e.payload))
  }

  /** Binding: where only the signing inputs of signed events pass the check, any bytes that
      verify carry the payload of one of these events and yield its header. */
  lemma VerifiedMeansSigned(check: Checker, cose: seq<Byte>, signed: iset<Event>)
    requires forall s, m :: check(s, m) ==> exists e :: e in signed && SigningInput(e) == Some(m)
    requires Verify(check, cose).Ok?
    ensures Open(cose).Ok?
    ensures exists e :: (
      && e in signed && e.payload == Open(cose).value.payload
      && Verify(check, cose) == Ok(map[KInt(1) := Int(-8), KInt(4) := Text(e.kid), KInt(16) := Text(e.typ)]))
  {
    hide EncodeValue, Open, HeaderOf;
    var f := Open(cose).value;
    var m := EncodeValue(SigValue(f.protected, f.payload)).value;
    assert check(f.signature, m);
    var e :| e in signed && SigningInput(e) == Some(m);
    SigStructureInjective(EncodeValue(Map(Header(e.kid, e.typ))).value, e.payload, f.protected, f.payload);
    HeaderReadsBack(e.kid, e.typ);
  }
}
