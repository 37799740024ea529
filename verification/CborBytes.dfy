/** The encoder and the decoder against the byte formats of RFC 8949, written out
    (server/cose.py). */
module CborBytes {
  import opened Options
  import opened Sorting
  import opened Utf8
  import opened CborHead
  import opened Cbor

  // ----- heads (section 3 of RFC 8949)

  /** A head in the shortest form: the argument in the first byte, or in 1, 2, 4 or 8 bytes
      behind it, most significant first. */
  function Head(major: nat, n: nat): seq<Byte>
    requires major < 8 && n < 0x1_0000_0000_0000_0000
  {
    var b := major * 32;
    if n <= 23 then [b + n]
    else if n <= 0xFF then [b + 24, n]
    else if n <= 0xFFFF then [b + 25, n / 0x100, n % 0x100]
    else if n <= 0xFFFF_FFFF then [b + 26, n / 0x100_0000, n / 0x1_0000 % 0x100, n / 0x100 % 0x100, n % 0x100]
    else [
      b + 27, n / 0x100_0000_0000_0000, n / 0x1_0000_0000_0000 % 0x100, n / 0x100_0000_0000 % 0x100,
      n / 0x1_0000_0000 % 0x100, n / 0x100_0000 % 0x100, n / 0x1_0000 % 0x100, n / 0x100 % 0x100, n % 0x100]
  }

  lemma BigEndian2(n: nat)
    requires n <= 0xFFFF
    ensures BigEndian(n, 2) == [n / 0x100, n % 0x100]
  {
    assert BigEndian(n / 0x100, 1) == BigEndian(n / 0x100 / 0x100, 0) + [n / 0x100 % 0x100];
  }

  lemma BigEndian4(n: nat)
    requires n <= 0xFFFF_FFFF
    ensures BigEndian(n, 4) == [n / 0x100_0000, n / 0x1_0000 % 0x100, n / 0x100 % 0x100, n % 0x100]
  {
    var m := n / 0x100 / 0x100;
    BigEndian2(m);
    assert BigEndian(n / 0x100, 3) == BigEndian(m, 2) + [n / 0x100 % 0x100];
    assert m == n / 0x1_0000 && m / 0x100 == n / 0x100_0000;
  }

  lemma BigEndian8(n: nat)
    requires n < 0x1_0000_0000_0000_0000
    ensures BigEndian(n, 8) == [
      n / 0x100_0000_0000_0000, n / 0x1_0000_0000_0000 % 0x100, n / 0x100_0000_0000 % 0x100,
      n / 0x1_0000_0000 % 0x100, n / 0x100_0000 % 0x100, n / 0x1_0000 % 0x100, n / 0x100 % 0x100, n % 0x100]
  {
    var n1 := n / 0x100;
    var n2 := n1 / 0x100;
    var n3 := n2 / 0x100;
    var n4 := n3 / 0x100;
    assert n2 == n / 0x1_0000 && n3 == n / 0x100_0000 && n4 == n / 0x1_0000_0000;
    BigEndian4(n4);
    assert n4 / 0x100_0000 == n / 0x100_0000_0000_0000;
    assert n4 / 0x1_0000 == n / 0x1_0000_0000_0000 && n4 / 0x100 == n / 0x100_0000_0000;
    assert BigEndian(n3, 5) == BigEndian(n4, 4) + [n3 % 0x100];
    assert BigEndian(n2, 6) == BigEndian(n3, 5) + [n2 % 0x100];
    assert BigEndian(n1, 7) == BigEndian(n2, 6) + [n1 % 0x100];
  }

  /** The encoder writes these heads. */
  lemma HeadBytes(major: nat, n: nat)
    requires major < 8 && n < 0x1_0000_0000_0000_0000
    ensures EncHead(major, n) == Some(Head(major, n))
  {
    hide BigEndian;
    var e, h := EncHead(major, n).value, Head(major, n);
    if 0xFF < n <= 0xFFFF {
      BigEndian2(n);
      assert e == h;
    } else if 0xFFFF < n <= 0xFFFF_FFFF {
      BigEndian4(n);
      assert e == h;
    } else if 0xFFFF_FFFF < n {
      BigEndian8(n);
      assert e == h;
    }
  }

  /** The decoder reads an argument of any of the four widths, the shortest or not. */
  lemma WideHead(major: nat, info: nat, n: nat, rest: seq<Byte>)
    requires major < 8 && 24 <= info <= 27
    requires var w := if info == 24 then 1 else if info == 25 then 2 else if info == 26 then 4 else 8; n < Pow256(w)
    ensures var w := if info == 24 then 1 else if info == 25 then 2 else if info == 26 then 4 else 8;
      ReadHead([major * 32 + info] + BigEndian(n, w) + rest, 0) == Ok((major, n, 1 + w))
  {
    var w := ArgumentWidth(info);
    var data := [major * 32 + info] + BigEndian(n, w) + rest;
    BigEndianRoundTrip(n, w);
    assert data[1..1 + w] == BigEndian(n, w);
  }

  // ----- values

  function Joined(parts: seq<seq<Byte>>): seq<Byte> {
    if parts == [] then [] else parts[0] + Joined(parts[1..])
  }

  lemma {:induction false} ItemsAreJoined(items: seq<Value>, parts: seq<seq<Byte>>)
    requires |parts| == |items| && forall i :: 0 <= i < |items| ==> EncodeValue(items[i]) == Some(parts[i])
    ensures EncodeItems(items) == Some(Joined(parts))
  {
    hide EncodeValue;
    if items == [] {
    } else {
      ItemsAreJoined(items[1..], parts[1..]);
    }
  }

  /** The simple values of section 3.3 of RFC 8949. */
  lemma SimpleBytes()
    ensures EncodeValue(Null) == Some([0xF6])
    ensures EncodeValue(Bool(false)) == Some([0xF4]) && EncodeValue(Bool(true)) == Some([0xF5])
  {
  }

  /** Integers: a non-negative one is its own argument, a negative one is -1 minus it. */
  lemma IntBytes(n: nat)
    requires n < MAX64
    ensures EncodeValue(Int(n)) == Some(Head(0, n)) && EncodeValue(Int(-1 - n)) == Some(Head(1, n))
  {
    hide EncHead, Head;
    HeadBytes(0, n);
    HeadBytes(1, n);
  }

  /** Strings: their length in bytes, and the bytes. */
  lemma BytesBytes(b: seq<Byte>)
    requires |b| < MAX64
    ensures EncodeValue(Bytes(b)) == Some(Head(2, |b|) + b)
  {
    hide EncHead, Head;
    HeadBytes(2, |b|);
  }

  lemma TextBytes(s: string)
    requires |Utf8.Encode(s)| < MAX64
    ensures EncodeValue(Text(s)) == Some(Head(3, |Utf8.Encode(s)|) + Utf8.Encode(s))
  {
    hide EncHead, Head, Utf8.Encode;
    HeadBytes(3, |Utf8.Encode(s)|);
  }

  /** Lists: a head, and the items in order. */
  lemma ListBytes(items: seq<Value>, parts: seq<seq<Byte>>)
    requires |items| < MAX64 && |parts| == |items|
    requires forall i :: 0 <= i < |items| ==> EncodeValue(items[i]) == Some(parts[i])
    ensures EncodeValue(List(items)) == Some(Head(4, |items|) + Joined(parts))
  {
    hide EncHead;
    HeadBytes(4, |items|);
    ItemsAreJoined(items, parts);
  }

  /** A key and its value, encoded. */
  ghost predicate EntryBytes(v: Value, k: Key, b: seq<Byte>)
    requires v.Map?
  {
    && k in v.entries && Codable(k) && EncodeValue(v.entries[k]).Some?
    && b == Code(k) + EncodeValue(v.entries[k]).value
  }

  /** Maps: a head, and each key with its value, in ascending order of the keys' bytes. */
  lemma MapBytes(m: map<Key, Value>, keys: seq<Key>, parts: seq<seq<Byte>>)
    requires |m| < MAX64 && |parts| == |keys| && (forall k :: k in m ==> k in keys) && Sorted(ByCode, keys)
    requires forall i :: 0 <= i < |keys| ==> EntryBytes(Map(m), keys[i], parts[i])
    ensures EncodeValue(Map(m)) == Some(Head(5, |m|) + Joined(parts))
  {
    hide EncHead, ByCode, Code;
    HeadBytes(5, |m|);
    forall k | k in keys ensures k in m && Codable(k) {
      var i :| 0 <= i < |keys| && keys[i] == k;
      assert EntryBytes(Map(m), k, parts[i]);
    }
    ByCodeIsStrict();
    SortedUnique(ByCode, keys, Canonical(m.Keys));
    EntriesAreJoined(Map(m), keys, parts);
  }

  lemma {:induction false} EntriesAreJoined(v: Value, keys: seq<Key>, parts: seq<seq<Byte>>)
    requires v.Map? && |parts| == |keys|
    requires forall i :: 0 <= i < |keys| ==> EntryBytes(v, keys[i], parts[i])
    ensures EncodeEntries(v, keys) == Some(Joined(parts))
  {
    hide EncodeValue;
    if keys == [] {
    } else {
      assert EntryBytes(v, keys[0], parts[0]);
      EntriesAreJoined(v, keys[1..], parts[1..]);
    }
  }

  /** A key is encoded as the value it is. */
  lemma KeyBytes(k: Key)
    requires Codable(k)
    ensures EncodeValue(KeyValue(k)) == Some(Code(k))
  {
  }

  // ----- what the decoder makes of other input

  /** The simple values: 20 and 21 are the booleans, 22 and 23 nothing; no others are read. */
  lemma SimpleValues(n: nat)
    requires n < 24
    ensures DecodeAt([0xE0 + n], 0) ==
      if n == 20 then Ok((Bool(false), 1)) else if n == 21 then Ok((Bool(true), 1))
      else if n == 22 || n == 23 then Ok((Null, 1)) else Err(BadMajor)
  {
  }

  /** A tagged value: its head and the value. */
  lemma TagDecodes(tag: nat, v: Object)
    requires tag < MAX64 && EncodeValue(v).Some?
    ensures DecodeAll(Head(6, tag) + EncodeValue(v).value) == Ok(Tag(tag, v))
  {
    hide EncodeValue, EncHead, ReadHead, Head;
    var body := EncodeValue(v).value;
    HeadBytes(6, tag);
    var data := Head(6, tag) + body;
    assert At(data, 0, EncHead(6, tag).value + body);
    var p := HeadThenBody(6, tag, body, data, 0);
    RoundTripAt(v, data, p);
    assert DecodeBody(data, p, 6, tag) == Ok((Tag(tag, v), |data|));
  }

  /** Reading stops where the value ends: more input changes nothing about what was read. */
  lemma {:induction false} DecodeExtends(data: seq<Byte>, pos: nat, more: seq<Byte>)
    requires DecodeAt(data, pos).Ok?
    ensures DecodeAt(data + more, pos) == DecodeAt(data, pos)
    decreases |data| - pos, 0
  {
    hide DecodeText, FromBigEndian;
    var (major, arg, p) := ReadHead(data, pos).value;
    HeadExtends(data, pos, more);
    if major == 2 || major == 3 {
      assert (data + more)[p..p + arg] == data[p..p + arg];
    } else if major == 4 {
      ItemsExtend(data, p, arg, more);
    } else if major == 5 {
      EntriesExtend(data, p, arg, map[], more);
    } else if major == 6 {
      DecodeExtends(data, p, more);
    }
  }

  lemma HeadExtends(data: seq<Byte>, pos: nat, more: seq<Byte>)
    requires ReadHead(data, pos).Ok?
    ensures ReadHead(data + more, pos) == ReadHead(data, pos)
  {
    var end := ReadHead(data, pos).value.2;
    assert (data + more)[pos + 1..end] == data[pos + 1..end];
  }

  lemma {:induction false} ItemsExtend(data: seq<Byte>, pos: nat, n: nat, more: seq<Byte>)
    requires pos <= |data| && DecodeItems(data, pos, n).Ok?
    ensures DecodeItems(data + more, pos, n) == DecodeItems(data, pos, n)
    decreases |data| - pos, 1
  {
    hide DecodeAt;
    if n == 0 {
    } else {
      DecodeExtends(data, pos, more);
      ItemsExtend(data, DecodeAt(data, pos).value.1, n - 1, more);
    }
  }

  lemma {:induction false} EntriesExtend(data: seq<Byte>, pos: nat, n: nat, acc: map<Key, Value>, more: seq<Byte>)
    requires pos <= |data| && DecodeEntries(data, pos, n, acc).Ok?
    ensures DecodeEntries(data + more, pos, n, acc) == DecodeEntries(data, pos, n, acc)
    decreases |data| - pos, 1
  {
    hide DecodeAt, ToKey, PutEntry;
    if n == 0 {
    } else {
      var (kv, p) := DecodeAt(data, pos).value;
      var (v, q) := DecodeAt(data, p).value;
      DecodeExtends(data, pos, more);
      DecodeExtends(data, p, more);
      EntriesExtend(data, q, n - 1, PutEntry(acc, ToKey(kv).value, v), more);
    }
  }

  /** Nothing shorter and nothing longer than an encoding is taken for it: a message that
      was cut off is refused, and so is one with something behind it. */
  lemma {:induction false} CutOffIsRefused(v: Object, i: nat, more: seq<Byte>)
    requires EncodeValue(v).Some? && i < |EncodeValue(v).value|
    ensures DecodeAt(EncodeValue(v).value[..i], 0).Err? && DecodeAll(EncodeValue(v).value[..i]).Err?
    ensures more != [] ==> DecodeAll(EncodeValue(v).value + more) == Err(Trailing)
  {
    hide EncodeValue, DecodeAt;
    var e := EncodeValue(v).value;
    RoundTripAt(v, e, 0);
    DecodeExtends(e, 0, more);
    assert e[..i] + e[i..] == e;
    if DecodeAt(e[..i], 0).Ok? {
      DecodeExtends(e[..i], 0, e[i..]);
      assert false;
    }
  }

  // ----- dictionaries

  /** Keys are listed by the first byte in which their encodings differ, not by length. */
  lemma KeysAscend(k: Key, l: Key)
    ensures ByCode(k, l) <==> exists n: nat :: DifferAt(ByteLess, Code(k), Code(l), n)
  {
    LexicalMeans(ByteLess, Code(k), Code(l));
  }

  /** Of two entries with one key the later counts. */
  lemma LaterEntryWins(k: Key, v: Object, w: Object)
    requires Codable(k) && EncodeValue(v).Some? && EncodeValue(w).Some?
    ensures DecodeAll([0xA2] + Code(k) + EncodeValue(v).value + Code(k) + EncodeValue(w).value)
      == Ok(Map(map[k := w]))
  {
    hide EncodeValue, Code, Codable, DecodeAt, Alias, ReadHead, At;
    var a, b, c := Code(k), EncodeValue(v).value, EncodeValue(w).value;
    var data := [0xA2] + a + b + a + c;
    var p := 1 + |a|;
    var q := p + |b|;
    var t := q + |a|;
    InARow([0xA2], a, b, a, c);
    KeyRoundTrip(k, data, 1);
    RoundTripAt(v, data, p);
    KeyRoundTrip(k, data, q);
    RoundTripAt(w, data, t);
    assert DecodeEntries(data, t + |c|, 0, map[k := w]) == Ok((map[k := w], |data|));
    assert PutEntry(map[], k, v) == map[k := v] && PutEntry(map[k := v], k, w) == map[k := w];
    assert DecodeEntries(data, q, 1, map[k := v]) == Ok((map[k := w], |data|));
    assert DecodeEntries(data, 1, 2, map[]) == Ok((map[k := w], |data|));
    TwoEntries(data, map[k := w]);
  }

  lemma TwoEntries(data: seq<Byte>, m: map<Key, Value>)
    requires data != [] && data[0] == 0xA2 && DecodeEntries(data, 1, 2, map[]) == Ok((m, |data|))
    ensures DecodeAll(data) == Ok(Map(m))
  {
    assert ReadHead(data, 0) == Ok((5, 2, 1));
    assert DecodeBody(data, 1, 5, 2) == Ok((Map(m), |data|));
  }

  lemma InARow(a: seq<Byte>, b: seq<Byte>, c: seq<Byte>, d: seq<Byte>, e: seq<Byte>)
    ensures var data := a + b + c + d + e;
      && At(data, |a|, b) && At(data, |a| + |b|, c) && At(data, |a| + |b| + |c|, d)
      && At(data, |a| + |b| + |c| + |d|, e)
  {
  }

  /** True and 1, and False and 0, are one key, and the one that came first stays. */
  lemma OneKey(d: map<Key, Value>, b: bool, v: Value)
    ensures var n := KInt(if b then 1 else 0);
      && (n in d && KBool(b) !in d ==> PutEntry(d, KBool(b), v) == d[n := v])
      && (KBool(b) in d && n !in d ==> PutEntry(d, n, v) == d[KBool(b) := v])
    ensures forall k :: k in d ==> PutEntry(d, k, v) == d[k := v]
    ensures forall i :: i != 0 && i != 1 ==> PutEntry(d, KInt(i), v) == d[KInt(i) := v]
    ensures forall s :: PutEntry(d, KText(s), v) == d[KText(s) := v]
    ensures forall s :: PutEntry(d, KBytes(s), v) == d[KBytes(s) := v]
    ensures PutEntry(d, KNull, v) == d[KNull := v]
  {
  }

  /** Lists and dictionaries are no keys. */
  lemma UnhashableKeys(v: Value)
    requires v.List? || v.Map?
    ensures ToKey(v) == Err(UnhashableKey) && forall t :: ToKey(Tag(t, v)) == Err(UnhashableKey)
  {
  }
}
