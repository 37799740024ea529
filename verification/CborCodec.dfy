/** The codec's loops (server/cose.py), proved against the functions of Cbor.dfy. */
module CborCodec {
  import opened Options
  import opened Sorting
  import opened Utf8
  import opened CborHead
  import opened Cbor

  type Pair = (seq<Byte>, seq<Byte>)

  /** `key=lambda pair: pair[0]`. */
  predicate ByKeyBytes(p: Pair, q: Pair) {
    Less(p.0, q.0)
  }

  /** The encoded entries of a map, listed in the order of `keys`. */
  ghost function PairUp(v: Value, keys: seq<Key>): seq<Pair>
    requires v.Map? && forall k :: k in keys ==> k in v.entries && EncodeValue(v.entries[k]).Some?
  {
    if keys == [] then []
    else [(Code(keys[0]), EncodeValue(v.entries[keys[0]]).value)] + PairUp(v, keys[1..])
  }

  lemma {:induction false} InsertPaired(v: Value, k: Key, keys: seq<Key>)
    requires v.Map? && forall l :: l in [k] + keys ==> l in v.entries && EncodeValue(v.entries[l]).Some?
    ensures forall l :: l in InsertInOrder(ByCode, k, keys) ==> l in v.entries && EncodeValue(v.entries[l]).Some?
    ensures InsertInOrder(ByKeyBytes, (Code(k), EncodeValue(v.entries[k]).value), PairUp(v, keys))
      == PairUp(v, InsertInOrder(ByCode, k, keys))
  {
    hide EncodeValue, Code, Less;
    InsertElements(ByCode, k, keys);
    if keys == [] {
    } else {
      assert keys[0] in [k] + keys;
      assert forall l :: l in [k] + keys[1..] ==> l in [k] + keys;
      InsertPaired(v, k, keys[1..]);
      assert ([k] + keys)[1..] == keys;
    }
  }

  /** Sorting encoded entries is encoding sorted entries. */
  lemma {:induction false} SortPaired(v: Value, keys: seq<Key>)
    requires v.Map? && forall k :: k in keys ==> k in v.entries && EncodeValue(v.entries[k]).Some?
    ensures forall k :: k in Sort(ByCode, keys) ==> k in v.entries && EncodeValue(v.entries[k]).Some?
    ensures Sort(ByKeyBytes, PairUp(v, keys)) == PairUp(v, Sort(ByCode, keys))
  {
    hide EncodeValue, Code, Less;
    SortElements(ByCode, keys);
    if keys == [] {
    } else {
      SortElements(ByCode, keys[1..]);
      assert forall k :: k in keys[1..] ==> k in keys;
      assert keys[0] in keys;
      SortPaired(v, keys[1..]);
      InsertPaired(v, keys[0], Sort(ByCode, keys[1..]));
    }
  }

  function Concatenate(pairs: seq<Pair>): seq<Byte> {
    if pairs == [] then [] else pairs[0].0 + pairs[0].1 + Concatenate(pairs[1..])
  }

  lemma {:induction false} ConcatenatePaired(v: Value, keys: seq<Key>)
    requires v.Map?
    requires forall k :: k in keys ==> k in v.entries && Codable(k) && EncodeValue(v.entries[k]).Some?
    ensures EncodeEntries(v, keys) == Some(Concatenate(PairUp(v, keys)))
  {
    hide EncodeValue;
    if keys == [] {
    } else {
      assert forall k :: k in keys[1..] ==> k in keys;
      assert keys[0] in keys;
      ConcatenatePaired(v, keys[1..]);
    }
  }

  /** Whatever order a dictionary lists its entries in, encoding each and sorting the
      results by key bytes gives the one encoding of the map. */
  lemma SortedEntriesEncode(v: Value, keys: seq<Key>)
    requires v.Map? && Lists(keys, v.entries.Keys)
    requires forall k :: k in keys ==> Codable(k) && EncodeValue(v.entries[k]).Some?
    ensures EncodeEntries(v, Canonical(v.entries.Keys)) == Some(Concatenate(Sort(ByKeyBytes, PairUp(v, keys))))
  {
    hide EncodeValue, EncodeEntries, PairUp, Code, Less;
    SortPaired(v, keys);
    InsertionOrderIrrelevant(keys, v.entries.Keys);
    ConcatenatePaired(v, Sort(ByCode, keys));
  }

  lemma {:induction false} ItemsPrefix(items: seq<Value>, i: nat)
    requires i <= |items| && EncodeItems(items[..i]).Some?
    ensures i < |items| && EncodeValue(items[i]).None? ==> EncodeItems(items).None?
    ensures i < |items| && EncodeValue(items[i]).Some? ==>
      EncodeItems(items[..i + 1]) == Some(EncodeItems(items[..i]).value + EncodeValue(items[i]).value)
    ensures i == |items| ==> EncodeItems(items[..i]) == EncodeItems(items)
  {
    hide EncodeValue;
    if i == |items| {
      assert items[..i] == items;
    } else if i == 0 {
      assert items[..0] == [] && items[..1] == [items[0]];
      assert items[..1][1..] == [];
      assert EncodeItems(items[..1]) == Join(EncodeValue(items[0]), EncodeItems([]));
      if EncodeValue(items[0]).Some? {
        assert EncodeValue(items[0]).value + [] == [] + EncodeValue(items[0]).value;
      }
    } else {
      assert items[..i][1..] == items[1..][..i - 1];
      assert items[..i + 1][1..] == items[1..][..i];
      ItemsPrefix(items[1..], i - 1);
      if EncodeValue(items[i]).Some? {
        var a, b, c := EncodeValue(items[0]).value, EncodeItems(items[1..][..i - 1]).value, EncodeValue(items[i]).value;
        assert a + (b + c) == (a + b) + c;
      }
    }
  }

  /** `cbor_encode`. */
  method CborEncode(v: Value) returns (r: Option<seq<Byte>>)
    ensures r == EncodeValue(v)
    decreases v, 1
  {
    match v
    case Null => return Some(NULL_CODE);
    case Bool(b) => return Some([if b then 0xF5 else 0xF4]);
    case Int(i) => return if i >= 0 then EncHead(0, i) else EncHead(1, -1 - i);
    case Bytes(b) => return Join(EncHead(2, |b|), Some(b));
    case Text(s) =>
      var encoded := Utf8.Encode(s);
      return Join(EncHead(3, |encoded|), Some(encoded));
    case List(_) => r := EncodeList(v);
    case Map(_) => r := EncodeMap(v);
    case Tag(_, _) => return None;
  }

  method EncodeList(v: Value) returns (r: Option<seq<Byte>>)
    requires v.List?
    ensures r == EncodeValue(v)
    decreases v, 0
  {
    var items := v.items;
    var head := EncHead(4, |items|);
    if head.None? {
      return None;
    }
    var out: seq<Byte> := [];
    var i := 0;
    while i < |items|
      invariant 0 <= i <= |items| && EncodeItems(items[..i]) == Some(out)
    {
      ItemsPrefix(items, i);
      var e := CborEncode(items[i]);
      if e.None? {
        return None;
      }
      out := out + e.value;
      i := i + 1;
    }
    ItemsPrefix(items, i);
    return Some(head.value + out);
  }

  /** The entries are taken in any order, as a dictionary may list them. */
  method EncodeMap(v: Value) returns (r: Option<seq<Byte>>)
    requires v.Map?
    ensures r == EncodeValue(v)
    decreases v, 0
  {
    hide Less, EncHead;
    var m := v.entries;
    var items: seq<Pair>, todo := [], m.Keys;
    ghost var keys: seq<Key> := [];
    while todo != {}
      invariant todo <= m.Keys && Lists(keys, m.Keys - todo)
      invariant forall k :: k in keys ==> Codable(k) && EncodeValue(m[k]).Some?
      invariant items == PairUp(v, keys)
      decreases todo
    {
      var k :| k in todo;
      var kBytes, vBytes := EncodeKey(k), None;
      if kBytes.Some? {
        vBytes := CborEncode(m[k]);
      }
      if vBytes.None? {
        UnencodableEntry(v, k);
        return None;
      }
      PairUpAppend(v, keys, k);
      items := items + [(kBytes.value, vBytes.value)];
      keys, todo := keys + [k], todo - {k};
    }
    assert m.Keys - todo == m.Keys;
    SortedEntriesEncode(v, keys);
    items := Sort(ByKeyBytes, items);
    var body := Flatten(items);
    return Join(EncHead(5, |m|), Some(body));
  }

  lemma UnencodableEntry(v: Value, k: Key)
    requires v.Map? && k in v.entries && (!Codable(k) || EncodeValue(v.entries[k]).None?)
    ensures EncodeValue(v).None?
  {
    hide EncHead;
    EntriesEncode(v, Canonical(v.entries.Keys));
  }

  lemma {:induction false} PairUpAppend(v: Value, keys: seq<Key>, k: Key)
    requires v.Map? && k in v.entries && EncodeValue(v.entries[k]).Some? && k !in keys
    requires forall l :: l in keys ==> l in v.entries && EncodeValue(v.entries[l]).Some?
    ensures forall l :: l in keys + [k] ==> l in v.entries && EncodeValue(v.entries[l]).Some?
    ensures PairUp(v, keys + [k]) == PairUp(v, keys) + [(Code(k), EncodeValue(v.entries[k]).value)]
  {
    hide EncodeValue, Code;
    if keys == [] {
    } else {
      assert (keys + [k])[1..] == keys[1..] + [k];
      PairUpAppend(v, keys[1..], k);
    }
  }

  method Flatten(pairs: seq<Pair>) returns (out: seq<Byte>)
    ensures out == Concatenate(pairs)
  {
    out := [];
    var i := 0;
    while i < |pairs|
      invariant 0 <= i <= |pairs| && out + Concatenate(pairs[i..]) == Concatenate(pairs)
    {
      out := out + pairs[i].0;
      out := out + pairs[i].1;
      i := i + 1;
    }
  }

  /** `_decode_at`. */
  method CborDecodeAt(data: seq<Byte>, pos: nat) returns (r: Parsed<(Value, nat)>)
    ensures r == DecodeAt(data, pos)
    decreases |data| - pos, 2
  {
    hide ReadHead;
    var head := ReadHead(data, pos);
    if head.Err? {
      return Err(head.error);
    }
    var (major, arg, p) := head.value;
    match major
    case 0 => return Ok((Int(arg), p));
    case 1 => return Ok((Int(-1 - arg), p));
    case 2 =>
      var end := p + arg;
      return if end > |data| then Err(ShortString) else Ok((Bytes(data[p..end]), end));
    case 3 =>
      var end := p + arg;
      return if end > |data| then Err(ShortString) else DecodeText(data[p..end], end);
    case 4 => r := DecodeList(data, p, arg);
    case 5 => r := DecodeMap(data, p, arg);
    case 6 =>
      var inner := CborDecodeAt(data, p);
      return if inner.Err? then inner else Ok((Tag(arg, inner.value.0), inner.value.1));
    case _ =>
      return if arg == 20 then Ok((Bool(false), p))
        else if arg == 21 then Ok((Bool(true), p))
        else if arg == 22 || arg == 23 then Ok((Null, p))
        else Err(BadMajor);
  }

  method DecodeList(data: seq<Byte>, p: nat, n: nat) returns (r: Parsed<(Value, nat)>)
    requires p <= |data|
    ensures r == DecodeBody(data, p, 4, n)
    decreases |data| - p, 3
  {
    var out: seq<Value>, q, i := [], p, 0;
    PrependNothing(DecodeItems(data, p, n));
    while i < n
      invariant 0 <= i <= n && p <= q <= |data|
      invariant DecodeItems(data, p, n) == Prepend(out, DecodeItems(data, q, n - i))
    {
      var item := CborDecodeAt(data, q);
      if item.Err? {
        return Err(item.error);
      }
      ghost var rest := DecodeItems(data, item.value.1, n - i - 1);
      assert rest.Ok? ==> out + ([item.value.0] + rest.value.0) == (out + [item.value.0]) + rest.value.0;
      out, q := out + [item.value.0], item.value.1;
      i := i + 1;
    }
    assert out + [] == out;
    return Ok((List(out), q));
  }

  lemma PrependNothing(r: Parsed<(seq<Value>, nat)>)
    ensures Prepend([], r) == r
  {
    if r.Ok? {
      assert [] + r.value.0 == r.value.0;
    }
  }

  ghost function Prepend(out: seq<Value>, r: Parsed<(seq<Value>, nat)>): Parsed<(seq<Value>, nat)> {
    match r
    case Err(e) => Err(e)
    case Ok((items, end)) => Ok((out + items, end))
  }

  method DecodeMap(data: seq<Byte>, p: nat, n: nat) returns (r: Parsed<(Value, nat)>)
    requires p <= |data|
    ensures r == DecodeBody(data, p, 5, n)
    decreases |data| - p, 3
  {
    var out: map<Key, Value>, q, i := map[], p, 0;
    while i < n
      invariant 0 <= i <= n && p <= q <= |data|
      invariant DecodeEntries(data, p, n, map[]) == DecodeEntries(data, q, n - i, out)
    {
      var kv := CborDecodeAt(data, q);
      if kv.Err? {
        return Err(kv.error);
      }
      var v := CborDecodeAt(data, kv.value.1);
      if v.Err? {
        return Err(v.error);
      }
      var k := ToKey(kv.value.0);
      if k.Err? {
        return Err(k.error);
      }
      out, q := PutEntry(out, k.value, v.value.0), v.value.1;
      i := i + 1;
    }
    return Ok((Map(out), q));
  }

  /** `cbor_decode`. */
  method CborDecode(data: seq<Byte>) returns (r: Parsed<Value>)
    ensures r == DecodeAll(data)
    ensures forall v: Object :: EncodeValue(v) == Some(data) ==> r == Ok(v)
  {
    var d := CborDecodeAt(data, 0);
    forall v: Object | EncodeValue(v) == Some(data) ensures DecodeAll(data) == Ok(v) {
      DecodeAllRoundTrip(v);
    }
    if d.Err? {
      return Err(d.error);
    }
    return if d.value.1 != |data| then Err(Trailing) else Ok(d.value.0);
  }
}
