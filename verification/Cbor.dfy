/** CBOR encoding and decoding of values (server/cose.py). */
module Cbor {
  import opened Options
  import opened Sorting
  import opened Utf8
  import opened CborHead

  /** Dictionary keys: the values Python can hash. Lists and dictionaries are not among
      them; tags are, if what they tag is. */
  datatype Key =
    | KNull | KBool(b: bool) | KInt(i: int) | KBytes(bytes: seq<Byte>) | KText(s: string) | KTag(tag: nat, key: Key)

  /** The values the codec carries. `Tag` arises only from decoding. */
  datatype Value =
    | Null | Bool(b: bool) | Int(i: int) | Bytes(bytes: seq<Byte>) | Text(s: string)
    | List(items: seq<Value>) | Map(entries: map<Key, Value>) | Tag(tag: nat, inner: Value)

  // ----- dictionaries

  /** The other key that Python takes for the same: True is 1 and False is 0. */
  function Alias(k: Key): Key {
    match k
    case KBool(b) => KInt(if b then 1 else 0)
    case KInt(i) => if i == 0 || i == 1 then KBool(i == 1) else k
    case KTag(t, l) => KTag(t, Alias(l))
    case _ => k
  }

  predicate Unambiguous(keys: set<Key>) {
    forall k :: k in keys && Alias(k) in keys ==> Alias(k) == k
  }

  /** No dictionary in the value holds two keys that Python takes for one. */
  ghost predicate Proper(v: Value) {
    match v
    case List(items) => forall x :: x in items ==> Proper(x)
    case Map(m) => Unambiguous(m.Keys) && forall k :: k in m ==> Proper(m[k])
    case Tag(_, x) => Proper(x)
    case _ => true
  }

  type Object = v: Value | Proper(v) witness Null

  lemma {:induction false} AliasTwice(k: Key)
    ensures Alias(Alias(k)) == k
  {
    match k
    case KTag(_, l) => AliasTwice(l);
    case _ =>
  }

  /** `d[k] = v`: a key that is taken for `k` stays in its place. */
  function PutEntry(d: map<Key, Value>, k: Key, v: Value): map<Key, Value> {
    var slot := if k !in d && Alias(k) in d then Alias(k) else k;
    d[slot := v]
  }

  function Join(a: Option<seq<Byte>>, b: Option<seq<Byte>>): Option<seq<Byte>> {
    if a.Some? && b.Some? then Some(a.value + b.value) else None
  }

  // ----- keys and their order

  function EncodeInt(i: int): Option<seq<Byte>> {
    if i >= 0 then EncHead(0, i) else EncHead(1, -1 - i)
  }

  function EncodeText(s: string): Option<seq<Byte>> {
    Join(EncHead(3, |Utf8.Encode(s)|), Some(Utf8.Encode(s)))
  }

  function EncodeBytes(b: seq<Byte>): Option<seq<Byte>> {
    Join(EncHead(2, |b|), Some(b))
  }

  function EncodeBool(b: bool): Option<seq<Byte>> {
    Some([if b then 0xF5 else 0xF4])
  }

  const NULL_CODE: seq<Byte> := [0xF6]

  function EncodeKey(k: Key): Option<seq<Byte>> {
    match k
    case KNull => Some(NULL_CODE)
    case KBool(b) => EncodeBool(b)
    case KInt(i) => EncodeInt(i)
    case KBytes(b) => EncodeBytes(b)
    case KText(s) => EncodeText(s)
    case KTag(_, _) => None
  }

  predicate Codable(k: Key) {
    EncodeKey(k).Some?
  }

  function Code(k: Key): seq<Byte> {
    match EncodeKey(k)
    case None => []
    case Some(b) => b
  }

  function KeyValue(k: Key): Value {
    match k
    case KNull => Null
    case KBool(b) => Bool(b)
    case KInt(i) => Int(i)
    case KBytes(b) => Bytes(b)
    case KText(s) => Text(s)
    case KTag(t, l) => Tag(t, KeyValue(l))
  }

  predicate ByteLess(a: Byte, b: Byte) {
    a < b
  }

  /** Python's `<` on bytes. */
  predicate Less(a: seq<Byte>, b: seq<Byte>) {
    Lexical(ByteLess, a, b)
  }

  /** The order in which a map's encoding lists its keys: by their encodings. */
  predicate ByCode(k: Key, l: Key) {
    Less(Code(k), Code(l))
  }

  lemma {:induction false} ByCodeIsStrict()
    ensures Strict(ByCode)
  {
    forall k, l | ByCode(k, l) ensures !ByCode(l, k) {
      LexicalTotal(ByteLess, Code(k), Code(l));
    }
    forall k, l, m | ByCode(k, l) && ByCode(l, m) ensures ByCode(k, m) {
      LexicalTransitive(ByteLess, Code(k), Code(l), Code(m));
    }
  }

  ghost predicate Lists(keys: seq<Key>, s: set<Key>) {
    Distinct(keys) && forall k :: k in keys <==> k in s
  }

  ghost function Enumerate(s: set<Key>): (keys: seq<Key>)
    ensures Lists(keys, s)
  {
    if s == {} then [] else var k :| k in s; [k] + Enumerate(s - {k})
  }

  /** Two keys with one encoding are one key. */
  lemma CodeInjective(k: Key, l: Key)
    requires Codable(k) && Codable(l) && Code(k) == Code(l)
    ensures k == l
  {
    hide DecodeAt, Code;
    assert At(Code(k), 0, Code(k));
    KeyRoundTrip(k, Code(k), 0);
    KeyRoundTrip(l, Code(k), 0);
  }

  /** Sorting distinct encodable keys puts them in strictly ascending order of their
      encodings. */
  lemma {:induction false} SortKeysSorts(keys: seq<Key>)
    requires Distinct(keys) && forall k :: k in keys ==> Codable(k)
    ensures Sorted(ByCode, Sort(ByCode, keys))
  {
    ByCodeIsStrict();
    forall k, l | k in keys && l in keys ensures ByCode(k, l) || ByCode(l, k) || k == l {
      LexicalTotal(ByteLess, Code(k), Code(l));
      if Code(k) == Code(l) {
        CodeInjective(k, l);
      }
    }
    SortSorts(ByCode, keys);
  }

  lemma {:induction false} ListsCount(keys: seq<Key>, s: set<Key>)
    requires Lists(keys, s)
    ensures |keys| == |s|
  {
    if keys == [] {
    } else {
      assert keys == [keys[0]] + keys[1..];
      ListsCount(keys[1..], s - {keys[0]});
    }
  }

  /** `keys` lists `s`, in ascending order of the encodings when there are encodings. */
  ghost predicate InOrder(keys: seq<Key>, s: set<Key>) {
    && |keys| == |s|
    && (forall k :: k in keys <==> k in s)
    && ((forall k :: k in s ==> Codable(k)) ==> Sorted(ByCode, keys))
  }

  /** However a map's keys were inserted, sorting puts them in this order. */
  lemma {:induction false} SortGivesOrder(keys: seq<Key>, s: set<Key>)
    requires Lists(keys, s)
    ensures InOrder(Sort(ByCode, keys), s)
  {
    SortElements(ByCode, keys);
    ListsCount(keys, s);
    if forall k :: k in s ==> Codable(k) {
      SortKeysSorts(keys);
    }
  }

  /** The keys of a map in the order in which its encoding lists them. */
  ghost function Canonical(s: set<Key>): (keys: seq<Key>)
    ensures InOrder(keys, s)
  {
    SortGivesOrder(Enumerate(s), s);
    var keys :| InOrder(keys, s);
    keys
  }

  /** The insertion order of a map's keys does not show after sorting. */
  lemma {:induction false} InsertionOrderIrrelevant(keys: seq<Key>, s: set<Key>)
    requires Lists(keys, s) && forall k :: k in s ==> Codable(k)
    ensures Sort(ByCode, keys) == Canonical(s) && Sorted(ByCode, Canonical(s))
  {
    SortGivesOrder(keys, s);
    ByCodeIsStrict();
    SortedUnique(ByCode, Sort(ByCode, keys), Canonical(s));
  }

  // ----- encoding

  /** `cbor_encode`; None for what it refuses: a tag, or a number or length past 64 bits. */
  ghost function EncodeValue(v: Value): Option<seq<Byte>>
    decreases v, 2
  {
    match v
    case Null => Some(NULL_CODE)
    case Bool(b) => EncodeBool(b)
    case Int(i) => EncodeInt(i)
    case Bytes(b) => EncodeBytes(b)
    case Text(s) => EncodeText(s)
    case List(items) => Join(EncHead(4, |items|), EncodeItems(items))
    case Map(m) => Join(EncHead(5, |m|), EncodeEntries(v, Canonical(m.Keys)))
    case Tag(_, _) => None
  }

  ghost function EncodeItems(items: seq<Value>): Option<seq<Byte>>
    decreases items, 0
  {
    if items == [] then Some([]) else Join(EncodeValue(items[0]), EncodeItems(items[1..]))
  }

  ghost function EncodeEntries(v: Value, keys: seq<Key>): Option<seq<Byte>>
    requires v.Map?
    decreases v, 1, |keys|
  {
    if keys == [] then Some([])
    else if keys[0] !in v.entries then None
    else Join(Join(EncodeKey(keys[0]), EncodeValue(v.entries[keys[0]])), EncodeEntries(v, keys[1..]))
  }

  // ----- decoding

  function ToKey(v: Value): Parsed<Key> {
    match v
    case Null => Ok(KNull)
    case Bool(b) => Ok(KBool(b))
    case Int(i) => Ok(KInt(i))
    case Bytes(b) => Ok(KBytes(b))
    case Text(s) => Ok(KText(s))
    case Tag(t, x) =>
      var k :- ToKey(x);
      Ok(KTag(t, k))
    case _ => Err(UnhashableKey)
  }

  /** `_decode_at`: the value that starts at `pos` and the position after it. */
  function DecodeAt(data: seq<Byte>, pos: nat): (r: Parsed<(Value, nat)>)
    ensures r.Ok? ==> pos < r.value.1 <= |data|
    decreases |data| - pos, 0
  {
    match ReadHead(data, pos)
    case Err(e) => Err(e)
    case Ok((major, arg, p)) => DecodeBody(data, p, major, arg)
  }

  /** What follows a head. */
  function DecodeBody(data: seq<Byte>, p: nat, major: nat, arg: nat): (r: Parsed<(Value, nat)>)
    requires p <= |data|
    ensures r.Ok? ==> p <= r.value.1 <= |data|
    decreases |data| - p, 2
  {
    if major == 0 then Ok((Int(arg), p))
    else if major == 1 then Ok((Int(-1 - arg), p))
    else if major == 2 then
      if p + arg > |data| then Err(ShortString) else Ok((Bytes(data[p..p + arg]), p + arg))
    else if major == 3 then
      if p + arg > |data| then Err(ShortString) else DecodeText(data[p..p + arg], p + arg)
    else if major == 4 then
      var (items, end) :- DecodeItems(data, p, arg);
      Ok((List(items), end))
    else if major == 5 then
      var (entries, end) :- DecodeEntries(data, p, arg, map[]);
      Ok((Map(entries), end))
    else if major == 6 then
      var (inner, end) :- DecodeAt(data, p);
      Ok((Tag(arg, inner), end))
    else if arg == 20 then Ok((Bool(false), p))
    else if arg == 21 then Ok((Bool(true), p))
    else if arg == 22 || arg == 23 then Ok((Null, p))
    else Err(BadMajor)
  }

  function DecodeText(b: seq<Byte>, end: nat): (r: Parsed<(Value, nat)>)
    ensures r.Ok? ==> r.value.1 == end
  {
    match Decode(b)
    case None => Err(BadText)
    case Some(s) => Ok((Text(s), end))
  }

  function DecodeItems(data: seq<Byte>, pos: nat, n: nat): (r: Parsed<(seq<Value>, nat)>)
    requires pos <= |data|
    ensures r.Ok? ==> pos <= r.value.1 <= |data|
    decreases |data| - pos, 1
  {
    if n == 0 then Ok(([], pos))
    else
      var (item, p) :- DecodeAt(data, pos);
      var (rest, end) :- DecodeItems(data, p, n - 1);
      Ok(([item] + rest, end))
  }

  /** Later entries replace earlier ones with the same key. */
  function DecodeEntries(data: seq<Byte>, pos: nat, n: nat, acc: map<Key, Value>): (r: Parsed<(map<Key, Value>, nat)>)
    requires pos <= |data|
    ensures r.Ok? ==> pos <= r.value.1 <= |data|
    decreases |data| - pos, 1
  {
    if n == 0 then Ok((acc, pos))
    else
      var (kv, p) :- DecodeAt(data, pos);
      var (v, q) :- DecodeAt(data, p);
      var k :- ToKey(kv);
      DecodeEntries(data, q, n - 1, PutEntry(acc, k, v))
  }

  /** `cbor_decode`: exactly one value. */
  function DecodeAll(data: seq<Byte>): Parsed<Value> {
    var (v, end) :- DecodeAt(data, 0);
    if end != |data| then Err(Trailing) else Ok(v)
  }

  // ----- round trip

  /** Decoding at the start of an encoding returns the value and the position just past
      it, whatever stands before and after. */
  lemma {:induction false} RoundTripAt(v: Value, data: seq<Byte>, pos: nat)
    requires Proper(v) && EncodeValue(v).Some? && At(data, pos, EncodeValue(v).value)
    ensures DecodeAt(data, pos) == Ok((v, pos + |EncodeValue(v).value|))
    decreases v, 2
  {
    hide DecodeAt, At;
    match v
    case Null => NullRoundTrip(data, pos);
    case Bool(b) => BoolRoundTrip(b, data, pos);
    case Int(i) => IntRoundTrip(i, data, pos);
    case Bytes(b) => BytesRoundTrip(b, data, pos);
    case Text(s) => TextRoundTrip(s, data, pos);
    case List(_) => ListRoundTrip(v, data, pos);
    case Map(_) =>
      MapRoundTrip(v, data, pos);
  }

  /** A value made of a head and a body stands in `data` as its head and then its body. */
  lemma HeadThenBody(major: nat, n: nat, body: seq<Byte>, data: seq<Byte>, pos: nat) returns (p: nat)
    requires major < 8 && n < MAX64 && At(data, pos, EncHead(major, n).value + body)
    ensures ReadHead(data, pos) == Ok((major, n, p)) && At(data, p, body)
    ensures p + |body| == pos + |EncHead(major, n).value + body|
  {
    AtSplit(data, pos, EncHead(major, n).value, body);
    HeadRoundTrip(major, n, data, pos);
    p := pos + |EncHead(major, n).value|;
  }

  lemma NullRoundTrip(data: seq<Byte>, pos: nat)
    requires At(data, pos, NULL_CODE)
    ensures DecodeAt(data, pos) == Ok((Null, pos + 1))
  {
    HeadRoundTrip(7, 22, data, pos);
  }

  lemma BoolRoundTrip(b: bool, data: seq<Byte>, pos: nat)
    requires At(data, pos, EncodeBool(b).value)
    ensures DecodeAt(data, pos) == Ok((Bool(b), pos + 1))
  {
    HeadRoundTrip(7, if b then 21 else 20, data, pos);
  }

  lemma BytesRoundTrip(b: seq<Byte>, data: seq<Byte>, pos: nat)
    requires EncodeBytes(b).Some? && At(data, pos, EncodeBytes(b).value)
    ensures DecodeAt(data, pos) == Ok((Bytes(b), pos + |EncodeBytes(b).value|))
  {
    hide EncHead, ReadHead;
    var p := HeadThenBody(2, |b|, b, data, pos);
    assert data[p..p + |b|] == b;
  }

  lemma {:induction false} ListRoundTrip(v: Value, data: seq<Byte>, pos: nat)
    requires Proper(v) && v.List? && EncodeValue(v).Some? && At(data, pos, EncodeValue(v).value)
    ensures DecodeAt(data, pos) == Ok((v, pos + |EncodeValue(v).value|))
    decreases v, 1
  {
    hide EncHead, ReadHead, At, EncodeItems, DecodeItems;
    var p := HeadThenBody(4, |v.items|, EncodeItems(v.items).value, data, pos);
    ItemsRoundTrip(v.items, data, p);
  }

  lemma {:induction false} MapHead(v: Value, data: seq<Byte>, pos: nat) returns (p: nat)
    requires v.Map? && EncodeValue(v).Some? && At(data, pos, EncodeValue(v).value)
    ensures var keys := Canonical(v.entries.Keys);
      && ReadHead(data, pos) == Ok((5, |keys|, p)) && p <= |data|
      && EncodeEntries(v, keys).Some? && At(data, p, EncodeEntries(v, keys).value)
      && p + |EncodeEntries(v, keys).value| == pos + |EncodeValue(v).value|
      && map[] + Restrict(v.entries, keys) == v.entries
  {
    var keys := Canonical(v.entries.Keys);
    p := HeadThenBody(5, |keys|, EncodeEntries(v, keys).value, data, pos);
  }

  lemma {:induction false} MapRoundTrip(v: Value, data: seq<Byte>, pos: nat)
    requires Proper(v) && v.Map? && EncodeValue(v).Some? && At(data, pos, EncodeValue(v).value)
    ensures DecodeAt(data, pos) == Ok((v, pos + |EncodeValue(v).value|))
    decreases v, 1
  {
    hide *;
    var p := MapHead(v, data, pos);
    var keys := Canonical(v.entries.Keys);
    ProperEntries(v);
    EntriesRoundTrip(v, keys, data, p, map[]);
    DecodeMapStep(data, pos, |keys|, p, v.entries, pos + |EncodeValue(v).value|);
  }

  lemma ProperEntries(v: Value)
    requires Proper(v) && v.Map?
    ensures Unambiguous(v.entries.Keys) && forall k :: k in v.entries ==> Proper(v.entries[k])
  {
  }

  lemma DecodeMapStep(data: seq<Byte>, pos: nat, n: nat, p: nat, m: map<Key, Value>, q: nat)
    requires ReadHead(data, pos) == Ok((5, n, p)) && p <= |data|
    requires DecodeEntries(data, p, n, map[]) == Ok((m, q))
    ensures DecodeAt(data, pos) == Ok((Map(m), q))
  {
  }

  lemma {:induction false} ItemsRoundTrip(items: seq<Value>, data: seq<Byte>, pos: nat)
    requires (forall x :: x in items ==> Proper(x)) && EncodeItems(items).Some?
      && At(data, pos, EncodeItems(items).value)
    ensures DecodeItems(data, pos, |items|) == Ok((items, pos + |EncodeItems(items).value|))
    decreases items, 0
  {
    hide At, DecodeAt, EncodeValue;
    if items == [] {
    } else {
      var a, b := EncodeValue(items[0]).value, EncodeItems(items[1..]).value;
      AtSplit(data, pos, a, b);
      AtInside(data, pos, a);
      RoundTripAt(items[0], data, pos);
      ItemsRoundTrip(items[1..], data, pos + |a|);
      assert [items[0]] + items[1..] == items;
    }
  }

  ghost function Restrict(m: map<Key, Value>, keys: seq<Key>): map<Key, Value> {
    map k | k in keys && k in m :: m[k]
  }

  lemma {:induction false} EntriesRoundTrip(v: Value, keys: seq<Key>, data: seq<Byte>, pos: nat, acc: map<Key, Value>)
    requires Proper(v) && v.Map? && EncodeEntries(v, keys).Some? && At(data, pos, EncodeEntries(v, keys).value)
    requires Unambiguous((acc + Restrict(v.entries, keys)).Keys)
    ensures DecodeEntries(data, pos, |keys|, acc)
      == Ok((acc + Restrict(v.entries, keys), pos + |EncodeEntries(v, keys).value|))
    decreases v, 0, |keys|
  {
    hide Proper, PutEntry, Alias, Unambiguous, DecodeAt, At, EncodeValue;
    ProperEntries(v);
    if keys == [] {
      AtInside(data, pos, []);
      assert acc + Restrict(v.entries, keys) == acc;
    } else {
      var k, x, rest := keys[0], v.entries[keys[0]], EncodeEntries(v, keys[1..]).value;
      assert EncodeEntries(v, keys).value == Code(k) + EncodeValue(x).value + rest;
      var p := EntryRoundTrip(k, x, rest, data, pos, |keys|, acc);
      RestrictStep(v.entries, keys, acc);
      PutEntryNew(acc, k, x, (acc + Restrict(v.entries, keys)).Keys);
      EntriesRoundTrip(v, keys[1..], data, p, PutEntry(acc, k, x));
    }
  }

  /** One entry reads back into the accumulated map, and the rest stands right behind it. */
  lemma {:induction false} EntryRoundTrip(
    k: Key, x: Value, rest: seq<Byte>, data: seq<Byte>, pos: nat, n: nat, acc: map<Key, Value>)
    returns (p: nat)
    requires Proper(x) && Codable(k) && EncodeValue(x).Some? && n > 0
    requires At(data, pos, Code(k) + EncodeValue(x).value + rest)
    ensures p == pos + |Code(k)| + |EncodeValue(x).value| && At(data, p, rest)
    ensures DecodeEntries(data, pos, n, acc) == DecodeEntries(data, p, n - 1, PutEntry(acc, k, x))
    decreases x, 3
  {
    hide *;
    AtSplit(data, pos, Code(k) + EncodeValue(x).value, rest);
    AtSplit(data, pos, Code(k), EncodeValue(x).value);
    p := pos + |Code(k)| + |EncodeValue(x).value|;
    KeyRoundTrip(k, data, pos);
    RoundTripAt(x, data, pos + |Code(k)|);
    DecodeEntriesStep(data, pos, n, acc, k, pos + |Code(k)|, x, p);
  }

  lemma DecodeEntriesStep(data: seq<Byte>, pos: nat, n: nat, acc: map<Key, Value>, k: Key, p: nat, x: Value, q: nat)
    requires n > 0 && pos <= |data|
    requires DecodeAt(data, pos) == Ok((KeyValue(k), p)) && ToKey(KeyValue(k)) == Ok(k)
    requires DecodeAt(data, p) == Ok((x, q)) && q <= |data|
    ensures DecodeEntries(data, pos, n, acc) == DecodeEntries(data, q, n - 1, PutEntry(acc, k, x))
  {
  }

  /** Among keys of one dictionary nothing is taken for another key. */
  lemma PutEntryNew(acc: map<Key, Value>, k: Key, x: Value, keys: set<Key>)
    requires Unambiguous(keys) && acc.Keys <= keys && k in keys
    ensures PutEntry(acc, k, x) == acc[k := x]
  {
  }

  lemma RestrictStep(m: map<Key, Value>, keys: seq<Key>, acc: map<Key, Value>)
    requires keys != [] && keys[0] in m
    ensures acc[keys[0] := m[keys[0]]] + Restrict(m, keys[1..]) == acc + Restrict(m, keys)
  {
    assert keys == [keys[0]] + keys[1..];
  }

  lemma IntRoundTrip(i: int, data: seq<Byte>, pos: nat)
    requires EncodeInt(i).Some? && At(data, pos, EncodeInt(i).value)
    ensures DecodeAt(data, pos) == Ok((Int(i), pos + |EncodeInt(i).value|))
  {
    hide EncHead, ReadHead, At;
    HeadRoundTrip(if i >= 0 then 0 else 1, if i >= 0 then i else -1 - i, data, pos);
  }

  lemma TextRoundTrip(s: string, data: seq<Byte>, pos: nat)
    requires EncodeText(s).Some? && At(data, pos, EncodeText(s).value)
    ensures DecodeAt(data, pos) == Ok((Text(s), pos + |EncodeText(s).value|))
  {
    hide EncHead, ReadHead;
    var b := Utf8.Encode(s);
    var p := HeadThenBody(3, |b|, b, data, pos);
    Utf8.RoundTrip(s);
    assert DecodeBody(data, p, 3, |b|) == DecodeText(data[p..p + |b|], p + |b|);
  }

  lemma {:induction false} KeyRoundTrip(k: Key, data: seq<Byte>, pos: nat)
    requires Codable(k) && At(data, pos, Code(k))
    ensures DecodeAt(data, pos) == Ok((KeyValue(k), pos + |Code(k)|))
    ensures ToKey(KeyValue(k)) == Ok(k)
  {
    hide DecodeAt, EncodeInt, EncodeText, EncodeBytes, At;
    match k
    case KNull => NullRoundTrip(data, pos);
    case KBool(b) => BoolRoundTrip(b, data, pos);
    case KBytes(b) => BytesRoundTrip(b, data, pos);
    case KInt(i) => IntRoundTrip(i, data, pos);
    case KText(s) => TextRoundTrip(s, data, pos);
  }

  /** The same, spelled with a prefix and a suffix. */
  lemma RoundTrip(v: Object, pre: seq<Byte>, suf: seq<Byte>)
    requires EncodeValue(v).Some?
    ensures var e := EncodeValue(v).value;
      DecodeAt(pre + e + suf, |pre|) == Ok((v, |pre| + |e|))
  {
    AtSurrounded(pre, EncodeValue(v).value, suf);
    RoundTripAt(v, pre + EncodeValue(v).value + suf, |pre|);
  }

  /** A whole message decodes to what was encoded. */
  lemma DecodeAllRoundTrip(v: Object)
    requires EncodeValue(v).Some?
    ensures DecodeAll(EncodeValue(v).value) == Ok(v)
  {
    RoundTripAt(v, EncodeValue(v).value, 0);
  }

  /** Different values have different encodings, and no encoding is the beginning of another. */
  lemma PrefixFree(v: Object, w: Object)
    requires EncodeValue(v).Some? && EncodeValue(w).Some?
    ensures EncodeValue(v).value <= EncodeValue(w).value ==> v == w
  {
    var e, f := EncodeValue(v).value, EncodeValue(w).value;
    if e <= f {
      RoundTripAt(v, f, 0);
      RoundTripAt(w, f, 0);
    }
  }

  // ----- what is decoded is a value of Python

  lemma PutEntryUnambiguous(d: map<Key, Value>, k: Key, v: Value)
    requires Unambiguous(d.Keys)
    ensures Unambiguous(PutEntry(d, k, v).Keys)
  {
    hide Alias;
    AliasTwice(k);
    forall l | l in PutEntry(d, k, v) ensures Alias(Alias(l)) == l {
      AliasTwice(l);
    }
  }

  /** Decoding any bytes never yields a dictionary with two keys that are taken for one. */
  lemma {:induction false} DecodedIsProper(data: seq<Byte>, pos: nat)
    requires DecodeAt(data, pos).Ok?
    ensures Proper(DecodeAt(data, pos).value.0)
    decreases |data| - pos, 0
  {
    var (major, arg, p) := ReadHead(data, pos).value;
    if major == 4 {
      ItemsAreProper(data, p, arg);
    } else if major == 5 {
      EntriesAreProper(data, p, arg, map[]);
    } else if major == 6 {
      DecodedIsProper(data, p);
    }
  }

  lemma {:induction false} ItemsAreProper(data: seq<Byte>, pos: nat, n: nat)
    requires pos <= |data| && DecodeItems(data, pos, n).Ok?
    ensures forall x :: x in DecodeItems(data, pos, n).value.0 ==> Proper(x)
    decreases |data| - pos, 1
  {
    hide DecodeAt, Proper;
    if n == 0 {
    } else {
      DecodedIsProper(data, pos);
      ItemsAreProper(data, DecodeAt(data, pos).value.1, n - 1);
    }
  }

  lemma {:induction false} EntriesAreProper(data: seq<Byte>, pos: nat, n: nat, acc: map<Key, Value>)
    requires pos <= |data| && DecodeEntries(data, pos, n, acc).Ok?
    requires Unambiguous(acc.Keys) && forall k :: k in acc ==> Proper(acc[k])
    ensures var m := DecodeEntries(data, pos, n, acc).value.0;
      Unambiguous(m.Keys) && forall k :: k in m ==> Proper(m[k])
    decreases |data| - pos, 1
  {
    hide DecodeAt, Proper, Unambiguous, Alias;
    if n == 0 {
    } else {
      var (kv, p) := DecodeAt(data, pos).value;
      var (v, q) := DecodeAt(data, p).value;
      DecodedIsProper(data, p);
      PutEntryUnambiguous(acc, ToKey(kv).value, v);
      EntriesAreProper(data, q, n - 1, PutEntry(acc, ToKey(kv).value, v));
    }
  }

  // ----- exactly what can be encoded

  ghost predicate Encodable(v: Value)
    decreases v
  {
    match v
    case Null => true
    case Bool(_) => true
    case Int(i) => 0 - MAX64 <= i < MAX64
    case Bytes(b) => |b| < MAX64
    case Text(s) => |Utf8.Encode(s)| < MAX64
    case List(items) => |items| < MAX64 && forall x :: x in items ==> Encodable(x)
    case Map(m) => |m| < MAX64 && forall k :: k in m ==> Codable(k) && Encodable(m[k])
    case Tag(_, _) => false
  }

  /** Encoding succeeds exactly on untagged values whose numbers and lengths fit 64 bits. */
  lemma {:induction false} EncodesIffEncodable(v: Value)
    ensures EncodeValue(v).Some? <==> Encodable(v)
    decreases v, 1
  {
    match v
    case List(items) =>
      forall x | x in items ensures EncodeValue(x).Some? <==> Encodable(x) {
        EncodesIffEncodable(x);
      }
      ItemsEncode(items);
    case Map(m) =>
      forall k | k in m ensures EncodeValue(m[k]).Some? <==> Encodable(m[k]) {
        EncodesIffEncodable(m[k]);
      }
      EntriesEncode(v, Canonical(m.Keys));
    case _ =>
  }

  lemma {:induction false} ItemsEncode(items: seq<Value>)
    ensures EncodeItems(items).Some? <==> forall x :: x in items ==> EncodeValue(x).Some?
  {
    if items == [] {
    } else {
      ItemsEncode(items[1..]);
      assert items[0] in items;
      assert forall x :: x in items <==> x == items[0] || x in items[1..];
    }
  }

  lemma {:induction false} EntriesEncode(v: Value, keys: seq<Key>)
    requires v.Map? && forall k :: k in keys ==> k in v.entries
    ensures EncodeEntries(v, keys).Some? <==> forall k :: k in keys ==> Codable(k) && EncodeValue(v.entries[k]).Some?
  {
    if keys == [] {
    } else {
      EntriesEncode(v, keys[1..]);
      assert keys == [keys[0]] + keys[1..];
    }
  }
}
