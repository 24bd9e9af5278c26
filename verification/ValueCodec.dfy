/** Values as bytes: the type, and then what a value of that type needs. */
module ValueCodec {
  import opened Options
  import opened ByteSeqs
  import opened TypeCodec

  const HASH_SIZE: nat := 20

  /** A value; `Meta` is a blob, list, map or set that is in several chunks.  A number is `i / 2^exp`. */
  datatype Value =
    | BoolValue(b: bool)
    | NumberValue(i: int, exp: int)
    | StringValue(s: seq<Byte>)
    | BlobLeaf(data: seq<Byte>)
    | ListLeaf(t: Type, values: seq<Value>)
    | SetLeaf(t: Type, values: seq<Value>)
    | MapLeaf(t: Type, entries: seq<Entry>)
    | Meta(t: Type, tuples: seq<MetaTuple>)
    | RefValue(t: Type, hash: seq<Byte>, height: nat)
    | StructValue(t: Type, values: seq<Value>)
    | TypeValue(t: Type)

  datatype Entry = Entry(key: Value, value: Value)

  datatype MetaTuple = MetaTuple(ref: Value, key: OrderedKey, numLeaves: nat)

  /** The key of a chunk: a value, or for values that are ordered by their hash the hash. */
  datatype OrderedKey = ByValue(v: Value) | ByHash(h: seq<Byte>)

  function TypeOf(v: Value): Type {
    match v
    case BoolValue(_) => Primitive(BOOL_KIND)
    case NumberValue(_, _) => Primitive(NUMBER_KIND)
    case StringValue(_) => Primitive(STRING_KIND)
    case BlobLeaf(_) => Primitive(BLOB_KIND)
    case TypeValue(_) => Primitive(TYPE_KIND)
    case _ => v.t
  }

  /** How a key is written: a hash as if it were a reference. */
  function KeyValue(k: OrderedKey): Value {
    match k
    case ByValue(v) => v
    case ByHash(h) => RefValue(RefType(Primitive(BOOL_KIND)), h, 0)
  }

  function KeyOf(v: Value): OrderedKey {
    if v.RefValue? then ByHash(v.hash) else ByValue(v)
  }

  predicate IsChunkedType(t: Type) {
    t == Primitive(BLOB_KIND) || t.ListType? || t.MapType? || t.SetType?
  }

  /** Values have the types they say, and every number fits the width it is written in. */
  ghost predicate WellFormed(v: Value)
    decreases v
  {
    && Writable(TypeOf(v))
    && match v
       case BoolValue(_) => true
       case NumberValue(_, _) => true
       case StringValue(s) => |s| < Power256(4)
       case BlobLeaf(data) => |data| < Power256(4)
       case ListLeaf(t, vs) => t.ListType? && |vs| < Power256(4) && forall i :: 0 <= i < |vs| ==> WellFormed(vs[i])
       case SetLeaf(t, vs) => t.SetType? && |vs| < Power256(4) && forall i :: 0 <= i < |vs| ==> WellFormed(vs[i])
       case MapLeaf(t, es) => t.MapType? && |es| < Power256(4)
         && forall i :: 0 <= i < |es| ==> WellFormed(es[i].key) && WellFormed(es[i].value)
       case Meta(t, ts) => IsChunkedType(t) && |ts| < Power256(4)
         && forall i :: 0 <= i < |ts| ==> WellFormedTuple(ts[i])
       case RefValue(t, h, height) => t.RefType? && |h| == HASH_SIZE && height < Power256(8)
       case StructValue(t, vs) => t.StructType? && |vs| == |t.fields| && forall i :: 0 <= i < |vs| ==> WellFormed(vs[i])
       case TypeValue(t) => Writable(t)
  }

  ghost predicate WellFormedTuple(t: MetaTuple)
    decreases t
  {
    && t.ref.RefValue? && WellFormed(t.ref) && t.numLeaves < Power256(8)
    && match t.key
       case ByValue(v) => IsOrderedByValue(v) && WellFormed(v)
       case ByHash(h) => |h| == HASH_SIZE && !IsEmptyHash(h)
  }

  ghost predicate WellFormedValues(vs: seq<Value>) {
    forall i :: 0 <= i < |vs| ==> WellFormed(vs[i])
  }

  ghost predicate WellFormedEntries(es: seq<Entry>) {
    forall i :: 0 <= i < |es| ==> WellFormed(es[i].key) && WellFormed(es[i].value)
  }

  ghost predicate WellFormedTuples(ts: seq<MetaTuple>) {
    forall i :: 0 <= i < |ts| ==> WellFormedTuple(ts[i])
  }

  /** Only these values are keys themselves. */
  predicate IsOrderedByValue(v: Value) {
    v.BoolValue? || v.NumberValue? || v.StringValue?
  }

  predicate IsEmptyHash(h: seq<Byte>) {
    forall i :: 0 <= i < |h| ==> h[i] == 0
  }

  // ---------- numbers of any size ----------

  function EncodeUvarint(n: nat): (bytes: seq<Byte>)
    ensures bytes != []
  {
    if n < 128 then [n] else [n % 128 + 128] + EncodeUvarint(n / 128)
  }

  function DecodeUvarint(buff: seq<Byte>, at: nat): (r: Parse<nat>)
    requires at <= |buff|
    ensures r.Some? ==> at < r.value.1 <= |buff|
    decreases |buff| - at
  {
    if at == |buff| then None
    else if buff[at] < 128 then Some((buff[at], at + 1))
    else
      var rest := DecodeUvarint(buff, at + 1);
      if rest.None? then None else Some((buff[at] - 128 + 128 * rest.value.0, rest.value.1))
  }

  /** Small numbers of either sign become small numbers. */
  function Zigzag(i: int): nat {
    if i >= 0 then 2 * i else -2 * i - 1
  }

  function Unzigzag(n: nat): int {
    if n % 2 == 0 then n / 2 else -(n / 2) - 1
  }

  lemma {:induction false} UvarintRoundTrip(buff: seq<Byte>, at: nat, n: nat)
    requires HeldAt(buff, at, EncodeUvarint(n))
    ensures at <= |buff| && DecodeUvarint(buff, at) == Some((n, at + |EncodeUvarint(n)|))
    decreases n
  {
    if n < 128 {
      assert buff[at] == EncodeUvarint(n)[0];
    } else {
      KindFirst(buff, at, n % 128 + 128, EncodeUvarint(n / 128));
      UvarintRoundTrip(buff, at + 1, n / 128);
    }
  }

  function EncodeVarint(i: int): (bytes: seq<Byte>)
    ensures bytes != []
  {
    EncodeUvarint(Zigzag(i))
  }

  function DecodeVarint(buff: seq<Byte>, at: nat): (r: Parse<int>)
    requires at <= |buff|
    ensures r.Some? ==> at < r.value.1 <= |buff|
  {
    var n := DecodeUvarint(buff, at);
    if n.None? then None else Some((Unzigzag(n.value.0), n.value.1))
  }

  lemma VarintRoundTrip(buff: seq<Byte>, at: nat, i: int)
    requires HeldAt(buff, at, EncodeVarint(i))
    ensures at <= |buff| && DecodeVarint(buff, at) == Some((i, at + |EncodeVarint(i)|))
  {
    UvarintRoundTrip(buff, at, Zigzag(i));
  }

  // ---------- encoding ----------

  function EncodeBool(b: bool): (bytes: seq<Byte>)
    ensures |bytes| == 1
  {
    [if b then 1 else 0]
  }

  function EncodeValue(v: Value): (bytes: seq<Byte>)
    ensures bytes != []
    decreases v, 1
  {
    EncodeType(TypeOf(v)) + EncodeBody(v)
  }

  function EncodeBody(v: Value): seq<Byte>
    decreases v, 0
  {
    match v
    case BoolValue(b) => EncodeBool(b)
    case NumberValue(i, exp) => EncodeVarint(i) + EncodeVarint(exp)
    case StringValue(s) => EncodeString(s)
    case BlobLeaf(data) => EncodeBool(false) + EncodeString(data)
    case ListLeaf(_, vs) => EncodeBool(false) + (Write(|vs|, 4) + EncodeValues(vs))
    case SetLeaf(_, vs) => EncodeBool(false) + (Write(|vs|, 4) + EncodeValues(vs))
    case MapLeaf(_, es) => EncodeBool(false) + (Write(|es|, 4) + EncodeEntries(es))
    case Meta(_, ts) => EncodeBool(true) + (Write(|ts|, 4) + EncodeTuples(ts))
    case RefValue(_, h, height) => h + Write(height, 8)
    case StructValue(_, vs) => EncodeValues(vs)
    case TypeValue(t) => EncodeType(t)
  }

  function EncodeValues(vs: seq<Value>): seq<Byte>
    decreases vs, 2
  {
    if vs == [] then [] else EncodeValue(vs[0]) + EncodeValues(vs[1..])
  }

  function EncodeEntry(e: Entry): seq<Byte>
    decreases e, 0
  {
    EncodeValue(e.key) + EncodeValue(e.value)
  }

  function EncodeEntries(es: seq<Entry>): seq<Byte>
    decreases es, 2
  {
    if es == [] then [] else EncodeEntry(es[0]) + EncodeEntries(es[1..])
  }

  function EncodeTuple(t: MetaTuple): seq<Byte>
    decreases t, 0
  {
    EncodeValue(t.ref) + (EncodeKey(t.key) + Write(t.numLeaves, 8))
  }

  function EncodeKey(k: OrderedKey): seq<Byte>
    decreases k, 0
  {
    match k
    case ByValue(v) => EncodeValue(v)
    case ByHash(h) => EncodeType(RefType(Primitive(BOOL_KIND))) + (h + Write(0, 8))
  }

  function EncodeTuples(ts: seq<MetaTuple>): seq<Byte>
    decreases ts, 2
  {
    if ts == [] then [] else EncodeTuple(ts[0]) + EncodeTuples(ts[1..])
  }

  // ---------- decoding ----------

  function DecodeByte(buff: seq<Byte>, at: nat): (r: Parse<Byte>)
    ensures r.Some? ==> r.value.1 == at + 1 <= |buff|
  {
    if at < |buff| then Some((buff[at], at + 1)) else None
  }

  function DecodeValue(buff: seq<Byte>, at: nat): (r: Parse<Value>)
    requires at <= |buff|
    ensures r.Some? ==> at < r.value.1 <= |buff|
    decreases |buff| - at, 0
  {
    var t := DecodeType(buff, at);
    if t.None? then None else DecodeBody(buff, t.value.1, t.value.0)
  }

  function DecodeBody(buff: seq<Byte>, at: nat, t: Type): (r: Parse<Value>)
    requires at <= |buff|
    ensures r.Some? ==> at <= r.value.1 <= |buff|
    decreases |buff| - at, 2
  {
    if IsChunkedType(t) then
      var isMeta := DecodeByte(buff, at);
      if isMeta.None? then None else DecodeSequence(buff, at + 1, t, isMeta.value.0 == 1)
    else if t.RefType? then
      if at + HASH_SIZE + 8 <= |buff|
         then Some((RefValue(t, buff[at..at + HASH_SIZE], Read(buff[at + HASH_SIZE..at + HASH_SIZE + 8])),
                    at + HASH_SIZE + 8)) else None
    else if t.StructType? then
      var vs := DecodeValues(buff, at, |t.fields|);
      if vs.None? then None else Some((StructValue(t, vs.value.0), vs.value.1))
    else DecodeScalar(buff, at, t)
  }

  function DecodeScalar(buff: seq<Byte>, at: nat, t: Type): (r: Parse<Value>)
    requires at <= |buff|
    ensures r.Some? ==> at <= r.value.1 <= |buff|
  {
    if t == Primitive(BOOL_KIND) then
      var b := DecodeByte(buff, at);
      if b.None? then None else Some((BoolValue(b.value.0 == 1), b.value.1))
    else if t == Primitive(NUMBER_KIND) then
      var i := DecodeVarint(buff, at);
      var exp := if i.None? then None else DecodeVarint(buff, i.value.1);
      if exp.None? then None else Some((NumberValue(i.value.0, exp.value.0), exp.value.1))
    else if t == Primitive(STRING_KIND) then
      var s := DecodeString(buff, at);
      if s.None? then None else Some((StringValue(s.value.0), s.value.1))
    else if t == Primitive(TYPE_KIND) then
      var u := DecodeType(buff, at);
      if u.None? then None else Some((TypeValue(u.value.0), u.value.1))
    else None
  }

  function DecodeSequence(buff: seq<Byte>, at: nat, t: Type, isMeta: bool): (r: Parse<Value>)
    requires at <= |buff|
    ensures r.Some? ==> at <= r.value.1 <= |buff|
    decreases |buff| - at, 1
  {
    if !isMeta && t.Primitive? then
      var s := DecodeString(buff, at);
      if s.None? then None else Some((BlobLeaf(s.value.0), s.value.1))
    else
      var n := DecodeNat(buff, at, 4);
      if n.None? then None
      else if isMeta then
        var ts := DecodeTuples(buff, n.value.1, n.value.0);
        if ts.None? then None else Some((Meta(t, ts.value.0), ts.value.1))
      else if t.MapType? then
        var es := DecodeEntries(buff, n.value.1, n.value.0);
        if es.None? then None else Some((MapLeaf(t, es.value.0), es.value.1))
      else
        var vs := DecodeValues(buff, n.value.1, n.value.0);
        if vs.None? then None
           else Some((if t.ListType? then ListLeaf(t, vs.value.0) else SetLeaf(t, vs.value.0), vs.value.1))
  }

  function DecodeValues(buff: seq<Byte>, at: nat, n: nat): (r: Parse<seq<Value>>)
    requires at <= |buff|
    ensures r.Some? ==> at <= r.value.1 <= |buff|
    decreases |buff| - at, 1, n
  {
    if n == 0 then Some(([], at))
    else
      var v := DecodeValue(buff, at);
      if v.None? then None
      else
        var vs := DecodeValues(buff, v.value.1, n - 1);
        if vs.None? then None else Some(([v.value.0] + vs.value.0, vs.value.1))
  }

  function DecodeEntry(buff: seq<Byte>, at: nat): (r: Parse<Entry>)
    requires at <= |buff|
    ensures r.Some? ==> at < r.value.1 <= |buff|
    decreases |buff| - at, 1, 0
  {
    var k := DecodeValue(buff, at);
    var v := if k.None? then None else DecodeValue(buff, k.value.1);
    if v.None? then None else Some((Entry(k.value.0, v.value.0), v.value.1))
  }

  function DecodeEntries(buff: seq<Byte>, at: nat, n: nat): (r: Parse<seq<Entry>>)
    requires at <= |buff|
    ensures r.Some? ==> at <= r.value.1 <= |buff|
    decreases |buff| - at, 1, n + 1
  {
    if n == 0 then Some(([], at))
    else
      var e := DecodeEntry(buff, at);
      if e.None? then None
      else
        var es := DecodeEntries(buff, e.value.1, n - 1);
        if es.None? then None else Some(([e.value.0] + es.value.0, es.value.1))
  }

  function DecodeTuple(buff: seq<Byte>, at: nat): (r: Parse<MetaTuple>)
    requires at <= |buff|
    ensures r.Some? ==> at < r.value.1 <= |buff|
    decreases |buff| - at, 1, 0
  {
    var ref := DecodeValue(buff, at);
    var v := if ref.None? || !ref.value.0.RefValue? then None else DecodeValue(buff, ref.value.1);
    var n := if v.None? then None else DecodeNat(buff, v.value.1, 8);
    if n.None? then None else Some((MetaTuple(ref.value.0, KeyOf(v.value.0), n.value.0), n.value.1))
  }

  function DecodeTuples(buff: seq<Byte>, at: nat, n: nat): (r: Parse<seq<MetaTuple>>)
    requires at <= |buff|
    ensures r.Some? ==> at <= r.value.1 <= |buff|
    decreases |buff| - at, 1, n + 1
  {
    if n == 0 then Some(([], at))
    else
      var t := DecodeTuple(buff, at);
      if t.None? then None
      else
        var ts := DecodeTuples(buff, t.value.1, n - 1);
        if ts.None? then None else Some(([t.value.0] + ts.value.0, ts.value.1))
  }

  // ---------- one step of the decoder ----------

  lemma ValueStep(buff: seq<Byte>, at: nat, t: Type, mid: nat, v: Value, end: nat)
    requires at <= |buff| && DecodeType(buff, at) == Some((t, mid)) && mid <= |buff|
             && DecodeBody(buff, mid, t) == Some((v, end))
    ensures DecodeValue(buff, at) == Some((v, end))
  {
  }

  lemma SequenceStep(buff: seq<Byte>, at: nat, t: Type, isMeta: bool, v: Value, end: nat)
    requires IsChunkedType(t) && HeldAt(buff, at, EncodeBool(isMeta))
             && DecodeSequence(buff, at + 1, t, isMeta) == Some((v, end))
    ensures at <= |buff| && DecodeBody(buff, at, t) == Some((v, end))
  {
    assert buff[at] == EncodeBool(isMeta)[0];
  }

  lemma BlobStep(buff: seq<Byte>, at: nat, data: seq<Byte>, end: nat)
    requires at <= |buff| && DecodeString(buff, at) == Some((data, end))
    ensures DecodeSequence(buff, at, Primitive(BLOB_KIND), false) == Some((BlobLeaf(data), end))
  {
  }

  lemma MetaStep(buff: seq<Byte>, at: nat, t: Type, n: nat, mid: nat, ts: seq<MetaTuple>, end: nat)
    requires at <= |buff| && DecodeNat(buff, at, 4) == Some((n, mid)) && mid <= |buff|
             && DecodeTuples(buff, mid, n) == Some((ts, end))
    ensures DecodeSequence(buff, at, t, true) == Some((Meta(t, ts), end))
  {
  }

  lemma MapLeafStep(buff: seq<Byte>, at: nat, t: Type, n: nat, mid: nat, es: seq<Entry>, end: nat)
    requires t.MapType? && at <= |buff| && DecodeNat(buff, at, 4) == Some((n, mid)) && mid <= |buff|
             && DecodeEntries(buff, mid, n) == Some((es, end))
    ensures DecodeSequence(buff, at, t, false) == Some((MapLeaf(t, es), end))
  {
  }

  lemma LeafStep(buff: seq<Byte>, at: nat, t: Type, n: nat, mid: nat, vs: seq<Value>, end: nat)
    requires (t.ListType? || t.SetType?) && at <= |buff| && DecodeNat(buff, at, 4) == Some((n, mid)) && mid <= |buff|
             && DecodeValues(buff, mid, n) == Some((vs, end))
    ensures DecodeSequence(buff, at, t, false) == Some((if t.ListType? then ListLeaf(t, vs) else SetLeaf(t, vs), end))
  {
  }

  lemma StructValueStep(buff: seq<Byte>, at: nat, t: Type, vs: seq<Value>, end: nat)
    requires t.StructType? && at <= |buff| && DecodeValues(buff, at, |t.fields|) == Some((vs, end))
    ensures DecodeBody(buff, at, t) == Some((StructValue(t, vs), end))
  {
  }

  lemma ScalarStep(buff: seq<Byte>, at: nat, t: Type, v: Value, end: nat)
    requires !IsChunkedType(t) && !t.RefType? && !t.StructType? && at <= |buff|
             && DecodeScalar(buff, at, t) == Some((v, end))
    ensures DecodeBody(buff, at, t) == Some((v, end))
  {
  }

  lemma ValuesStep(buff: seq<Byte>, at: nat, n: nat, v: Value, mid: nat, vs: seq<Value>, end: nat)
    requires at <= |buff| && DecodeValue(buff, at) == Some((v, mid)) && mid <= |buff|
             && DecodeValues(buff, mid, n) == Some((vs, end))
    ensures DecodeValues(buff, at, n + 1) == Some(([v] + vs, end))
  {
  }

  lemma EntryStep(buff: seq<Byte>, at: nat, k: Value, mid: nat, v: Value, end: nat)
    requires at <= |buff| && DecodeValue(buff, at) == Some((k, mid)) && mid <= |buff|
             && DecodeValue(buff, mid) == Some((v, end))
    ensures DecodeEntry(buff, at) == Some((Entry(k, v), end))
  {
  }

  lemma EntriesStep(buff: seq<Byte>, at: nat, n: nat, e: Entry, mid: nat, es: seq<Entry>, end: nat)
    requires at <= |buff| && DecodeEntry(buff, at) == Some((e, mid)) && mid <= |buff|
             && DecodeEntries(buff, mid, n) == Some((es, end))
    ensures DecodeEntries(buff, at, n + 1) == Some(([e] + es, end))
  {
  }

  lemma TupleStep(buff: seq<Byte>, at: nat, ref: Value, mid: nat, k: Value, mid': nat, n: nat, end: nat)
    requires at <= |buff| && DecodeValue(buff, at) == Some((ref, mid)) && ref.RefValue? && mid <= |buff|
             && DecodeValue(buff, mid) == Some((k, mid'))
    requires DecodeNat(buff, mid', 8) == Some((n, end))
    ensures DecodeTuple(buff, at) == Some((MetaTuple(ref, KeyOf(k), n), end))
  {
  }

  lemma TuplesStep(buff: seq<Byte>, at: nat, n: nat, t: MetaTuple, mid: nat, ts: seq<MetaTuple>, end: nat)
    requires at <= |buff| && DecodeTuple(buff, at) == Some((t, mid)) && mid <= |buff|
             && DecodeTuples(buff, mid, n) == Some((ts, end))
    ensures DecodeTuples(buff, at, n + 1) == Some(([t] + ts, end))
  {
  }

  // ---------- round trip ----------

  /** What a value of one constructor holds. */
  lemma Parts(v: Value)
    requires WellFormed(v)
    ensures Writable(TypeOf(v))
  {
  }

  /** Reading a value that was written gives the value, and goes on right after it. */
  lemma {:induction false} ValueRoundTrip(buff: seq<Byte>, at: nat, v: Value)
    requires WellFormed(v) && HeldAt(buff, at, EncodeValue(v))
    ensures at <= |buff| && DecodeValue(buff, at) == Some((v, at + |EncodeValue(v)|))
    decreases v, 1
  {
    hide HeldAt, WellFormed, DecodeValue, DecodeBody, EncodeBody, DecodeType, EncodeType, TypeOf, Writable;
    var mid := at + |EncodeType(TypeOf(v))|;
    Parts(v);
    HeldBoth(buff, at, EncodeType(TypeOf(v)), EncodeBody(v));
    TypeRoundTrip(buff, at, TypeOf(v));
    BodyRoundTrip(buff, mid, v);
    ValueStep(buff, at, TypeOf(v), mid, v, mid + |EncodeBody(v)|);
  }

  lemma {:induction false} BodyRoundTrip(buff: seq<Byte>, at: nat, v: Value)
    requires WellFormed(v) && HeldAt(buff, at, EncodeBody(v))
    ensures at <= |buff| && DecodeBody(buff, at, TypeOf(v)) == Some((v, at + |EncodeBody(v)|))
    decreases v, 0
  {
    hide HeldAt, DecodeBody, Writable, DecodeType, EncodeType, EncodeBool, EncodeString, EncodeVarint, Power256, Write,
         Read;
    match v {
      case BoolValue(b) => ScalarRoundTrip(buff, at, v);
      case NumberValue(i, exp) => ScalarRoundTrip(buff, at, v);
      case StringValue(s) => ScalarRoundTrip(buff, at, v);
      case TypeValue(t) => ScalarRoundTrip(buff, at, v);
      case BlobLeaf(data) => BlobRoundTrip(buff, at, data);
      case ListLeaf(t, vs) =>
        LeafRoundTrip(buff, at, t, vs);
      case SetLeaf(t, vs) =>
        LeafRoundTrip(buff, at, t, vs);
      case MapLeaf(t, es) =>
        MapLeafRoundTrip(buff, at, t, es);
      case Meta(t, ts) =>
        MetaRoundTrip(buff, at, t, ts);
      case RefValue(t, h, height) =>
        RefRoundTrip(buff, at, t, h, height);
      case StructValue(t, vs) =>
        ValuesRoundTrip(buff, at, vs);
        StructValueStep(buff, at, t, vs, at + |EncodeValues(vs)|);
    }
  }

  predicate IsScalar(v: Value) {
    v.BoolValue? || v.NumberValue? || v.StringValue? || v.TypeValue?
  }

  lemma ScalarRoundTrip(buff: seq<Byte>, at: nat, v: Value)
    requires IsScalar(v) && WellFormed(v) && HeldAt(buff, at, EncodeBody(v))
    ensures at <= |buff| && DecodeBody(buff, at, TypeOf(v)) == Some((v, at + |EncodeBody(v)|))
  {
    hide DecodeBody, DecodeType, EncodeType, EncodeString, DecodeString, EncodeVarint, DecodeVarint, Power256;
    match v {
      case BoolValue(b) =>
        assert buff[at] == EncodeBool(b)[0];
      case NumberValue(i, exp) =>
        HeldBoth(buff, at, EncodeVarint(i), EncodeVarint(exp));
        VarintRoundTrip(buff, at, i);
        VarintRoundTrip(buff, at + |EncodeVarint(i)|, exp);
      case StringValue(s) =>
        StringRoundTrip(buff, at, s);
      case TypeValue(t) =>
        TypeRoundTrip(buff, at, t);
    }
    ScalarStep(buff, at, TypeOf(v), v, at + |EncodeBody(v)|);
  }

  lemma RefRoundTrip(buff: seq<Byte>, at: nat, t: Type, h: seq<Byte>, height: nat)
    requires t.RefType? && |h| == HASH_SIZE && height < Power256(8) && HeldAt(buff, at, h + Write(height, 8))
    ensures at <= |buff| && DecodeBody(buff, at, t) == Some((RefValue(t, h, height), at + HASH_SIZE + 8))
  {
    HeldBoth(buff, at, h, Write(height, 8));
    ReadWrite(height, 8);
  }

  lemma BlobRoundTrip(buff: seq<Byte>, at: nat, data: seq<Byte>)
    requires |data| < Power256(4) && HeldAt(buff, at, EncodeBool(false) + EncodeString(data))
    ensures at <= |buff| && DecodeBody(buff, at, Primitive(BLOB_KIND))
            == Some((BlobLeaf(data), at + 1 + |EncodeString(data)|))
  {
    hide DecodeBody, DecodeSequence, EncodeString, DecodeString;
    HeldBoth(buff, at, EncodeBool(false), EncodeString(data));
    StringRoundTrip(buff, at + 1, data);
    HeldWithin(buff, at + 1, EncodeString(data));
    BlobStep(buff, at + 1, data, at + 1 + |EncodeString(data)|);
    SequenceStep(buff, at, Primitive(BLOB_KIND), false, BlobLeaf(data), at + 1 + |EncodeString(data)|);
  }

  /** The flag and the count in front of the items of a sequence. */
  lemma CountFirst(buff: seq<Byte>, at: nat, isMeta: bool, n: nat, items: seq<Byte>)
    requires n < Power256(4) && HeldAt(buff, at, EncodeBool(isMeta) + (Write(n, 4) + items))
    ensures HeldAt(buff, at, EncodeBool(isMeta)) && DecodeNat(buff, at + 1, 4) == Some((n, at + 5))
            && HeldAt(buff, at + 5, items)
    ensures at + 5 + |items| <= |buff|
  {
    HeldBoth(buff, at, EncodeBool(isMeta), Write(n, 4) + items);
    HeldBoth(buff, at + 1, Write(n, 4), items);
    NatRoundTrip(buff, at + 1, n, 4);
  }

  lemma {:induction false} LeafRoundTrip(buff: seq<Byte>, at: nat, t: Type, vs: seq<Value>)
    requires (t.ListType? || t.SetType?) && |vs| < Power256(4) && WellFormedValues(vs)
    requires HeldAt(buff, at, EncodeBool(false) + (Write(|vs|, 4) + EncodeValues(vs)))
    ensures at <= |buff| && DecodeBody(buff, at, t)
            == Some((if t.ListType? then ListLeaf(t, vs) else SetLeaf(t, vs), at + 5 + |EncodeValues(vs)|))
    decreases vs, 3
  {
    hide HeldAt, WellFormed, DecodeBody, DecodeSequence, DecodeValues, EncodeValues, DecodeNat, Write, Power256,
         EncodeBool;
    CountFirst(buff, at, false, |vs|, EncodeValues(vs));
    ValuesRoundTrip(buff, at + 5, vs);
    var end := at + 5 + |EncodeValues(vs)|;
    LeafStep(buff, at + 1, t, |vs|, at + 5, vs, end);
    SequenceStep(buff, at, t, false, if t.ListType? then ListLeaf(t, vs) else SetLeaf(t, vs), end);
  }

  lemma {:induction false} MapLeafRoundTrip(buff: seq<Byte>, at: nat, t: Type, es: seq<Entry>)
    requires t.MapType? && |es| < Power256(4) && WellFormedEntries(es)
    requires HeldAt(buff, at, EncodeBool(false) + (Write(|es|, 4) + EncodeEntries(es)))
    ensures at <= |buff| && DecodeBody(buff, at, t) == Some((MapLeaf(t, es), at + 5 + |EncodeEntries(es)|))
    decreases es, 3
  {
    hide HeldAt, WellFormed, DecodeBody, DecodeSequence, DecodeEntries, EncodeEntries, DecodeNat, Write, Power256,
         EncodeBool;
    CountFirst(buff, at, false, |es|, EncodeEntries(es));
    EntriesRoundTrip(buff, at + 5, es);
    var end := at + 5 + |EncodeEntries(es)|;
    MapLeafStep(buff, at + 1, t, |es|, at + 5, es, end);
    SequenceStep(buff, at, t, false, MapLeaf(t, es), end);
  }

  lemma {:induction false} MetaRoundTrip(buff: seq<Byte>, at: nat, t: Type, ts: seq<MetaTuple>)
    requires IsChunkedType(t) && |ts| < Power256(4) && WellFormedTuples(ts)
    requires HeldAt(buff, at, EncodeBool(true) + (Write(|ts|, 4) + EncodeTuples(ts)))
    ensures at <= |buff| && DecodeBody(buff, at, t) == Some((Meta(t, ts), at + 5 + |EncodeTuples(ts)|))
    decreases ts, 3
  {
    hide HeldAt, WellFormedTuple, DecodeBody, DecodeSequence, DecodeTuples, EncodeTuples, DecodeNat, Write, Power256,
         EncodeBool;
    CountFirst(buff, at, true, |ts|, EncodeTuples(ts));
    TuplesRoundTrip(buff, at + 5, ts);
    var end := at + 5 + |EncodeTuples(ts)|;
    MetaStep(buff, at + 1, t, |ts|, at + 5, ts, end);
    SequenceStep(buff, at, t, true, Meta(t, ts), end);
  }

  lemma {:induction false} ValuesFirst(vs: seq<Value>)
    requires vs != []
    ensures EncodeValues(vs) == EncodeValue(vs[0]) + EncodeValues(vs[1..])
    ensures [vs[0]] + vs[1..] == vs
    ensures WellFormedValues(vs) ==> WellFormed(vs[0]) && WellFormedValues(vs[1..])
  {
    hide WellFormed;
  }

  lemma NoValues(buff: seq<Byte>, at: nat)
    requires HeldAt(buff, at, EncodeValues([]))
    ensures at <= |buff| && DecodeValues(buff, at, 0) == Some(([], at)) && EncodeValues([]) == []
  {
  }

  lemma {:induction false} ValuesRoundTrip(buff: seq<Byte>, at: nat, vs: seq<Value>)
    requires WellFormedValues(vs) && HeldAt(buff, at, EncodeValues(vs))
    ensures at <= |buff| && DecodeValues(buff, at, |vs|) == Some((vs, at + |EncodeValues(vs)|))
    decreases vs, 2
  {
    hide *;
    if vs == [] {
      NoValues(buff, at);
    } else {
      var v, rest := vs[0], vs[1..];
      ValuesFirst(vs);
      HeldBoth(buff, at, EncodeValue(v), EncodeValues(rest));
      ValueRoundTrip(buff, at, v);
      var m := at + |EncodeValue(v)|;
      ValuesRoundTrip(buff, m, rest);
      ValuesStep(buff, at, |rest|, v, m, rest, m + |EncodeValues(rest)|);
    }
  }

  lemma {:induction false} EntryRoundTrip(buff: seq<Byte>, at: nat, e: Entry)
    requires WellFormed(e.key) && WellFormed(e.value) && HeldAt(buff, at, EncodeEntry(e))
    ensures at <= |buff| && DecodeEntry(buff, at) == Some((e, at + |EncodeEntry(e)|))
    decreases e, 2
  {
    hide HeldAt, WellFormed, DecodeValue, EncodeValue, DecodeEntry;
    var m := at + |EncodeValue(e.key)|;
    HeldBoth(buff, at, EncodeValue(e.key), EncodeValue(e.value));
    ValueRoundTrip(buff, at, e.key);
    ValueRoundTrip(buff, m, e.value);
    EntryStep(buff, at, e.key, m, e.value, m + |EncodeValue(e.value)|);
    assert Entry(e.key, e.value) == e;
  }

  lemma {:induction false} EntriesFirst(es: seq<Entry>)
    requires es != []
    ensures EncodeEntries(es) == EncodeEntry(es[0]) + EncodeEntries(es[1..])
    ensures [es[0]] + es[1..] == es
    ensures WellFormedEntries(es) ==> WellFormed(es[0].key) && WellFormed(es[0].value) && WellFormedEntries(es[1..])
  {
    hide WellFormed;
  }

  lemma NoEntries(buff: seq<Byte>, at: nat)
    requires HeldAt(buff, at, EncodeEntries([]))
    ensures at <= |buff| && DecodeEntries(buff, at, 0) == Some(([], at)) && EncodeEntries([]) == []
  {
  }

  lemma {:induction false} EntriesRoundTrip(buff: seq<Byte>, at: nat, es: seq<Entry>)
    requires WellFormedEntries(es) && HeldAt(buff, at, EncodeEntries(es))
    ensures at <= |buff| && DecodeEntries(buff, at, |es|) == Some((es, at + |EncodeEntries(es)|))
    decreases es, 2
  {
    hide *;
    if es == [] {
      NoEntries(buff, at);
    } else {
      var e, rest := es[0], es[1..];
      EntriesFirst(es);
      HeldBoth(buff, at, EncodeEntry(e), EncodeEntries(rest));
      EntryRoundTrip(buff, at, e);
      var m := at + |EncodeEntry(e)|;
      EntriesRoundTrip(buff, m, rest);
      EntriesStep(buff, at, |rest|, e, m, rest, m + |EncodeEntries(rest)|);
    }
  }

  /** A key reads back as it was, whichever way it was written. */
  lemma {:induction false} KeyRoundTrip(buff: seq<Byte>, at: nat, t: MetaTuple)
    requires WellFormedTuple(t) && HeldAt(buff, at, EncodeKey(t.key))
    ensures at <= |buff| && DecodeValue(buff, at) == Some((KeyValue(t.key), at + |EncodeKey(t.key)|))
            && KeyOf(KeyValue(t.key)) == t.key
    decreases t, 1
  {
    hide HeldAt, WellFormed, DecodeValue, EncodeValue, DecodeBody, DecodeType, EncodeType, Power256, Write, IsEmptyHash;
    match t.key {
      case ByValue(v) =>
        ValueRoundTrip(buff, at, v);
      case ByHash(h) =>
        HashKeyRoundTrip(buff, at, h);
    }
  }

  lemma HashKeyRoundTrip(buff: seq<Byte>, at: nat, h: seq<Byte>)
    requires |h| == HASH_SIZE && HeldAt(buff, at, EncodeKey(ByHash(h)))
    ensures at <= |buff| && DecodeValue(buff, at) == Some((KeyValue(ByHash(h)), at + |EncodeKey(ByHash(h))|))
  {
    hide HeldAt, DecodeBody, DecodeType, EncodeType, DecodeValue;
    var t := RefType(Primitive(BOOL_KIND));
    var mid := at + |EncodeType(t)|;
    HeldBoth(buff, at, EncodeType(t), h + Write(0, 8));
    TypeRoundTrip(buff, at, t);
    RefRoundTrip(buff, mid, t, h, 0);
    ValueStep(buff, at, t, mid, RefValue(t, h, 0), mid + HASH_SIZE + 8);
  }

  lemma {:induction false} TupleRoundTrip(buff: seq<Byte>, at: nat, t: MetaTuple)
    requires WellFormedTuple(t) && HeldAt(buff, at, EncodeTuple(t))
    ensures at <= |buff| && DecodeTuple(buff, at) == Some((t, at + |EncodeTuple(t)|))
    decreases t, 2
  {
    hide HeldAt, WellFormed, DecodeValue, EncodeValue, EncodeKey, DecodeTuple, DecodeNat, Write, Power256, KeyOf,
         KeyValue;
    var k := at + |EncodeValue(t.ref)|;
    var n := k + |EncodeKey(t.key)|;
    HeldBoth(buff, at, EncodeValue(t.ref), EncodeKey(t.key) + Write(t.numLeaves, 8));
    HeldBoth(buff, k, EncodeKey(t.key), Write(t.numLeaves, 8));
    ValueRoundTrip(buff, at, t.ref);
    KeyRoundTrip(buff, k, t);
    NatRoundTrip(buff, n, t.numLeaves, 8);
    TupleStep(buff, at, t.ref, k, KeyValue(t.key), n, t.numLeaves, n + 8);
    assert MetaTuple(t.ref, t.key, t.numLeaves) == t;
  }

  lemma {:induction false} TuplesFirst(ts: seq<MetaTuple>)
    requires ts != []
    ensures EncodeTuples(ts) == EncodeTuple(ts[0]) + EncodeTuples(ts[1..])
    ensures [ts[0]] + ts[1..] == ts
    ensures WellFormedTuples(ts) ==> WellFormedTuple(ts[0]) && WellFormedTuples(ts[1..])
  {
    hide WellFormedTuple;
  }

  lemma NoTuples(buff: seq<Byte>, at: nat)
    requires HeldAt(buff, at, EncodeTuples([]))
    ensures at <= |buff| && DecodeTuples(buff, at, 0) == Some(([], at)) && EncodeTuples([]) == []
  {
  }

  lemma {:induction false} TuplesRoundTrip(buff: seq<Byte>, at: nat, ts: seq<MetaTuple>)
    requires WellFormedTuples(ts) && HeldAt(buff, at, EncodeTuples(ts))
    ensures at <= |buff| && DecodeTuples(buff, at, |ts|) == Some((ts, at + |EncodeTuples(ts)|))
    decreases ts, 2
  {
    hide *;
    if ts == [] {
      NoTuples(buff, at);
    } else {
      var t, rest := ts[0], ts[1..];
      TuplesFirst(ts);
      HeldBoth(buff, at, EncodeTuple(t), EncodeTuples(rest));
      TupleRoundTrip(buff, at, t);
      var m := at + |EncodeTuple(t)|;
      TuplesRoundTrip(buff, m, rest);
      TuplesStep(buff, at, |rest|, t, m, rest, m + |EncodeTuples(rest)|);
    }
  }

  /** With any bytes after it, a value is read back, and exactly those bytes are left. */
  lemma Leftover(v: Value, rest: seq<Byte>)
    requires WellFormed(v)
    ensures DecodeValue(EncodeValue(v) + rest, 0) == Some((v, |EncodeValue(v)|))
    ensures (EncodeValue(v) + rest)[|EncodeValue(v)|..] == rest
  {
    hide WellFormed, EncodeValue, DecodeValue;
    ValueRoundTrip(EncodeValue(v) + rest, 0, v);
  }

  /** No two values have the same bytes, and the bytes of one do not begin the bytes of another. */
  lemma Injective(v: Value, w: Value)
    requires WellFormed(v) && WellFormed(w) && EncodeValue(v) <= EncodeValue(w)
    ensures v == w
  {
    hide WellFormed, EncodeValue, DecodeValue;
    var rest := EncodeValue(w)[|EncodeValue(v)|..];
    assert EncodeValue(v) + rest == EncodeValue(w) == EncodeValue(w) + [];
    Leftover(v, rest);
    Leftover(w, []);
  }
}
