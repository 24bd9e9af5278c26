/** Types as bytes. */
module TypeCodec {
  import opened Options
  import opened ByteSeqs

  const BOOL_KIND: Byte := 0
  const NUMBER_KIND: Byte := 1
  const STRING_KIND: Byte := 2
  const BLOB_KIND: Byte := 3
  const VALUE_KIND: Byte := 4
  const LIST_KIND: Byte := 5
  const MAP_KIND: Byte := 6
  const REF_KIND: Byte := 7
  const SET_KIND: Byte := 8
  const STRUCT_KIND: Byte := 9
  const TYPE_KIND: Byte := 10
  const CYCLE_KIND: Byte := 11
  const UNION_KIND: Byte := 12

  predicate IsPrimitiveKind(k: Byte) {
    k == BOOL_KIND || k == NUMBER_KIND || k == STRING_KIND || k == BLOB_KIND || k == VALUE_KIND || k == TYPE_KIND
  }

  /** A type in which a cycle is a number of structs to go back. */
  datatype Type =
    | Primitive(kind: Byte)
    | ListType(elem: Type)
    | MapType(key: Type, value: Type)
    | RefType(target: Type)
    | SetType(elem: Type)
    | StructType(name: seq<Byte>, fields: seq<Field>)
    | CycleType(level: nat)
    | UnionType(elems: seq<Type>)

  datatype Field = Field(name: seq<Byte>, fieldType: Type)

  /** Every number fits the width it is written in. */
  ghost predicate Writable(t: Type)
    decreases t
  {
    match t
    case Primitive(k) => IsPrimitiveKind(k)
    case ListType(e) => Writable(e)
    case MapType(k, v) => Writable(k) && Writable(v)
    case RefType(e) => Writable(e)
    case SetType(e) => Writable(e)
    case StructType(name, fields) =>
      |name| < Power256(4) && |fields| < Power256(4)
        && forall i :: 0 <= i < |fields| ==> |fields[i].name| < Power256(4) && Writable(fields[i].fieldType)
    case CycleType(i) => i < Power256(4)
    case UnionType(ts) => |ts| < Power256(4) && forall i :: 0 <= i < |ts| ==> Writable(ts[i])
  }

  ghost predicate WritableFields(fields: seq<Field>) {
    forall i :: 0 <= i < |fields| ==> |fields[i].name| < Power256(4) && Writable(fields[i].fieldType)
  }

  ghost predicate AllWritable(ts: seq<Type>) {
    forall i :: 0 <= i < |ts| ==> Writable(ts[i])
  }

  // ---------- encoding ----------

  function EncodeString(s: seq<Byte>): seq<Byte> {
    Write(|s|, 4) + s
  }

  function EncodeType(t: Type): (bytes: seq<Byte>)
    ensures bytes != []
    decreases t
  {
    match t
    case Primitive(k) => [k]
    case ListType(e) => [LIST_KIND] + EncodeType(e)
    case MapType(k, v) => [MAP_KIND] + (EncodeType(k) + EncodeType(v))
    case RefType(e) => [REF_KIND] + EncodeType(e)
    case SetType(e) => [SET_KIND] + EncodeType(e)
    case StructType(name, fields) => [STRUCT_KIND] + (EncodeString(name) + (Write(|fields|, 4) + EncodeFields(fields)))
    case CycleType(i) => [CYCLE_KIND] + Write(i, 4)
    case UnionType(ts) => [UNION_KIND] + (Write(|ts|, 4) + EncodeTypes(ts))
  }

  function EncodeTypes(ts: seq<Type>): seq<Byte>
    decreases ts
  {
    if ts == [] then [] else EncodeType(ts[0]) + EncodeTypes(ts[1..])
  }

  function EncodeFields(fields: seq<Field>): seq<Byte>
    decreases fields
  {
    if fields == [] then [] else EncodeField(fields[0]) + EncodeFields(fields[1..])
  }

  function EncodeField(f: Field): seq<Byte>
    decreases f, 0
  {
    EncodeString(f.name) + EncodeType(f.fieldType)
  }

  // ---------- decoding ----------

  /** What is read, and where reading goes on; nothing if the bytes are not the encoding of anything. */
  type Parse<T> = Option<(T, nat)>

  function DecodeNat(buff: seq<Byte>, at: nat, k: nat): (r: Parse<nat>)
    ensures r.Some? ==> r.value.1 == at + k <= |buff|
  {
    if at + k <= |buff| then Some((Read(buff[at..at + k]), at + k)) else None
  }

  function DecodeString(buff: seq<Byte>, at: nat): (r: Parse<seq<Byte>>)
    ensures r.Some? ==> at < r.value.1 <= |buff|
  {
    var n := DecodeNat(buff, at, 4);
    if n.Some? && n.value.1 + n.value.0 <= |buff|
       then Some((buff[n.value.1..n.value.1 + n.value.0], n.value.1 + n.value.0)) else None
  }

  function DecodeType(buff: seq<Byte>, at: nat): (r: Parse<Type>)
    requires at <= |buff|
    ensures r.Some? ==> at < r.value.1 <= |buff|
    decreases |buff| - at, 0
  {
    if at == |buff| then None
    else
      var k := buff[at];
      if k == LIST_KIND then
        var e := DecodeType(buff, at + 1);
        if e.None? then None else Some((ListType(e.value.0), e.value.1))
      else if k == MAP_KIND then
        var e := DecodeType(buff, at + 1);
        if e.None? then None
        else
          var v := DecodeType(buff, e.value.1);
          if v.None? then None else Some((MapType(e.value.0, v.value.0), v.value.1))
      else if k == REF_KIND then
        var e := DecodeType(buff, at + 1);
        if e.None? then None else Some((RefType(e.value.0), e.value.1))
      else if k == SET_KIND then
        var e := DecodeType(buff, at + 1);
        if e.None? then None else Some((SetType(e.value.0), e.value.1))
      else if k == STRUCT_KIND then
        var name := DecodeString(buff, at + 1);
        var n := if name.None? then None else DecodeNat(buff, name.value.1, 4);
        if n.None? then None
        else
          var fields := DecodeFields(buff, n.value.1, n.value.0);
          if fields.None? then None else Some((StructType(name.value.0, fields.value.0), fields.value.1))
      else if k == CYCLE_KIND then
        var n := DecodeNat(buff, at + 1, 4);
        if n.None? then None else Some((CycleType(n.value.0), n.value.1))
      else if k == UNION_KIND then
        var n := DecodeNat(buff, at + 1, 4);
        if n.None? then None
        else
          var ts := DecodeTypes(buff, n.value.1, n.value.0);
          if ts.None? then None else Some((UnionType(ts.value.0), ts.value.1))
      else if IsPrimitiveKind(k) then Some((Primitive(k), at + 1))
      else None
  }

  function DecodeTypes(buff: seq<Byte>, at: nat, n: nat): (r: Parse<seq<Type>>)
    requires at <= |buff|
    ensures r.Some? ==> at <= r.value.1 <= |buff|
    decreases |buff| - at, n + 1
  {
    if n == 0 then Some(([], at))
    else
      var t := DecodeType(buff, at);
      if t.None? then None
      else
        var ts := DecodeTypes(buff, t.value.1, n - 1);
        if ts.None? then None else Some(([t.value.0] + ts.value.0, ts.value.1))
  }

  function DecodeFields(buff: seq<Byte>, at: nat, n: nat): (r: Parse<seq<Field>>)
    requires at <= |buff|
    ensures r.Some? ==> at <= r.value.1 <= |buff|
    decreases |buff| - at, n + 1
  {
    if n == 0 then Some(([], at))
    else
      var f := DecodeField(buff, at);
      if f.None? then None
      else
        var fields := DecodeFields(buff, f.value.1, n - 1);
        if fields.None? then None else Some(([f.value.0] + fields.value.0, fields.value.1))
  }

  function DecodeField(buff: seq<Byte>, at: nat): (r: Parse<Field>)
    requires at <= |buff|
    ensures r.Some? ==> at < r.value.1 <= |buff|
    decreases |buff| - at, 0
  {
    var name := DecodeString(buff, at);
    var t := if name.None? then None else DecodeType(buff, name.value.1);
    if t.None? then None else Some((Field(name.value.0, t.value.0), t.value.1))
  }

  // ---------- round trip ----------

  lemma NatRoundTrip(buff: seq<Byte>, at: nat, n: nat, k: nat)
    requires HeldAt(buff, at, Write(n, k)) && n < Power256(k)
    ensures DecodeNat(buff, at, k) == Some((n, at + k))
  {
    ReadWrite(n, k);
  }

  lemma StringRoundTrip(buff: seq<Byte>, at: nat, s: seq<Byte>)
    requires HeldAt(buff, at, EncodeString(s)) && |s| < Power256(4)
    ensures DecodeString(buff, at) == Some((s, at + |EncodeString(s)|))
  {
    HeldBoth(buff, at, Write(|s|, 4), s);
    NatRoundTrip(buff, at, |s|, 4);
  }

  // one step of the decoder for each kind

  lemma UnaryStep(buff: seq<Byte>, at: nat, e: Type, end: nat)
    requires at < |buff| && DecodeType(buff, at + 1) == Some((e, end))
    ensures buff[at] == LIST_KIND ==> DecodeType(buff, at) == Some((ListType(e), end))
    ensures buff[at] == REF_KIND ==> DecodeType(buff, at) == Some((RefType(e), end))
    ensures buff[at] == SET_KIND ==> DecodeType(buff, at) == Some((SetType(e), end))
  {
  }

  lemma MapStep(buff: seq<Byte>, at: nat, k: Type, mid: nat, v: Type, end: nat)
    requires at < |buff| && buff[at] == MAP_KIND && DecodeType(buff, at + 1) == Some((k, mid)) && mid <= |buff|
             && DecodeType(buff, mid) == Some((v, end))
    ensures DecodeType(buff, at) == Some((MapType(k, v), end))
  {
  }

  lemma StructStep(buff: seq<Byte>, at: nat, name: seq<Byte>, mid: nat, n: nat, mid': nat, fields: seq<Field>, end: nat)
    requires at < |buff| && buff[at] == STRUCT_KIND && DecodeString(buff, at + 1) == Some((name, mid))
             && DecodeNat(buff, mid, 4) == Some((n, mid'))
    requires mid' <= |buff| && DecodeFields(buff, mid', n) == Some((fields, end))
    ensures DecodeType(buff, at) == Some((StructType(name, fields), end))
  {
  }

  lemma UnionStep(buff: seq<Byte>, at: nat, n: nat, mid: nat, ts: seq<Type>, end: nat)
    requires at < |buff| && buff[at] == UNION_KIND && DecodeNat(buff, at + 1, 4) == Some((n, mid)) && mid <= |buff|
             && DecodeTypes(buff, mid, n) == Some((ts, end))
    ensures DecodeType(buff, at) == Some((UnionType(ts), end))
  {
  }

  lemma CycleStep(buff: seq<Byte>, at: nat, n: nat, end: nat)
    requires at < |buff| && buff[at] == CYCLE_KIND && DecodeNat(buff, at + 1, 4) == Some((n, end))
    ensures DecodeType(buff, at) == Some((CycleType(n), end))
  {
  }

  lemma FieldStep(buff: seq<Byte>, at: nat, name: seq<Byte>, mid: nat, t: Type, end: nat)
    requires at <= |buff| && DecodeString(buff, at) == Some((name, mid)) && mid <= |buff|
             && DecodeType(buff, mid) == Some((t, end))
    ensures DecodeField(buff, at) == Some((Field(name, t), end))
  {
  }

  lemma FieldsStep(buff: seq<Byte>, at: nat, n: nat, f: Field, mid: nat, fields: seq<Field>, end: nat)
    requires at <= |buff| && DecodeField(buff, at) == Some((f, mid)) && mid <= |buff|
             && DecodeFields(buff, mid, n) == Some((fields, end))
    ensures DecodeFields(buff, at, n + 1) == Some(([f] + fields, end))
  {
  }

  /** The first byte, and what follows it. */
  lemma KindFirst(buff: seq<Byte>, at: nat, k: Byte, rest: seq<Byte>)
    requires HeldAt(buff, at, [k] + rest)
    ensures at < |buff| && buff[at] == k && HeldAt(buff, at + 1, rest)
  {
    HeldBoth(buff, at, [k], rest);
    assert buff[at..at + 1][0] == k;
  }

  lemma HeldWithin(buff: seq<Byte>, at: nat, bytes: seq<Byte>)
    requires HeldAt(buff, at, bytes)
    ensures at + |bytes| <= |buff|
  {
  }

  /** Reading a type that was written gives the type, and goes on right after it. */
  lemma {:induction false} TypeRoundTrip(buff: seq<Byte>, at: nat, t: Type)
    requires Writable(t) && HeldAt(buff, at, EncodeType(t))
    ensures at <= |buff| && DecodeType(buff, at) == Some((t, at + |EncodeType(t)|))
    decreases t, 2
  {
    hide DecodeType, HeldAt;
    match t {
      case Primitive(k) =>
        PrimitiveRoundTrip(buff, at, k);
      case ListType(e) =>
        UnaryRoundTrip(buff, at, LIST_KIND, e);
      case MapType(k, v) =>
        MapRoundTrip(buff, at, k, v);
      case RefType(e) =>
        UnaryRoundTrip(buff, at, REF_KIND, e);
      case SetType(e) =>
        UnaryRoundTrip(buff, at, SET_KIND, e);
      case StructType(name, fields) =>
        StructRoundTrip(buff, at, name, fields);
      case CycleType(i) =>
        CycleRoundTrip(buff, at, i);
      case UnionType(ts) =>
        UnionRoundTrip(buff, at, ts);
    }
  }

  lemma PrimitiveRoundTrip(buff: seq<Byte>, at: nat, k: Byte)
    requires IsPrimitiveKind(k) && HeldAt(buff, at, [k])
    ensures at <= |buff| && DecodeType(buff, at) == Some((Primitive(k), at + 1))
  {
    assert buff[at] == [k][0];
  }

  lemma CycleRoundTrip(buff: seq<Byte>, at: nat, i: nat)
    requires i < Power256(4) && HeldAt(buff, at, EncodeType(CycleType(i)))
    ensures at <= |buff| && DecodeType(buff, at) == Some((CycleType(i), at + 5))
  {
    KindFirst(buff, at, CYCLE_KIND, Write(i, 4));
    NatRoundTrip(buff, at + 1, i, 4);
    CycleStep(buff, at, i, at + 5);
  }

  lemma {:induction false} UnaryRoundTrip(buff: seq<Byte>, at: nat, k: Byte, e: Type)
    requires Writable(e) && HeldAt(buff, at, [k] + EncodeType(e))
    ensures at < |buff| && buff[at] == k && DecodeType(buff, at + 1) == Some((e, at + 1 + |EncodeType(e)|))
    ensures k == LIST_KIND ==> DecodeType(buff, at) == Some((ListType(e), at + 1 + |EncodeType(e)|))
    ensures k == REF_KIND ==> DecodeType(buff, at) == Some((RefType(e), at + 1 + |EncodeType(e)|))
    ensures k == SET_KIND ==> DecodeType(buff, at) == Some((SetType(e), at + 1 + |EncodeType(e)|))
    decreases e, 3
  {
    hide DecodeType, HeldAt, EncodeType, Writable;
    KindFirst(buff, at, k, EncodeType(e));
    TypeRoundTrip(buff, at + 1, e);
    UnaryStep(buff, at, e, at + 1 + |EncodeType(e)|);
  }

  lemma {:induction false} MapRoundTrip(buff: seq<Byte>, at: nat, k: Type, v: Type)
    requires Writable(k) && Writable(v) && HeldAt(buff, at, EncodeType(MapType(k, v)))
    ensures at <= |buff| && DecodeType(buff, at) == Some((MapType(k, v), at + |EncodeType(MapType(k, v))|))
    decreases MapType(k, v), 1
  {
    hide DecodeType, HeldAt;
    KindFirst(buff, at, MAP_KIND, EncodeType(k) + EncodeType(v));
    var mid := at + 1 + |EncodeType(k)|;
    HeldBoth(buff, at + 1, EncodeType(k), EncodeType(v));
    TypeRoundTrip(buff, at + 1, k);
    TypeRoundTrip(buff, mid, v);
    MapStep(buff, at, k, mid, v, mid + |EncodeType(v)|);
  }

  lemma {:induction false} StructRoundTrip(buff: seq<Byte>, at: nat, name: seq<Byte>, fields: seq<Field>)
    requires Writable(StructType(name, fields)) && HeldAt(buff, at, EncodeType(StructType(name, fields)))
    ensures at <= |buff| && DecodeType(buff, at)
            == Some((StructType(name, fields), at + |EncodeType(StructType(name, fields))|))
    decreases fields, 1
  {
    hide DecodeType, HeldAt, EncodeString, EncodeFields, DecodeFields, DecodeString, DecodeNat;
    var rest := Write(|fields|, 4) + EncodeFields(fields);
    KindFirst(buff, at, STRUCT_KIND, EncodeString(name) + rest);
    HeldBoth(buff, at + 1, EncodeString(name), rest);
    StringRoundTrip(buff, at + 1, name);
    var n := at + 1 + |EncodeString(name)|;
    HeldBoth(buff, n, Write(|fields|, 4), EncodeFields(fields));
    NatRoundTrip(buff, n, |fields|, 4);
    FieldsRoundTrip(buff, n + 4, fields);
    StructStep(buff, at, name, n, |fields|, n + 4, fields, n + 4 + |EncodeFields(fields)|);
  }

  lemma {:induction false} UnionRoundTrip(buff: seq<Byte>, at: nat, ts: seq<Type>)
    requires Writable(UnionType(ts)) && HeldAt(buff, at, EncodeType(UnionType(ts)))
    ensures at <= |buff| && DecodeType(buff, at) == Some((UnionType(ts), at + |EncodeType(UnionType(ts))|))
    decreases ts, 1
  {
    hide DecodeType, HeldAt, EncodeTypes, DecodeTypes, DecodeNat;
    KindFirst(buff, at, UNION_KIND, Write(|ts|, 4) + EncodeTypes(ts));
    HeldBoth(buff, at + 1, Write(|ts|, 4), EncodeTypes(ts));
    NatRoundTrip(buff, at + 1, |ts|, 4);
    TypesRoundTrip(buff, at + 5, ts);
    UnionStep(buff, at, |ts|, at + 5, ts, at + 5 + |EncodeTypes(ts)|);
  }

  lemma {:induction false} TypesFirst(ts: seq<Type>)
    requires ts != []
    ensures EncodeTypes(ts) == EncodeType(ts[0]) + EncodeTypes(ts[1..])
    ensures [ts[0]] + ts[1..] == ts
    ensures AllWritable(ts) ==> Writable(ts[0]) && AllWritable(ts[1..])
  {
    hide Writable;
  }

  lemma NoTypes(buff: seq<Byte>, at: nat)
    requires HeldAt(buff, at, EncodeTypes([]))
    ensures at <= |buff| && DecodeTypes(buff, at, 0) == Some(([], at)) && EncodeTypes([]) == []
  {
  }

  lemma {:induction false} TypesRoundTrip(buff: seq<Byte>, at: nat, ts: seq<Type>)
    requires AllWritable(ts) && HeldAt(buff, at, EncodeTypes(ts))
    ensures at <= |buff| && DecodeTypes(buff, at, |ts|) == Some((ts, at + |EncodeTypes(ts)|))
    decreases ts, 0
  {
    hide *;
    if ts == [] {
      NoTypes(buff, at);
    } else {
      var t, rest := ts[0], ts[1..];
      TypesFirst(ts);
      HeldBoth(buff, at, EncodeType(t), EncodeTypes(rest));
      TypeRoundTrip(buff, at, t);
      var m := at + |EncodeType(t)|;
      TypesRoundTrip(buff, m, rest);
      TypesStep(buff, at, |rest|, t, m, rest, m + |EncodeTypes(rest)|);
    }
  }

  lemma TypesStep(buff: seq<Byte>, at: nat, n: nat, t: Type, mid: nat, ts: seq<Type>, end: nat)
    requires at <= |buff| && DecodeType(buff, at) == Some((t, mid)) && mid <= |buff|
             && DecodeTypes(buff, mid, n) == Some((ts, end))
    ensures DecodeTypes(buff, at, n + 1) == Some(([t] + ts, end))
  {
  }

  lemma {:induction false} FieldRoundTrip(buff: seq<Byte>, at: nat, f: Field)
    requires |f.name| < Power256(4) && Writable(f.fieldType) && HeldAt(buff, at, EncodeField(f))
    ensures at <= |buff| && DecodeField(buff, at) == Some((f, at + |EncodeField(f)|))
    decreases f, 0
  {
    hide HeldAt, DecodeType, EncodeType, Writable, DecodeString, EncodeString, DecodeField, Power256;
    var mid := at + |EncodeString(f.name)|;
    HeldBoth(buff, at, EncodeString(f.name), EncodeType(f.fieldType));
    StringRoundTrip(buff, at, f.name);
    TypeRoundTrip(buff, mid, f.fieldType);
    HeldWithin(buff, at, EncodeString(f.name));
    FieldStep(buff, at, f.name, mid, f.fieldType, mid + |EncodeType(f.fieldType)|);
    assert Field(f.name, f.fieldType) == f;
  }

  lemma NoFields(buff: seq<Byte>, at: nat)
    requires HeldAt(buff, at, EncodeFields([]))
    ensures at <= |buff| && DecodeFields(buff, at, 0) == Some(([], at)) && EncodeFields([]) == []
  {
  }

  lemma {:induction false} FieldsFirst(fields: seq<Field>)
    requires fields != []
    ensures EncodeFields(fields) == EncodeField(fields[0]) + EncodeFields(fields[1..])
    ensures [fields[0]] + fields[1..] == fields
    ensures WritableFields(fields) ==> |fields[0].name| < Power256(4) && Writable(fields[0].fieldType)
                                       && WritableFields(fields[1..])
  {
    hide Writable, Power256;
  }

  lemma {:induction false} FieldsRoundTrip(buff: seq<Byte>, at: nat, fields: seq<Field>)
    requires WritableFields(fields) && HeldAt(buff, at, EncodeFields(fields))
    ensures at <= |buff| && DecodeFields(buff, at, |fields|) == Some((fields, at + |EncodeFields(fields)|))
    decreases fields, 0
  {
    hide *;
    if fields == [] {
      NoFields(buff, at);
    } else {
      var f, rest := fields[0], fields[1..];
      FieldsFirst(fields);
      HeldBoth(buff, at, EncodeField(f), EncodeFields(rest));
      FieldRoundTrip(buff, at, f);
      var m := at + |EncodeField(f)|;
      FieldsRoundTrip(buff, m, rest);
      FieldsStep(buff, at, |rest|, f, m, rest, m + |EncodeFields(rest)|);
    }
  }
}
