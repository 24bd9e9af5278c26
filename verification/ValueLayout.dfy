/** The bytes of types and values, one by one: nothing here is told in terms of reading them back. */
module ValueLayout {
  import opened ByteSeqs
  import opened TypeCodec
  import opened ValueCodec

  // ---------- numbers ----------

  function Power128(k: nat): (p: nat)
    ensures p > 0
  {
    if k == 0 then 1 else 128 * Power128(k - 1)
  }

  /**
   Seven bits to a byte, the least significant first, and in all but the last byte the eighth bit is set; there is no
   byte more than the number needs.
   */
  lemma {:induction false} UvarintBytes(n: nat, i: nat)
    requires i < |EncodeUvarint(n)|
    ensures var last := |EncodeUvarint(n)| - 1;
            && n < Power128(last + 1) && (last > 0 ==> Power128(last) <= n)
            && EncodeUvarint(n)[i] == n / Power128(i) % 128 + if i < last then 128 else 0
  {
    if n < 128 {
      assert Power128(0) == 1 && Power128(1) == 128 * Power128(0);
    } else {
      MoreBytes(n, i);
      UvarintBytes(n / 128, if i == 0 then 0 else i - 1);
    }
  }

  /** The first byte of several, and those after it. */
  lemma MoreBytes(n: nat, i: nat)
    requires n >= 128
    ensures EncodeUvarint(n) == [n % 128 + 128] + EncodeUvarint(n / 128)
    ensures var k := |EncodeUvarint(n / 128)|;
            && (n / 128 < Power128(k) ==> n < Power128(k + 1)) && (Power128(k - 1) <= n / 128 ==> Power128(k) <= n)
    ensures n / Power128(0) == n && (i > 0 ==> n / Power128(i) == n / 128 / Power128(i - 1))
  {
    var k := |EncodeUvarint(n / 128)|;
    assert Power128(k + 1) == 128 * Power128(k) && Power128(k) == 128 * Power128(k - 1);
    if i > 0 {
      DivDiv128(n, Power128(i - 1));
      assert Power128(i) == 128 * Power128(i - 1);
    }
  }

  lemma DivDiv128(n: nat, p: nat)
    requires p > 0
    ensures n / 128 / p == n / (128 * p)
  {
    var m := n / 128;
    var q, r := m / p, m % p;
    assert n == 128 * (q * p + r) + n % 128 && r <= p - 1;
    Quotient(n, 128 * p, q, 128 * r + n % 128);
  }

  /** Signed numbers take turns: 0, -1, 1, -2, 2 are written as 0, 1, 2, 3, 4. */
  lemma VarintBytes(i: int)
    ensures EncodeVarint(i) == EncodeUvarint(if i < 0 then -2 * i - 1 else 2 * i)
  {
  }

  // ---------- types ----------

  lemma StringBytes(s: seq<Byte>)
    ensures EncodeString(s) == Bytes4(|s|) + s
  {
    FourBytes(|s|);
  }

  lemma FieldBytes(f: Field)
    ensures EncodeField(f) == Bytes4(|f.name|) + f.name + EncodeType(f.fieldType)
  {
    StringBytes(f.name);
  }

  /** What each type begins with, and what follows. */
  lemma TypeBytes(t: Type)
    ensures match t
            case Primitive(k) => EncodeType(t) == [k]
            case ListType(e) => EncodeType(t) == [5] + EncodeType(e)
            case MapType(k, v) => EncodeType(t) == [6] + EncodeType(k) + EncodeType(v)
            case RefType(e) => EncodeType(t) == [7] + EncodeType(e)
            case SetType(e) => EncodeType(t) == [8] + EncodeType(e)
            case StructType(name, fields) =>
              EncodeType(t) == [9] + Bytes4(|name|) + name + Bytes4(|fields|) + EncodeFields(fields)
            case CycleType(i) => EncodeType(t) == [11] + Bytes4(i)
            case UnionType(ts) => EncodeType(t) == [12] + Bytes4(|ts|) + EncodeTypes(ts)
  {
    hide Write, Bytes4, EncodeString, EncodeFields, EncodeTypes;
    match t {
      case StructType(name, fields) =>
        StringBytes(name);
        FourBytes(|fields|);
      case CycleType(i) => FourBytes(i);
      case UnionType(ts) => FourBytes(|ts|);
      case _ =>
    }
  }

  /** The types of a union, and the fields of a struct, follow one another in order. */
  lemma {:induction false} TypesInOrder(ts: seq<Type>, us: seq<Type>)
    ensures EncodeTypes(ts + us) == EncodeTypes(ts) + EncodeTypes(us)
    ensures |ts| == 1 ==> EncodeTypes(ts) == EncodeType(ts[0])
  {
    hide EncodeType;
    if ts == [] {
      assert ts + us == us;
    } else {
      assert (ts + us)[1..] == ts[1..] + us;
      TypesInOrder(ts[1..], us);
    }
  }

  lemma {:induction false} FieldsInOrder(fs: seq<Field>, gs: seq<Field>)
    ensures EncodeFields(fs + gs) == EncodeFields(fs) + EncodeFields(gs)
    ensures |fs| == 1 ==> EncodeFields(fs) == EncodeField(fs[0])
  {
    hide EncodeField;
    if fs == [] {
      assert fs + gs == gs;
    } else {
      assert (fs + gs)[1..] == fs[1..] + gs;
      FieldsInOrder(fs[1..], gs);
    }
  }

  // ---------- values ----------

  /** The type of a collection, whether it is in several chunks, how many elements or chunks it has, and then these. */
  lemma CountedBytes(v: Value, type': seq<Byte>, meta: bool, count: nat, rest: seq<Byte>)
    requires EncodeType(TypeOf(v)) == type' && EncodeBody(v) == EncodeBool(meta) + (Write(count, 4) + rest)
    ensures EncodeValue(v) == type' + [if meta then 1 else 0] + Bytes4(count) + rest
  {
    FourBytes(count);
    hide EncodeType, EncodeBody, Write, Bytes4;
  }

  /** What each value begins with, and what follows. */
  lemma ValueBytes(v: Value)
    requires WellFormed(v)
    ensures match v
            case BoolValue(b) => EncodeValue(v) == [0, if b then 1 else 0]
            case NumberValue(i, exp) => EncodeValue(v) == [1] + EncodeVarint(i) + EncodeVarint(exp)
            case StringValue(s) => EncodeValue(v) == [2] + Bytes4(|s|) + s
            case BlobLeaf(data) => EncodeValue(v) == [3] + [0] + Bytes4(|data|) + data
            case ListLeaf(t, vs) => EncodeValue(v) == [5] + EncodeType(t.elem) + [0] + Bytes4(|vs|) + EncodeValues(vs)
            case MapLeaf(t, es) =>
              EncodeValue(v) == [6] + EncodeType(t.key) + EncodeType(t.value) + [0] + Bytes4(|es|) + EncodeEntries(es)
            case RefValue(t, h, height) =>
              EncodeValue(v) == [7] + EncodeType(t.target) + h + Bytes8(height) && |h| == 20
            case SetLeaf(t, vs) => EncodeValue(v) == [8] + EncodeType(t.elem) + [0] + Bytes4(|vs|) + EncodeValues(vs)
            case StructValue(t, vs) => EncodeValue(v) == EncodeType(t) + EncodeValues(vs) && EncodeValue(v)[0] == 9
            case TypeValue(t) => EncodeValue(v) == [10] + EncodeType(t)
            case Meta(t, ts) => EncodeValue(v) == EncodeType(t) + [1] + Bytes4(|ts|) + EncodeTuples(ts)
  {
    TypeBytes(TypeOf(v));
    hide EncodeType, Writable, Bytes4, Bytes8, Write, EncodeString;
    match v {
      case BoolValue(_) =>
      case NumberValue(_, _) =>
      case StringValue(s) => StringBytes(s);
      case BlobLeaf(data) =>
        BlobBody(data);
        CountedBytes(v, [3], false, |data|, data);
      case ListLeaf(t, vs) => CountedBytes(v, [5] + EncodeType(t.elem), false, |vs|, EncodeValues(vs));
      case SetLeaf(t, vs) => CountedBytes(v, [8] + EncodeType(t.elem), false, |vs|, EncodeValues(vs));
      case MapLeaf(t, es) =>
        CountedBytes(v, [6] + EncodeType(t.key) + EncodeType(t.value), false, |es|, EncodeEntries(es));
      case Meta(t, ts) => CountedBytes(v, EncodeType(t), true, |ts|, EncodeTuples(ts));
      case RefValue(t, h, height) =>
        EightBytes(height);
        assert [7] + EncodeType(t.target) + (h + Bytes8(height)) == [7] + EncodeType(t.target) + h + Bytes8(height);
      case StructValue(_, _) =>
      case TypeValue(_) =>
    }
  }

  lemma BlobBody(data: seq<Byte>)
    ensures EncodeBody(BlobLeaf(data)) == EncodeBool(false) + (Write(|data|, 4) + data)
  {
    hide Write, EncodeBool, EncodeType, EncodeValues, EncodeEntries, EncodeTuples;
  }

  /** The values that are ordered by themselves are those that begin with 0, 1 or 2; the others are ordered by hash. */
  lemma OrderedExactly(v: Value)
    requires WellFormed(v)
    ensures IsOrderedByValue(v) <==> EncodeValue(v)[0] <= 2
  {
    ValueBytes(v);
    if v.Meta? {
      TypeBytes(v.t);
    }
    hide EncodeValue, EncodeType, WellFormed, Bytes4, Bytes8;
  }

  /** A chunk of a larger collection: where it is, its key, by value or as if it were a reference, and its size. */
  lemma TupleBytes(t: MetaTuple)
    ensures EncodeTuple(t) == EncodeValue(t.ref) + EncodeKey(t.key) + Bytes8(t.numLeaves)
    ensures match t.key
            case ByValue(v) => EncodeKey(t.key) == EncodeValue(v)
            case ByHash(h) => EncodeKey(t.key) == [7, 0] + h + [0, 0, 0, 0, 0, 0, 0, 0]
  {
    EightBytes(t.numLeaves);
    EightBytes(0);
    TypeBytes(RefType(Primitive(0)));
    TypeBytes(Primitive(0));
  }

  /** Elements, entries and chunks follow one another in order, and in an entry the value follows the key. */
  lemma {:induction false} ValuesInOrder(vs: seq<Value>, us: seq<Value>)
    ensures EncodeValues(vs + us) == EncodeValues(vs) + EncodeValues(us)
    ensures |vs| == 1 ==> EncodeValues(vs) == EncodeValue(vs[0])
  {
    hide EncodeValue;
    if vs == [] {
      assert vs + us == us;
    } else {
      assert (vs + us)[1..] == vs[1..] + us;
      ValuesInOrder(vs[1..], us);
    }
  }

  lemma {:induction false} EntriesInOrder(es: seq<Entry>, us: seq<Entry>)
    ensures EncodeEntries(es + us) == EncodeEntries(es) + EncodeEntries(us)
    ensures |es| == 1 ==> EncodeEntries(es) == EncodeValue(es[0].key) + EncodeValue(es[0].value)
  {
    hide EncodeValue;
    if es == [] {
      assert es + us == us;
    } else {
      assert (es + us)[1..] == es[1..] + us;
      EntriesInOrder(es[1..], us);
    }
  }

  lemma {:induction false} TuplesInOrder(ts: seq<MetaTuple>, us: seq<MetaTuple>)
    ensures EncodeTuples(ts + us) == EncodeTuples(ts) + EncodeTuples(us)
    ensures |ts| == 1 ==> EncodeTuples(ts) == EncodeTuple(ts[0])
  {
    hide EncodeTuple;
    if ts == [] {
      assert ts + us == us;
    } else {
      assert (ts + us)[1..] == ts[1..] + us;
      TuplesInOrder(ts[1..], us);
    }
  }

  /** The string "a", and the numbers -1 and 100. */
  lemma BytesExample()
    ensures EncodeValue(StringValue([97])) == [2, 0, 0, 0, 1, 97]
    ensures EncodeValue(NumberValue(-1, 0)) == [1, 1, 0] && EncodeValue(NumberValue(100, 0)) == [1, 200, 1, 0]
  {
    Powers();
    hide Power256;
    ValueBytes(StringValue([97]));
    ValueBytes(NumberValue(-1, 0));
    ValueBytes(NumberValue(100, 0));
    hide EncodeValue, WellFormed;
    assert EncodeUvarint(200) == [200] + EncodeUvarint(1);
  }
}
