/** The writer and the reader that values go through. */
module Codec {
  import opened Options
  import opened ByteSeqs
  import opened TypeCodec
  import opened ValueCodec

  const INITIAL_BUFFER_SIZE: nat := 2048

  // ---------- writing ----------

  /** A buffer that doubles when it is full. */
  class BinaryNomsWriter {
    var buff: array<Byte>
    var offset: nat

    ghost predicate Valid()
      reads this
    {
      offset <= buff.Length && buff.Length > 0
    }

    function Data(): seq<Byte>
      requires Valid()
      reads this, buff
    {
      buff[..offset]
    }

    /** `bytes` were added, and nothing else changed. */
    twostate predicate Wrote(bytes: seq<Byte>)
      reads this, buff
    {
      old(Valid()) && Valid() && Data() == old(Data()) + bytes && (buff == old(buff) || fresh(buff))
    }

    constructor ()
      ensures Valid() && Data() == [] && fresh(buff)
    {
      buff := new Byte[INITIAL_BUFFER_SIZE];
      offset := 0;
    }

    /** Makes room for `n` more bytes. */
    method EnsureCapacity(n: nat)
      requires Valid()
      modifies this, buff
      ensures Wrote([]) && offset == old(offset) && offset + n <= buff.Length
      ensures if offset + n <= old(buff.Length) then buff == old(buff) else buff.Length < 2 * (offset + n)
    {
      var length := buff.Length;
      if offset + n <= length {
        return;
      }
      while offset + n > length
        invariant buff.Length <= length && length < 2 * (offset + n)
      {
        length := length * 2;
      }
      var grown := new Byte[length];
      forall i | 0 <= i < buff.Length {
        grown[i] := buff[i];
      }
      buff := grown;
    }

    method Emit(bytes: seq<Byte>)
      requires Valid()
      modifies this, buff
      ensures Wrote(bytes)
    {
      EnsureCapacity(|bytes|);
      forall i | 0 <= i < |bytes| {
        buff[offset + i] := bytes[i];
      }
      offset := offset + |bytes|;
    }

    method WriteBool(b: bool)
      requires Valid()
      modifies this, buff
      ensures Wrote(EncodeBool(b))
    {
      if b {
        Emit([1]);
      } else {
        Emit([0]);
      }
    }

    method WriteString(s: seq<Byte>)
      requires Valid()
      modifies this, buff
      ensures Wrote(EncodeString(s))
    {
      Emit(Write(|s|, 4));
      Emit(s);
    }

    method WriteUvarint(n: nat)
      requires Valid()
      modifies this, buff
      ensures Wrote(EncodeUvarint(n))
    {
      var x := n;
      while x >= 128
        invariant Valid() && Data() + EncodeUvarint(x) == old(Data()) + EncodeUvarint(n)
        invariant buff == old(buff) || fresh(buff)
      {
        Emit([x % 128 + 128]);
        x := x / 128;
      }
      Emit([x]);
    }

    method WriteNumber(i: int, exp: int)
      requires Valid()
      modifies this, buff
      ensures Wrote(EncodeVarint(i) + EncodeVarint(exp))
    {
      WriteUvarint(Zigzag(i));
      WriteUvarint(Zigzag(exp));
    }

    method WriteType(t: Type)
      requires Valid()
      modifies this, buff
      ensures Wrote(EncodeType(t))
      decreases t, 1
    {
      hide EncodeString, EncodeFields, EncodeTypes, Wrote;
      match t {
        case Primitive(k) => Emit([k]);
        case ListType(e) => WriteUnaryType(LIST_KIND, e);
        case MapType(k, v) => WriteMapType(k, v);
        case RefType(e) => WriteUnaryType(REF_KIND, e);
        case SetType(e) => WriteUnaryType(SET_KIND, e);
        case StructType(name, fields) => WriteStructType(name, fields);
        case CycleType(i) => WriteCycle(i);
        case UnionType(ts) => WriteUnionType(ts);
      }
    }

    method WriteUnaryType(k: Byte, e: Type)
      requires Valid()
      modifies this, buff
      ensures Wrote([k] + EncodeType(e))
      decreases e, 2
    {
      hide EncodeType;
      Emit([k]);
      WriteType(e);
    }

    method WriteMapType(k: Type, v: Type)
      requires Valid()
      modifies this, buff
      ensures Wrote([MAP_KIND] + (EncodeType(k) + EncodeType(v)))
      decreases MapType(k, v), 0
    {
      hide EncodeType;
      Emit([MAP_KIND]);
      WriteType(k);
      WriteType(v);
    }

    method WriteStructType(name: seq<Byte>, fields: seq<Field>)
      requires Valid()
      modifies this, buff
      ensures Wrote([STRUCT_KIND] + (EncodeString(name) + (Write(|fields|, 4) + EncodeFields(fields))))
      decreases fields, 1
    {
      hide EncodeString, EncodeFields, Write;
      Emit([STRUCT_KIND]);
      WriteString(name);
      Emit(Write(|fields|, 4));
      WriteFields(fields);
    }

    method WriteCycle(i: nat)
      requires Valid()
      modifies this, buff
      ensures Wrote([CYCLE_KIND] + Write(i, 4))
    {
      Emit([CYCLE_KIND]);
      Emit(Write(i, 4));
    }

    method WriteUnionType(ts: seq<Type>)
      requires Valid()
      modifies this, buff
      ensures Wrote([UNION_KIND] + (Write(|ts|, 4) + EncodeTypes(ts)))
      decreases ts, 1
    {
      hide EncodeTypes, Write;
      Emit([UNION_KIND]);
      Emit(Write(|ts|, 4));
      WriteTypes(ts);
    }

    method WriteTypes(ts: seq<Type>)
      requires Valid()
      modifies this, buff
      ensures Wrote(EncodeTypes(ts))
      decreases ts, 0
    {
      hide EncodeType;
      for i := 0 to |ts|
        invariant Valid() && Data() + EncodeTypes(ts[i..]) == old(Data()) + EncodeTypes(ts)
        invariant buff == old(buff) || fresh(buff)
      {
        TypesFirst(ts[i..]);
        WriteType(ts[i]);
        assert ts[i..][1..] == ts[i + 1..];
      }
    }

    method WriteFields(fields: seq<Field>)
      requires Valid()
      modifies this, buff
      ensures Wrote(EncodeFields(fields))
      decreases fields, 0
    {
      hide EncodeField;
      for i := 0 to |fields|
        invariant Valid() && Data() + EncodeFields(fields[i..]) == old(Data()) + EncodeFields(fields)
        invariant buff == old(buff) || fresh(buff)
      {
        FieldsFirst(fields[i..]);
        WriteField(fields[i]);
        assert fields[i..][1..] == fields[i + 1..];
      }
    }

    method WriteField(f: Field)
      requires Valid()
      modifies this, buff
      ensures Wrote(EncodeField(f))
      decreases f, 0
    {
      WriteString(f.name);
      WriteType(f.fieldType);
    }

    method WriteValue(v: Value)
      requires Valid()
      modifies this, buff
      ensures Wrote(EncodeValue(v))
      decreases v, 1
    {
      hide EncodeType, EncodeBody;
      WriteType(TypeOf(v));
      WriteBody(v);
    }

    method WriteBody(v: Value)
      requires Valid()
      modifies this, buff
      ensures Wrote(EncodeBody(v))
      decreases v, 0
    {
      hide EncodeType, EncodeVarint, EncodeString, EncodeValues, EncodeEntries, EncodeTuples, EncodeBool, Wrote, Write;
      match v {
        case BoolValue(b) => WriteBool(b);
        case NumberValue(i, exp) => WriteNumber(i, exp);
        case StringValue(s) => WriteString(s);
        case BlobLeaf(data) => WriteBlobLeaf(data);
        case ListLeaf(_, vs) => WriteLeaf(vs);
        case SetLeaf(_, vs) => WriteLeaf(vs);
        case MapLeaf(_, es) => WriteMapLeaf(es);
        case Meta(_, ts) => WriteMetaSequence(ts);
        case RefValue(_, h, height) => WriteRef(h, height);
        case StructValue(_, vs) => WriteValues(vs);
        case TypeValue(t) => WriteType(t);
      }
    }

    method WriteRef(h: seq<Byte>, height: nat)
      requires Valid()
      modifies this, buff
      ensures Wrote(h + Write(height, 8))
    {
      Emit(h);
      Emit(Write(height, 8));
    }

    method WriteBlobLeaf(data: seq<Byte>)
      requires Valid()
      modifies this, buff
      ensures Wrote(EncodeBool(false) + EncodeString(data))
    {
      hide EncodeBool, EncodeString;
      WriteBool(false);
      WriteString(data);
    }

    method WriteLeaf(vs: seq<Value>)
      requires Valid()
      modifies this, buff
      ensures Wrote(EncodeBool(false) + (Write(|vs|, 4) + EncodeValues(vs)))
      decreases vs, 3
    {
      hide EncodeBool, EncodeValues, Write;
      WriteBool(false);
      Emit(Write(|vs|, 4));
      WriteValues(vs);
    }

    method WriteMapLeaf(es: seq<Entry>)
      requires Valid()
      modifies this, buff
      ensures Wrote(EncodeBool(false) + (Write(|es|, 4) + EncodeEntries(es)))
      decreases es, 3
    {
      hide EncodeBool, EncodeEntries, Write;
      WriteBool(false);
      Emit(Write(|es|, 4));
      WriteEntries(es);
    }

    method WriteMetaSequence(ts: seq<MetaTuple>)
      requires Valid()
      modifies this, buff
      ensures Wrote(EncodeBool(true) + (Write(|ts|, 4) + EncodeTuples(ts)))
      decreases ts, 3
    {
      hide EncodeBool, EncodeTuples, Write;
      WriteBool(true);
      Emit(Write(|ts|, 4));
      WriteTuples(ts);
    }

    method WriteValues(vs: seq<Value>)
      requires Valid()
      modifies this, buff
      ensures Wrote(EncodeValues(vs))
      decreases vs, 2
    {
      hide EncodeValue;
      for i := 0 to |vs|
        invariant Valid() && Data() + EncodeValues(vs[i..]) == old(Data()) + EncodeValues(vs)
        invariant buff == old(buff) || fresh(buff)
      {
        ValuesFirst(vs[i..]);
        WriteValue(vs[i]);
        assert vs[i..][1..] == vs[i + 1..];
      }
    }

    method WriteEntries(es: seq<Entry>)
      requires Valid()
      modifies this, buff
      ensures Wrote(EncodeEntries(es))
      decreases es, 2
    {
      hide EncodeEntry;
      for i := 0 to |es|
        invariant Valid() && Data() + EncodeEntries(es[i..]) == old(Data()) + EncodeEntries(es)
        invariant buff == old(buff) || fresh(buff)
      {
        EntriesFirst(es[i..]);
        WriteEntry(es[i]);
        assert es[i..][1..] == es[i + 1..];
      }
    }

    method WriteTuples(ts: seq<MetaTuple>)
      requires Valid()
      modifies this, buff
      ensures Wrote(EncodeTuples(ts))
      decreases ts, 2
    {
      hide EncodeTuple;
      for i := 0 to |ts|
        invariant Valid() && Data() + EncodeTuples(ts[i..]) == old(Data()) + EncodeTuples(ts)
        invariant buff == old(buff) || fresh(buff)
      {
        TuplesFirst(ts[i..]);
        WriteTuple(ts[i]);
        assert ts[i..][1..] == ts[i + 1..];
      }
    }

    method WriteEntry(e: Entry)
      requires Valid()
      modifies this, buff
      ensures Wrote(EncodeEntry(e))
      decreases e, 1
    {
      hide EncodeValue;
      WriteValue(e.key);
      WriteValue(e.value);
    }

    /** A key that is a hash is written as if it were a reference. */
    method WriteKey(k: OrderedKey)
      requires Valid()
      modifies this, buff
      ensures Wrote(EncodeKey(k))
      decreases k, 1
    {
      hide EncodeType, EncodeValue;
      match k {
        case ByValue(v) =>
          WriteValue(v);
        case ByHash(h) =>
          WriteType(RefType(Primitive(BOOL_KIND)));
          WriteRef(h, 0);
      }
    }

    method WriteTuple(t: MetaTuple)
      requires Valid()
      modifies this, buff
      ensures Wrote(EncodeTuple(t))
      decreases t, 1
    {
      hide EncodeValue, EncodeKey;
      WriteValue(t.ref);
      WriteKey(t.key);
      Emit(Write(t.numLeaves, 8));
    }
  }

  // ---------- reading ----------

  function Prepend<T>(xs: seq<T>, p: Parse<seq<T>>): Parse<seq<T>> {
    if p.None? then None else Some((xs + p.value.0, p.value.1))
  }

  lemma PrependNothing<T>(p: Parse<seq<T>>)
    ensures Prepend([], p) == p
  {
    if p.Some? {
      assert [] + p.value.0 == p.value.0;
    }
  }

  lemma PrependToNothing<T>(xs: seq<T>, at: nat)
    ensures Prepend(xs, Some(([], at))) == Some((xs, at))
  {
    assert xs + [] == xs;
  }

  lemma PrependBoth<T>(xs: seq<T>, ys: seq<T>, p: Parse<seq<T>>)
    ensures Prepend(xs, Prepend(ys, p)) == Prepend(xs + ys, p)
  {
    if p.Some? {
      assert xs + (ys + p.value.0) == (xs + ys) + p.value.0;
    }
  }

  lemma MoreTypes(buff: seq<Byte>, at: nat, n: nat)
    requires at <= |buff| && n > 0
    ensures var x := DecodeType(buff, at);
            DecodeTypes(buff, at, n) == if x.None? then None
            else Prepend([x.value.0], DecodeTypes(buff, x.value.1, n - 1))
  {
  }

  lemma EndTypes(buff: seq<Byte>, at: nat)
    requires at <= |buff|
    ensures DecodeTypes(buff, at, 0) == Some(([], at))
  {
  }

  lemma MoreFields(buff: seq<Byte>, at: nat, n: nat)
    requires at <= |buff| && n > 0
    ensures var x := DecodeField(buff, at);
            DecodeFields(buff, at, n) == if x.None? then None
            else Prepend([x.value.0], DecodeFields(buff, x.value.1, n - 1))
  {
  }

  lemma EndFields(buff: seq<Byte>, at: nat)
    requires at <= |buff|
    ensures DecodeFields(buff, at, 0) == Some(([], at))
  {
  }

  lemma MoreValues(buff: seq<Byte>, at: nat, n: nat)
    requires at <= |buff| && n > 0
    ensures var x := DecodeValue(buff, at);
            DecodeValues(buff, at, n) == if x.None? then None
            else Prepend([x.value.0], DecodeValues(buff, x.value.1, n - 1))
  {
  }

  lemma EndValues(buff: seq<Byte>, at: nat)
    requires at <= |buff|
    ensures DecodeValues(buff, at, 0) == Some(([], at))
  {
  }

  lemma MoreEntries(buff: seq<Byte>, at: nat, n: nat)
    requires at <= |buff| && n > 0
    ensures var x := DecodeEntry(buff, at);
            DecodeEntries(buff, at, n) == if x.None? then None
            else Prepend([x.value.0], DecodeEntries(buff, x.value.1, n - 1))
  {
  }

  lemma EndEntries(buff: seq<Byte>, at: nat)
    requires at <= |buff|
    ensures DecodeEntries(buff, at, 0) == Some(([], at))
  {
  }

  lemma MoreTuples(buff: seq<Byte>, at: nat, n: nat)
    requires at <= |buff| && n > 0
    ensures var x := DecodeTuple(buff, at);
            DecodeTuples(buff, at, n) == if x.None? then None
            else Prepend([x.value.0], DecodeTuples(buff, x.value.1, n - 1))
  {
  }

  lemma EndTuples(buff: seq<Byte>, at: nat)
    requires at <= |buff|
    ensures DecodeTuples(buff, at, 0) == Some(([], at))
  {
  }

  /** Reads on from `offset`; a read that fails, which the source gives up on, gives `None`. */
  class BinaryNomsReader {
    const buff: seq<Byte>
    var offset: nat

    ghost predicate Valid()
      reads this
    {
      offset <= |buff|
    }

    /** What was read is what `p` says, and reading goes on where `p` says. */
    ghost predicate Took<T>(p: Parse<T>, r: Option<T>)
      reads this
    {
      Valid() && if p.None? then r.None? else r == Some(p.value.0) && offset == p.value.1
    }

    constructor (data: seq<Byte>)
      ensures Valid() && buff == data && offset == 0
    {
      buff := data;
      offset := 0;
    }

    method ReadUint(k: nat) returns (r: Option<nat>)
      requires Valid()
      modifies this
      ensures Took(DecodeNat(buff, old(offset), k), r)
    {
      if offset + k > |buff| {
        return None;
      }
      r := Some(Read(buff[offset..offset + k]));
      offset := offset + k;
    }

    method ReadUint8() returns (r: Option<Byte>)
      requires Valid()
      modifies this
      ensures Took(DecodeByte(buff, old(offset)), r)
    {
      if offset == |buff| {
        return None;
      }
      r := Some(buff[offset]);
      offset := offset + 1;
    }

    method ReadString() returns (r: Option<seq<Byte>>)
      requires Valid()
      modifies this
      ensures Took(DecodeString(buff, old(offset)), r)
    {
      var size := ReadUint(4);
      if size.None? || offset + size.value > |buff| {
        return None;
      }
      r := Some(buff[offset..offset + size.value]);
      offset := offset + size.value;
    }

    method ReadVarint() returns (r: Option<int>)
      requires Valid()
      modifies this
      ensures Took(DecodeVarint(buff, old(offset)), r)
    {
      var i := DecodeVarint(buff, offset);
      if i.None? {
        return None;
      }
      r := Some(i.value.0);
      offset := i.value.1;
    }

    method ReadType() returns (r: Option<Type>)
      requires Valid()
      modifies this
      ensures Took(DecodeType(buff, old(offset)), r)
      decreases |buff| - offset, 0
    {
      var k := ReadUint8();
      if k.None? {
        return None;
      }
      if k.value == LIST_KIND || k.value == REF_KIND || k.value == SET_KIND {
        var e := ReadType();
        if e.None? {
          return None;
        }
        r := Some(if k.value == LIST_KIND then ListType(e.value) else if k.value == REF_KIND then RefType(e.value)
                  else SetType(e.value));
      } else if k.value == MAP_KIND {
        r := ReadMapType();
      } else if k.value == STRUCT_KIND {
        r := ReadStructType();
      } else if k.value == UNION_KIND {
        r := ReadUnionType();
      } else if k.value == CYCLE_KIND {
        var i := ReadUint(4);
        r := if i.None? then None else Some(CycleType(i.value));
      } else {
        r := if IsPrimitiveKind(k.value) then Some(Primitive(k.value)) else None;
      }
    }

    method ReadMapType() returns (r: Option<Type>)
      requires Valid() && offset > 0 && buff[offset - 1] == MAP_KIND
      modifies this
      ensures Took(DecodeType(buff, old(offset) - 1), r)
      decreases |buff| - offset, 1
    {
      var k := ReadType();
      if k.None? {
        return None;
      }
      var v := ReadType();
      r := if v.None? then None else Some(MapType(k.value, v.value));
    }

    method ReadStructType() returns (r: Option<Type>)
      requires Valid() && offset > 0 && buff[offset - 1] == STRUCT_KIND
      modifies this
      ensures Took(DecodeType(buff, old(offset) - 1), r)
      decreases |buff| - offset, 1
    {
      var name := ReadString();
      if name.None? {
        return None;
      }
      var count := ReadUint(4);
      if count.None? {
        return None;
      }
      var fields := ReadFields(count.value);
      r := if fields.None? then None else Some(StructType(name.value, fields.value));
    }

    method ReadUnionType() returns (r: Option<Type>)
      requires Valid() && offset > 0 && buff[offset - 1] == UNION_KIND
      modifies this
      ensures Took(DecodeType(buff, old(offset) - 1), r)
      decreases |buff| - offset, 1
    {
      var l := ReadUint(4);
      if l.None? {
        return None;
      }
      var ts := ReadTypes(l.value);
      r := if ts.None? then None else Some(UnionType(ts.value));
    }

    method ReadTypes(n: nat) returns (r: Option<seq<Type>>)
      requires Valid()
      modifies this
      ensures Took(DecodeTypes(buff, old(offset), n), r)
      decreases |buff| - offset, n + 1
    {
      hide DecodeType, DecodeTypes;
      var data := [];
      PrependNothing(DecodeTypes(buff, offset, n));
      for i := 0 to n
        invariant Valid() && old(offset) <= offset
        invariant DecodeTypes(buff, old(offset), n) == Prepend(data, DecodeTypes(buff, offset, n - i))
      {
        MoreTypes(buff, offset, n - i);
        var x := ReadType();
        if x.None? {
          return None;
        }
        PrependBoth(data, [x.value], DecodeTypes(buff, offset, n - i - 1));
        data := data + [x.value];
      }
      EndTypes(buff, offset);
      PrependToNothing(data, offset);
      r := Some(data);
    }

    method ReadFields(n: nat) returns (r: Option<seq<Field>>)
      requires Valid()
      modifies this
      ensures Took(DecodeFields(buff, old(offset), n), r)
      decreases |buff| - offset, n + 1
    {
      hide DecodeField, DecodeFields;
      var data := [];
      PrependNothing(DecodeFields(buff, offset, n));
      for i := 0 to n
        invariant Valid() && old(offset) <= offset
        invariant DecodeFields(buff, old(offset), n) == Prepend(data, DecodeFields(buff, offset, n - i))
      {
        MoreFields(buff, offset, n - i);
        var x := ReadField();
        if x.None? {
          return None;
        }
        PrependBoth(data, [x.value], DecodeFields(buff, offset, n - i - 1));
        data := data + [x.value];
      }
      EndFields(buff, offset);
      PrependToNothing(data, offset);
      r := Some(data);
    }

    method ReadField() returns (r: Option<Field>)
      requires Valid()
      modifies this
      ensures Took(DecodeField(buff, old(offset)), r)
      decreases |buff| - offset, 0
    {
      hide DecodeType, DecodeString;
      var name := ReadString();
      if name.None? {
        return None;
      }
      var t := ReadType();
      r := if t.None? then None else Some(Field(name.value, t.value));
    }

    method ReadValue() returns (r: Option<Value>)
      requires Valid()
      modifies this
      ensures Took(DecodeValue(buff, old(offset)), r)
      decreases |buff| - offset, 0
    {
      hide DecodeType, DecodeBody;
      var t := ReadType();
      if t.None? {
        return None;
      }
      r := ReadBody(t.value);
    }

    method ReadBody(t: Type) returns (r: Option<Value>)
      requires Valid()
      modifies this
      ensures Took(DecodeBody(buff, old(offset), t), r)
      decreases |buff| - offset, 2
    {
      hide DecodeSequence, DecodeScalar, DecodeValues, Read;
      if IsChunkedType(t) {
        var isMeta := ReadUint8();
        if isMeta.None? {
          return None;
        }
        r := ReadSequence(t, isMeta.value == 1);
      } else if t.RefType? {
        r := ReadRef(t);
      } else if t.StructType? {
        var vs := ReadValues(|t.fields|);
        r := if vs.None? then None else Some(StructValue(t, vs.value));
      } else {
        r := ReadScalar(t);
      }
    }

    method ReadRef(t: Type) returns (r: Option<Value>)
      requires Valid() && t.RefType?
      modifies this
      ensures Took(DecodeBody(buff, old(offset), t), r)
    {
      if offset + HASH_SIZE > |buff| {
        return None;
      }
      var h := buff[offset..offset + HASH_SIZE];
      offset := offset + HASH_SIZE;
      var height := ReadUint(8);
      r := if height.None? then None else Some(RefValue(t, h, height.value));
    }

    method ReadScalar(t: Type) returns (r: Option<Value>)
      requires Valid()
      modifies this
      ensures Took(DecodeScalar(buff, old(offset), t), r)
    {
      hide DecodeType, DecodeString, DecodeVarint;
      if t == Primitive(BOOL_KIND) {
        var b := ReadUint8();
        r := if b.None? then None else Some(BoolValue(b.value == 1));
      } else if t == Primitive(NUMBER_KIND) {
        var i := ReadVarint();
        if i.None? {
          return None;
        }
        var exp := ReadVarint();
        r := if exp.None? then None else Some(NumberValue(i.value, exp.value));
      } else if t == Primitive(STRING_KIND) {
        var s := ReadString();
        r := if s.None? then None else Some(StringValue(s.value));
      } else if t == Primitive(TYPE_KIND) {
        var u := ReadType();
        r := if u.None? then None else Some(TypeValue(u.value));
      } else {
        r := None;
      }
    }

    method ReadSequence(t: Type, isMeta: bool) returns (r: Option<Value>)
      requires Valid()
      modifies this
      ensures Took(DecodeSequence(buff, old(offset), t, isMeta), r)
      decreases |buff| - offset, 1
    {
      hide DecodeString, DecodeNat, DecodeTuples, DecodeEntries, DecodeValues;
      if !isMeta && t.Primitive? {
        var s := ReadString();
        return if s.None? then None else Some(BlobLeaf(s.value));
      }
      var count := ReadUint(4);
      if count.None? {
        return None;
      }
      if isMeta {
        var ts := ReadTuples(count.value);
        r := if ts.None? then None else Some(Meta(t, ts.value));
      } else if t.MapType? {
        var es := ReadEntries(count.value);
        r := if es.None? then None else Some(MapLeaf(t, es.value));
      } else {
        var vs := ReadValues(count.value);
        r := if vs.None? then None else Some(if t.ListType? then ListLeaf(t, vs.value) else SetLeaf(t, vs.value));
      }
    }

    method ReadValues(n: nat) returns (r: Option<seq<Value>>)
      requires Valid()
      modifies this
      ensures Took(DecodeValues(buff, old(offset), n), r)
      decreases |buff| - offset, 1, n + 1
    {
      hide DecodeValue, DecodeValues;
      var data := [];
      PrependNothing(DecodeValues(buff, offset, n));
      for i := 0 to n
        invariant Valid() && old(offset) <= offset
        invariant DecodeValues(buff, old(offset), n) == Prepend(data, DecodeValues(buff, offset, n - i))
      {
        MoreValues(buff, offset, n - i);
        var x := ReadValue();
        if x.None? {
          return None;
        }
        PrependBoth(data, [x.value], DecodeValues(buff, offset, n - i - 1));
        data := data + [x.value];
      }
      EndValues(buff, offset);
      PrependToNothing(data, offset);
      r := Some(data);
    }

    method ReadEntries(n: nat) returns (r: Option<seq<Entry>>)
      requires Valid()
      modifies this
      ensures Took(DecodeEntries(buff, old(offset), n), r)
      decreases |buff| - offset, 1, n + 1
    {
      hide DecodeEntry, DecodeEntries;
      var data := [];
      PrependNothing(DecodeEntries(buff, offset, n));
      for i := 0 to n
        invariant Valid() && old(offset) <= offset
        invariant DecodeEntries(buff, old(offset), n) == Prepend(data, DecodeEntries(buff, offset, n - i))
      {
        MoreEntries(buff, offset, n - i);
        var x := ReadEntry();
        if x.None? {
          return None;
        }
        PrependBoth(data, [x.value], DecodeEntries(buff, offset, n - i - 1));
        data := data + [x.value];
      }
      EndEntries(buff, offset);
      PrependToNothing(data, offset);
      r := Some(data);
    }

    method ReadTuples(n: nat) returns (r: Option<seq<MetaTuple>>)
      requires Valid()
      modifies this
      ensures Took(DecodeTuples(buff, old(offset), n), r)
      decreases |buff| - offset, 1, n + 1
    {
      hide DecodeTuple, DecodeTuples;
      var data := [];
      PrependNothing(DecodeTuples(buff, offset, n));
      for i := 0 to n
        invariant Valid() && old(offset) <= offset
        invariant DecodeTuples(buff, old(offset), n) == Prepend(data, DecodeTuples(buff, offset, n - i))
      {
        MoreTuples(buff, offset, n - i);
        var x := ReadTuple();
        if x.None? {
          return None;
        }
        PrependBoth(data, [x.value], DecodeTuples(buff, offset, n - i - 1));
        data := data + [x.value];
      }
      EndTuples(buff, offset);
      PrependToNothing(data, offset);
      r := Some(data);
    }

    method ReadEntry() returns (r: Option<Entry>)
      requires Valid()
      modifies this
      ensures Took(DecodeEntry(buff, old(offset)), r)
      decreases |buff| - offset, 1, 0
    {
      hide DecodeValue;
      var k := ReadValue();
      if k.None? {
        return None;
      }
      var v := ReadValue();
      r := if v.None? then None else Some(Entry(k.value, v.value));
    }

    /** A reference where a key is expected stands for its hash. */
    method ReadTuple() returns (r: Option<MetaTuple>)
      requires Valid()
      modifies this
      ensures Took(DecodeTuple(buff, old(offset)), r)
      decreases |buff| - offset, 1, 0
    {
      hide DecodeValue, DecodeNat, KeyOf;
      var ref := ReadValue();
      if ref.None? || !ref.value.RefValue? {
        return None;
      }
      var v := ReadValue();
      if v.None? {
        return None;
      }
      var numLeaves := ReadUint(8);
      r := if numLeaves.None? then None else Some(MetaTuple(ref.value, KeyOf(v.value), numLeaves.value));
    }
  }

  // ---------- whole values ----------

  /** The bytes of a value: reading them gives the value back, whatever follows them. */
  method EncodeToBytes(v: Value) returns (bytes: seq<Byte>)
    requires WellFormed(v)
    ensures bytes == EncodeValue(v)
    ensures forall rest: seq<Byte> :: DecodeValue(bytes + rest, 0) == Some((v, |bytes|))
  {
    hide WellFormed, EncodeValue, DecodeValue;
    var w := new BinaryNomsWriter();
    w.WriteValue(v);
    bytes := w.Data();
    assert bytes == EncodeValue(v);
    forall rest: seq<Byte> ensures DecodeValue(bytes + rest, 0) == Some((v, |bytes|)) {
      Leftover(v, rest);
    }
  }

  /** The value that all of the bytes are. */
  function Whole(data: seq<Byte>): Option<Value> {
    var p := DecodeValue(data, 0);
    if p.Some? && p.value.1 == |data| then Some(p.value.0) else None
  }

  lemma WholeRoundTrip(v: Value)
    requires WellFormed(v)
    ensures Whole(EncodeValue(v)) == Some(v)
  {
    hide WellFormed, EncodeValue, DecodeValue;
    Leftover(v, []);
    assert EncodeValue(v) + [] == EncodeValue(v);
  }

  /** All of the bytes have to be one value: what was written gives its value, and no value is missed. */
  method DecodeFromBytes(data: seq<Byte>) returns (r: Option<Value>)
    ensures forall v :: WellFormed(v) && EncodeValue(v) == data ==> r == Some(v)
    ensures r.Some? ==> DecodeValue(data, 0) == Some((r.value, |data|))
  {
    hide WellFormed, EncodeValue, DecodeBody, DecodeType;
    var reader := new BinaryNomsReader(data);
    var v := reader.ReadValue();
    r := if v.Some? && reader.offset == |data| then v else None;
    assert r == Whole(data);
    forall w | WellFormed(w) && EncodeValue(w) == data ensures r == Some(w) {
      WholeRoundTrip(w);
    }
  }
}
