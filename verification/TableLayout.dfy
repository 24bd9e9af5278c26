/** The bytes of a table, one by one: nothing here is told in terms of reading them back. */
module TableLayout {
  import opened ByteSeqs
  import opened TableIndexes
  import opened TableFormat

  /** The table has these bytes at this place. */
  ghost predicate HasAt(t: seq<Byte>, at: nat, bytes: seq<Byte>) {
    at + |bytes| <= |t| && forall i :: 0 <= i < |bytes| ==> t[at + i] == bytes[i]
  }

  lemma HeldHas(t: seq<Byte>, at: nat, bytes: seq<Byte>)
    requires HeldAt(t, at, bytes)
    ensures HasAt(t, at, bytes)
  {
    forall i | 0 <= i < |bytes| ensures t[at + i] == bytes[i] {
      assert t[at..at + |bytes|][i] == bytes[i];
    }
  }

  /** Where chunk `o` starts: behind those before it, each compressed and followed by four bytes of checksum. */
  lemma ChunkStarts(c: Codec, datas: seq<seq<Byte>>, o: nat)
    requires o < |datas|
    ensures OffsetOf(c, datas, 0) == 0 && OffsetOf(c, datas, o + 1) == OffsetOf(c, datas, o) + |c.encode(datas[o])| + 4
  {
    FourBytes(c.crc(datas[o]));
  }

  /** How long a table is, and its chunks. */
  lemma ChunkBytes(t: seq<Byte>, c: Codec, addrs: seq<Addr>, datas: seq<seq<Byte>>, recs: seq<PrefixIndexRec>,
                   sorted: seq<PrefixIndexRec>, o: nat)
    requires IsTable(t, c, addrs, datas, recs, sorted) && o < |datas|
    ensures |addrs| == |datas| && |t| == OffsetOf(c, datas, |datas|) + 28 * |datas| + 20
    ensures HasAt(t, OffsetOf(c, datas, o), c.encode(datas[o]) + Bytes4(c.crc(datas[o])))
  {
    FourBytes(c.crc(datas[o]));
    HeldHas(t, OffsetOf(c, datas, o), Block(c, datas[o]));
  }

  /**
   The index tuples, in the order of the prefixes: twelve bytes each, the prefix of an address and which chunk it is of.
   */
  lemma TupleBytes(t: seq<Byte>, c: Codec, addrs: seq<Addr>, datas: seq<seq<Byte>>, recs: seq<PrefixIndexRec>,
                   sorted: seq<PrefixIndexRec>, k: nat)
    requires IsTable(t, c, addrs, datas, recs, sorted) && k < |addrs|
    ensures |sorted| == |addrs| && sorted[k].order < |addrs|
            && (k + 1 < |addrs| ==> sorted[k].prefix <= sorted[k + 1].prefix)
    ensures var o, at := sorted[k].order, OffsetOf(c, datas, |datas|) + 12 * k;
            HasAt(t, at, Bytes8(addrs[o].prefix)) && HasAt(t, at + 8, Bytes4(o))
  {
    TableParts(t, c, addrs, datas, recs, sorted);
    assert sorted[k] in recs;
    var o, at := sorted[k].order, OffsetOf(c, datas, |datas|) + 12 * k;
    EightBytes(sorted[k].prefix);
    FourBytes(o);
    hide OffsetOf, Write, HeldAt, HasAt, Bytes4, Bytes8;
    assert EntryAt(t, LayoutAt(OffsetOf(c, datas, |datas|), |addrs|), k, sorted[k]);
    HeldHas(t, at, Write(sorted[k].prefix, 8));
    HeldHas(t, at + 8, Write(o, 4));
  }

  /** Every chunk has a tuple. */
  lemma TupleFor(t: seq<Byte>, c: Codec, addrs: seq<Addr>, datas: seq<seq<Byte>>, recs: seq<PrefixIndexRec>,
                 sorted: seq<PrefixIndexRec>, o: nat) returns (k: nat)
    requires IsTable(t, c, addrs, datas, recs, sorted) && o < |addrs|
    ensures k < |addrs| == |sorted| && sorted[k].order == o && sorted[k] == recs[o]
  {
    TableParts(t, c, addrs, datas, recs, sorted);
    assert recs[o] in sorted;
    k :| 0 <= k < |sorted| && sorted[k] == recs[o];
  }

  /** Behind the tuples the lengths, four bytes each, and the last twelve bytes of the addresses, chunk by chunk. */
  lemma LengthBytes(t: seq<Byte>, c: Codec, addrs: seq<Addr>, datas: seq<seq<Byte>>, recs: seq<PrefixIndexRec>,
                    sorted: seq<PrefixIndexRec>, o: nat)
    requires IsTable(t, c, addrs, datas, recs, sorted) && o < |addrs| == |datas|
    ensures var d, n := OffsetOf(c, datas, |datas|), |addrs|;
            && HasAt(t, d + 12 * n + 4 * o, Bytes4(|c.encode(datas[o])| + 4))
            && HasAt(t, d + 16 * n + 12 * o, addrs[o].suffix) && |addrs[o].suffix| == 12
  {
    TableParts(t, c, addrs, datas, recs, sorted);
    var k := TupleFor(t, c, addrs, datas, recs, sorted, o);
    var d, n := OffsetOf(c, datas, |datas|), |addrs|;
    BlockSize(c, datas[o]);
    FourBytes(recs[o].size);
    hide OffsetOf, Write, HeldAt, HasAt, Bytes4, Block;
    assert EntryAt(t, LayoutAt(d, n), k, recs[o]);
    HeldHas(t, d + 12 * n + 4 * o, Write(recs[o].size, 4));
    HeldHas(t, d + 16 * n + 12 * o, recs[o].suffix);
  }

  lemma BlockSize(c: Codec, data: seq<Byte>)
    ensures |Block(c, data)| == |c.encode(data)| + 4
  {
  }

  /** The footer: how many chunks, how long they are compressed, and the magic number. */
  lemma FooterBytes(t: seq<Byte>, c: Codec, addrs: seq<Addr>, datas: seq<seq<Byte>>, recs: seq<PrefixIndexRec>,
                    sorted: seq<PrefixIndexRec>)
    requires IsTable(t, c, addrs, datas, recs, sorted)
    ensures |t| >= 20 && HasAt(t, |t| - 20, Bytes4(|addrs|))
            && HasAt(t, |t| - 16, Bytes8(CompressedSize(c, datas, |datas|)))
    ensures HasAt(t, |t| - 8, [255, 181, 216, 194, 36, 99, 238, 80])
  {
    FourBytes(|addrs|);
    EightBytes(CompressedSize(c, datas, |datas|));
    HeldHas(t, |t| - 20, Write(|addrs|, 4));
    HeldHas(t, |t| - 16, Write(CompressedSize(c, datas, |datas|), 8));
    HeldHas(t, |t| - 8, MAGIC_NUMBER);
  }

  /** The size in the footer is that of the compressed chunks without their checksums. */
  lemma CompressedNext(c: Codec, datas: seq<seq<Byte>>, o: nat)
    requires o < |datas|
    ensures CompressedSize(c, datas, 0) == 0
    ensures CompressedSize(c, datas, o + 1) == CompressedSize(c, datas, o) + |c.encode(datas[o])|
  {
  }
}
