/** A table as bytes: the chunks one after the other, then the index, then a footer. */
module TableFormat {
  import opened Options
  import opened ByteSeqs
  import opened TableIndexes

  const PREFIX_SIZE: nat := 8
  const ORDINAL_SIZE: nat := 4
  const TUPLE_SIZE: nat := 12
  const LENGTH_SIZE: nat := 4
  const CHECKSUM_SIZE: nat := 4
  const FOOTER_SIZE: nat := 20

  const MAGIC_NUMBER: seq<Byte> := [0xff, 0xb5, 0xd8, 0xc2, 0x24, 0x63, 0xee, 0x50]

  /** Compression and checksum: any compression that can be undone, and any 32-bit checksum. */
  datatype Codec = Codec(encode: seq<Byte> -> seq<Byte>, decode: seq<Byte> -> seq<Byte>, crc: seq<Byte> -> nat)

  ghost predicate Works(c: Codec) {
    forall data: seq<Byte> :: c.decode(c.encode(data)) == data && c.crc(data) < Power256(CHECKSUM_SIZE)
  }

  /** A chunk as it is stored: compressed, with the checksum of the data. */
  function Block(c: Codec, data: seq<Byte>): seq<Byte> {
    c.encode(data) + Write(c.crc(data), CHECKSUM_SIZE)
  }

  /** Where chunk `o` starts. */
  function OffsetOf(c: Codec, datas: seq<seq<Byte>>, o: nat): nat
    requires o <= |datas|
  {
    if o == 0 then 0 else OffsetOf(c, datas, o - 1) + |Block(c, datas[o - 1])|
  }

  lemma {:induction false} OffsetGrows(c: Codec, datas: seq<seq<Byte>>, o: nat, e: nat)
    requires o <= e <= |datas|
    ensures OffsetOf(c, datas, o) <= OffsetOf(c, datas, e)
  {
    if o < e {
      OffsetGrows(c, datas, o, e - 1);
    }
  }

  lemma {:induction false} OffsetPrefix(c: Codec, datas: seq<seq<Byte>>, data: seq<Byte>, o: nat)
    requires o <= |datas|
    ensures OffsetOf(c, datas + [data], o) == OffsetOf(c, datas, o)
  {
    if o > 0 {
      OffsetPrefix(c, datas, data, o - 1);
    }
  }

  /** How many bytes the first `o` chunks have when compressed. */
  ghost function CompressedSize(c: Codec, datas: seq<seq<Byte>>, o: nat): nat
    requires o <= |datas|
  {
    if o == 0 then 0 else CompressedSize(c, datas, o - 1) + |c.encode(datas[o - 1])|
  }

  lemma {:induction false} CompressedPrefix(c: Codec, datas: seq<seq<Byte>>, data: seq<Byte>, o: nat)
    requires o <= |datas|
    ensures CompressedSize(c, datas + [data], o) == CompressedSize(c, datas, o)
  {
    if o > 0 {
      CompressedPrefix(c, datas, data, o - 1);
    }
  }

  /** The chunks are stored one after the other. */
  ghost predicate Blocks(buff: seq<Byte>, c: Codec, datas: seq<seq<Byte>>) {
    forall o :: 0 <= o < |datas| ==> HeldAt(buff, OffsetOf(c, datas, o), Block(c, datas[o]))
  }

  /** A chunk's entry in the index, as the writer keeps it. */
  datatype PrefixIndexRec = PrefixIndexRec(prefix: nat, suffix: seq<Byte>, order: nat, size: nat)

  /** Where the three parts of the index of `n` chunks start, and where it ends. */
  datatype Layout = Layout(tuples: nat, lengths: nat, suffixes: nat, end: nat)

  function LayoutAt(pos: nat, n: nat): Layout {
    Layout(pos, pos + n * TUPLE_SIZE, pos + n * TUPLE_SIZE + n * LENGTH_SIZE,
           pos + n * TUPLE_SIZE + n * LENGTH_SIZE + n * SUFFIX_SIZE)
  }

  /** Entry `k` of the index: the tuple in its place, length and suffix in the place of the chunk. */
  ghost predicate EntryAt(buff: seq<Byte>, l: Layout, k: nat, r: PrefixIndexRec) {
    && HeldAt(buff, l.tuples + k * TUPLE_SIZE, Write(r.prefix, PREFIX_SIZE))
    && HeldAt(buff, l.tuples + k * TUPLE_SIZE + PREFIX_SIZE, Write(r.order, ORDINAL_SIZE))
    && HeldAt(buff, l.lengths + r.order * LENGTH_SIZE, Write(r.size, LENGTH_SIZE))
    && HeldAt(buff, l.suffixes + r.order * SUFFIX_SIZE, r.suffix)
  }

  /** The buffer with entry `k` written. */
  function WithTuple(buff: seq<Byte>, l: Layout, k: nat, r: PrefixIndexRec): (b: seq<Byte>)
    requires l.tuples + k * TUPLE_SIZE + TUPLE_SIZE <= |buff|
    ensures |b| == |buff|
  {
    Put(Put(buff, l.tuples + k * TUPLE_SIZE, Write(r.prefix, PREFIX_SIZE)),
        l.tuples + k * TUPLE_SIZE + PREFIX_SIZE, Write(r.order, ORDINAL_SIZE))
  }

  function WithRest(buff: seq<Byte>, l: Layout, r: PrefixIndexRec): (b: seq<Byte>)
    requires l.lengths + r.order * LENGTH_SIZE + LENGTH_SIZE <= |buff|
             && l.suffixes + r.order * SUFFIX_SIZE + |r.suffix| <= |buff|
    ensures |b| == |buff|
  {
    Put(Put(buff, l.lengths + r.order * LENGTH_SIZE, Write(r.size, LENGTH_SIZE)),
        l.suffixes + r.order * SUFFIX_SIZE, r.suffix)
  }

  ghost predicate Fits(buff: seq<Byte>, l: Layout, pos: nat, n: nat, k: nat, r: PrefixIndexRec) {
    && l == LayoutAt(pos, n) && l.end <= |buff| && k < n && r.order < n && |r.suffix| == SUFFIX_SIZE
  }

  /** Anything before the index, and any other entry, is left alone by writing an entry's tuple. */
  lemma TupleElsewhere(buff: seq<Byte>, l: Layout, pos: nat, n: nat, k: nat, r: PrefixIndexRec, there: nat,
                       held: seq<Byte>)
    requires Fits(buff, l, pos, n, k, r) && HeldAt(buff, there, held)
    requires there + |held| <= l.tuples + k * TUPLE_SIZE || l.tuples + k * TUPLE_SIZE + TUPLE_SIZE <= there
    ensures HeldAt(WithTuple(buff, l, k, r), there, held)
  {
    var b := Put(buff, l.tuples + k * TUPLE_SIZE, Write(r.prefix, PREFIX_SIZE));
    PutElsewhere(buff, l.tuples + k * TUPLE_SIZE, Write(r.prefix, PREFIX_SIZE), there, held);
    PutElsewhere(b, l.tuples + k * TUPLE_SIZE + PREFIX_SIZE, Write(r.order, ORDINAL_SIZE), there, held);
  }

  lemma RestElsewhere(buff: seq<Byte>, l: Layout, pos: nat, n: nat, k: nat, r: PrefixIndexRec, there: nat,
                      held: seq<Byte>)
    requires Fits(buff, l, pos, n, k, r) && HeldAt(buff, there, held)
    requires there + |held| <= l.lengths + r.order * LENGTH_SIZE
             || l.lengths + r.order * LENGTH_SIZE + LENGTH_SIZE <= there
    requires there + |held| <= l.suffixes + r.order * SUFFIX_SIZE
             || l.suffixes + r.order * SUFFIX_SIZE + SUFFIX_SIZE <= there
    ensures HeldAt(WithRest(buff, l, r), there, held)
  {
    var b := Put(buff, l.lengths + r.order * LENGTH_SIZE, Write(r.size, LENGTH_SIZE));
    PutElsewhere(buff, l.lengths + r.order * LENGTH_SIZE, Write(r.size, LENGTH_SIZE), there, held);
    PutElsewhere(b, l.suffixes + r.order * SUFFIX_SIZE, r.suffix, there, held);
  }

  function WithEntry(buff: seq<Byte>, l: Layout, k: nat, r: PrefixIndexRec): (b: seq<Byte>)
    requires l.tuples + k * TUPLE_SIZE + TUPLE_SIZE <= |buff|
    requires l.lengths + r.order * LENGTH_SIZE + LENGTH_SIZE <= |buff|
             && l.suffixes + r.order * SUFFIX_SIZE + |r.suffix| <= |buff|
    ensures |b| == |buff|
  {
    WithRest(WithTuple(buff, l, k, r), l, r)
  }

  lemma EntryHere(buff: seq<Byte>, l: Layout, pos: nat, n: nat, k: nat, r: PrefixIndexRec)
    requires Fits(buff, l, pos, n, k, r)
    ensures EntryAt(WithEntry(buff, l, k, r), l, k, r)
  {
    hide HeldAt, Put, Write;
    var at := l.tuples + k * TUPLE_SIZE;
    var b := Put(buff, at, Write(r.prefix, PREFIX_SIZE));
    PutHere(buff, at, Write(r.prefix, PREFIX_SIZE));
    PutElsewhere(b, at + PREFIX_SIZE, Write(r.order, ORDINAL_SIZE), at, Write(r.prefix, PREFIX_SIZE));
    PutHere(b, at + PREFIX_SIZE, Write(r.order, ORDINAL_SIZE));
    var t := WithTuple(buff, l, k, r);
    RestElsewhere(t, l, pos, n, k, r, at, Write(r.prefix, PREFIX_SIZE));
    RestElsewhere(t, l, pos, n, k, r, at + PREFIX_SIZE, Write(r.order, ORDINAL_SIZE));
    var u := Put(t, l.lengths + r.order * LENGTH_SIZE, Write(r.size, LENGTH_SIZE));
    PutHere(t, l.lengths + r.order * LENGTH_SIZE, Write(r.size, LENGTH_SIZE));
    PutElsewhere(u, l.suffixes + r.order * SUFFIX_SIZE, r.suffix, l.lengths + r.order * LENGTH_SIZE,
                 Write(r.size, LENGTH_SIZE));
    PutHere(u, l.suffixes + r.order * SUFFIX_SIZE, r.suffix);
  }

  lemma BeforeIndex(buff: seq<Byte>, l: Layout, pos: nat, n: nat, k: nat, r: PrefixIndexRec, there: nat,
                    held: seq<Byte>)
    requires Fits(buff, l, pos, n, k, r) && HeldAt(buff, there, held) && there + |held| <= pos
    ensures HeldAt(WithEntry(buff, l, k, r), there, held)
  {
    TupleElsewhere(buff, l, pos, n, k, r, there, held);
    RestElsewhere(WithTuple(buff, l, k, r), l, pos, n, k, r, there, held);
  }

  lemma OtherEntry(buff: seq<Byte>, l: Layout, pos: nat, n: nat, k: nat, r: PrefixIndexRec, k': nat, r': PrefixIndexRec)
    requires Fits(buff, l, pos, n, k, r) && Fits(buff, l, pos, n, k', r') && k != k' && r.order != r'.order
             && EntryAt(buff, l, k', r')
    ensures EntryAt(WithEntry(buff, l, k, r), l, k', r')
  {
    hide HeldAt, Put, Write;
    var t, s := l.tuples + k' * TUPLE_SIZE, l.lengths + r'.order * LENGTH_SIZE;
    var u := l.suffixes + r'.order * SUFFIX_SIZE;
    AwayFrom(buff, l, pos, n, k, r, t, Write(r'.prefix, PREFIX_SIZE));
    AwayFrom(buff, l, pos, n, k, r, t + PREFIX_SIZE, Write(r'.order, ORDINAL_SIZE));
    AwayFrom(buff, l, pos, n, k, r, s, Write(r'.size, LENGTH_SIZE));
    AwayFrom(buff, l, pos, n, k, r, u, r'.suffix);
  }

  /** What overlaps none of the three places of an entry is left alone. */
  lemma AwayFrom(buff: seq<Byte>, l: Layout, pos: nat, n: nat, k: nat, r: PrefixIndexRec, there: nat, held: seq<Byte>)
    requires Fits(buff, l, pos, n, k, r) && HeldAt(buff, there, held)
    requires there + |held| <= l.tuples + k * TUPLE_SIZE || l.tuples + k * TUPLE_SIZE + TUPLE_SIZE <= there
    requires there + |held| <= l.lengths + r.order * LENGTH_SIZE
             || l.lengths + r.order * LENGTH_SIZE + LENGTH_SIZE <= there
    requires there + |held| <= l.suffixes + r.order * SUFFIX_SIZE
             || l.suffixes + r.order * SUFFIX_SIZE + SUFFIX_SIZE <= there
    ensures HeldAt(WithEntry(buff, l, k, r), there, held)
  {
    hide HeldAt, Put, Write;
    TupleElsewhere(buff, l, pos, n, k, r, there, held);
    RestElsewhere(WithTuple(buff, l, k, r), l, pos, n, k, r, there, held);
  }

  // ---------- the writer ----------

  ghost predicate SortedRecs(recs: seq<PrefixIndexRec>) {
    forall i, j :: 0 <= i < j < |recs| ==> recs[i].prefix <= recs[j].prefix
  }

  ghost predicate DistinctOrders(recs: seq<PrefixIndexRec>) {
    forall i, j :: 0 <= i < j < |recs| ==> recs[i].order != recs[j].order
  }

  /** Puts one more record where it belongs. */
  method InsertRec(recs: seq<PrefixIndexRec>, r: PrefixIndexRec) returns (recs': seq<PrefixIndexRec>)
    requires SortedRecs(recs) && DistinctOrders(recs) && forall x :: x in recs ==> x.order != r.order
    ensures SortedRecs(recs') && DistinctOrders(recs') && |recs'| == |recs| + 1
            && forall x :: x in recs' <==> x in recs || x == r
  {
    var k: nat := |recs|;
    while k > 0 && recs[k - 1].prefix > r.prefix
      invariant k <= |recs| && forall i :: k <= i < |recs| ==> recs[i].prefix > r.prefix
    {
      k := k - 1;
    }
    recs' := recs[..k] + [r] + recs[k..];
    assert recs == recs[..k] + recs[k..];
    InsertedRec(recs, r, k, recs');
  }

  lemma InsertedRec(recs: seq<PrefixIndexRec>, r: PrefixIndexRec, k: nat, recs': seq<PrefixIndexRec>)
    requires SortedRecs(recs) && DistinctOrders(recs) && (forall x :: x in recs ==> x.order != r.order) && k <= |recs|
    requires (forall i :: k <= i < |recs| ==> recs[i].prefix > r.prefix) && (k > 0 ==> recs[k - 1].prefix <= r.prefix)
    requires recs' == recs[..k] + [r] + recs[k..]
    ensures SortedRecs(recs') && DistinctOrders(recs')
  {
    forall i, j | 0 <= i < j < |recs'| ensures recs'[i].prefix <= recs'[j].prefix && recs'[i].order != recs'[j].order {
      var i', j' := if i < k then i else i - 1, if j < k then j else j - 1;
      assert i != k ==> recs'[i] == recs[i'] && recs[i'] in recs;
      assert j != k ==> recs'[j] == recs[j'] && recs[j'] in recs;
      assert i < k - 1 ==> recs[i].prefix <= recs[k - 1].prefix;
    }
  }

  /** A permutation in the order of the prefixes. */
  method SortRecs(recs: seq<PrefixIndexRec>) returns (recs': seq<PrefixIndexRec>)
    requires DistinctOrders(recs)
    ensures SortedRecs(recs') && DistinctOrders(recs') && |recs'| == |recs| && forall x :: x in recs' <==> x in recs
  {
    recs' := [];
    for i := 0 to |recs|
      invariant SortedRecs(recs') && DistinctOrders(recs') && |recs'| == i && forall x :: x in recs' <==> x in recs[..i]
    {
      assert recs[..i + 1] == recs[..i] + [recs[i]];
      forall x | x in recs' ensures x.order != recs[i].order {
        assert x in recs[..i];
      }
      recs' := InsertRec(recs', recs[i]);
    }
    assert recs[..|recs|] == recs;
  }

  /** The records of the chunks added so far, in the order in which they were added. */
  ghost predicate RecordsOf(c: Codec, addrs: seq<Addr>, datas: seq<seq<Byte>>, recs: seq<PrefixIndexRec>) {
    && |addrs| == |datas| == |recs|
    && forall o ::
         0 <= o < |recs| ==> recs[o] == PrefixIndexRec(addrs[o].prefix, addrs[o].suffix, o, |Block(c, datas[o])|)
  }

  /** All entries of the first `n` of the sorted records are written. */
  ghost predicate Entries(buff: seq<Byte>, l: Layout, sorted: seq<PrefixIndexRec>, n: nat) {
    forall k :: 0 <= k < n && k < |sorted| ==> EntryAt(buff, l, k, sorted[k])
  }

  lemma OneMoreEntry(buff: seq<Byte>, c: Codec, datas: seq<seq<Byte>>, l: Layout, pos: nat, sorted: seq<PrefixIndexRec>,
                     i: nat)
    requires i < |sorted| && DistinctOrders(sorted) && Entries(buff, l, sorted, i) && Blocks(buff, c, datas)
             && pos == OffsetOf(c, datas, |datas|)
    requires AllFit(sorted, buff, l, pos)
    ensures Fits(buff, l, pos, |sorted|, i, sorted[i])
    ensures Entries(WithEntry(buff, l, i, sorted[i]), l, sorted, i + 1)
            && Blocks(WithEntry(buff, l, i, sorted[i]), c, datas)
  {
    assert Fits(buff, l, pos, |sorted|, i, sorted[i]) by {
      hide Fits;
    }
    hide EntryAt, WithEntry, HeldAt, Block, OffsetOf, Fits;
    EntryHere(buff, l, pos, |sorted|, i, sorted[i]);
    forall k | 0 <= k < i ensures EntryAt(WithEntry(buff, l, i, sorted[i]), l, k, sorted[k]) {
      OtherEntry(buff, l, pos, |sorted|, i, sorted[i], k, sorted[k]);
    }
    forall o | 0 <= o < |datas|
      ensures HeldAt(WithEntry(buff, l, i, sorted[i]), OffsetOf(c, datas, o), Block(c, datas[o])) {
      BlockEnds(c, datas, o);
      BeforeIndex(buff, l, pos, |sorted|, i, sorted[i], OffsetOf(c, datas, o), Block(c, datas[o]));
    }
  }

  class TableWriter {
    const codec: Codec
    var buff: seq<Byte>
    var pos: nat
    var totalPhysicalData: nat
    var prefixes: seq<PrefixIndexRec>
    ghost var addrs: seq<Addr>
    ghost var datas: seq<seq<Byte>>

    ghost predicate Valid()
      reads this
    {
      && RecordsOf(codec, addrs, datas, prefixes) && Blocks(buff, codec, datas)
         && pos == OffsetOf(codec, datas, |datas|)
      && totalPhysicalData == CompressedSize(codec, datas, |datas|)
    }

    constructor (codec: Codec, buff: seq<Byte>)
      ensures Valid() && this.codec == codec && this.buff == buff && addrs == [] && datas == []
    {
      this.codec, this.buff, this.pos, this.totalPhysicalData := codec, buff, 0, 0;
      this.prefixes, this.addrs, this.datas := [], [], [];
    }

    /** Stores one more chunk. */
    method AddChunk(h: Addr, data: seq<Byte>)
      requires Valid() && data != [] && pos + |Block(codec, data)| <= |buff|
      modifies this
      ensures Valid() && addrs == old(addrs) + [h] && datas == old(datas) + [data] && |buff| == |old(buff)|
    {
      hide Put, Blocks, RecordsOf, OffsetOf, Write;
      AddedBlock(buff, codec, datas, data, pos);
      CompressedPrefix(codec, datas, data, |datas|);
      AddedRecord(codec, addrs, datas, prefixes, h, data);
      PutBoth(buff, pos, codec.encode(data), Write(codec.crc(data), CHECKSUM_SIZE));
      var compressed := codec.encode(data);
      var dataLength := |compressed|;
      buff := Put(buff, pos, compressed);
      pos, totalPhysicalData := pos + dataLength, totalPhysicalData + dataLength;
      buff := Put(buff, pos, Write(codec.crc(data), CHECKSUM_SIZE));
      pos := pos + CHECKSUM_SIZE;
      prefixes := prefixes + [PrefixIndexRec(h.prefix, h.suffix, |prefixes|, CHECKSUM_SIZE + dataLength)];
      addrs, datas := addrs + [h], datas + [data];
    }

    /** Writes the index after the chunks. */
    method WriteIndex()
      requires Valid() && LayoutAt(pos, |prefixes|).end <= |buff| && SuffixesFit(addrs)
      modifies this`buff, this`pos, this`prefixes
      ensures |buff| == |old(buff)| && |prefixes| == |old(prefixes)|
      ensures Blocks(buff, codec, datas) && SortedRecs(prefixes) && Shuffled(old(prefixes), prefixes)
      ensures pos == LayoutAt(old(pos), |prefixes|).end
              && Entries(buff, LayoutAt(old(pos), |prefixes|), prefixes, |prefixes|)
    {
      ghost var l := LayoutAt(pos, |prefixes|);
      RecordsFit(codec, addrs, datas, prefixes, buff, l, pos);
      hide Blocks, Entries, OffsetOf, RecordsOf, DistinctOrders, SortedRecs, AllFit;
      var sorted := SortRecs(prefixes);
      ShuffledFit(prefixes, sorted, buff, l, pos);
      buff, pos := WriteEntries(buff, pos, sorted, codec, datas);
      prefixes := sorted;
    }

    method WriteFooter() returns (table: seq<Byte>)
      requires pos + FOOTER_SIZE <= |buff|
      modifies this`buff, this`pos
      ensures table == WithFooter(old(buff), old(pos), |prefixes|, totalPhysicalData)
      ensures |table| == old(pos) + FOOTER_SIZE && forall i :: 0 <= i < old(pos) ==> table[i] == old(buff)[i]
      ensures HeldAt(table, |table| - 20, Write(|prefixes|, 4))
              && HeldAt(table, |table| - 16, Write(totalPhysicalData, 8))
      ensures HeldAt(table, |table| - 8, MAGIC_NUMBER)
    {
      hide Put, Write, HeldAt;
      Footer(buff, pos, |prefixes|, totalPhysicalData);
      buff := Put(buff, pos, Write(|prefixes|, 4));
      pos := pos + 4;
      buff := Put(buff, pos, Write(totalPhysicalData, 8));
      pos := pos + 8;
      buff := Put(buff, pos, MAGIC_NUMBER);
      pos := pos + 8;
      table := buff[..pos];
    }

    /** Writes index and footer: what is then in the buffer is a table of the chunks added. */
    method Finish() returns (table: seq<Byte>)
      requires Valid() && LayoutAt(pos, |prefixes|).end + FOOTER_SIZE <= |buff| && SuffixesFit(addrs)
               && Widths(prefixes)
      modifies this`buff, this`pos, this`prefixes
      ensures IsTable(table, codec, addrs, datas, old(prefixes), prefixes)
    {
      hide IsTable, Blocks, Entries, OffsetOf, RecordsOf, SortedRecs, Widths, SuffixesFit, Shuffled, DistinctOrders,
           WithFooter;
      ghost var recs, start := prefixes, pos;
      WriteIndex();
      ghost var before, at := buff, pos;
      table := WriteFooter();
      Finished(before, table, codec, addrs, datas, recs, prefixes, start, at, totalPhysicalData);
    }
  }

  lemma Finished(before: seq<Byte>, t: seq<Byte>, c: Codec, addrs: seq<Addr>, datas: seq<seq<Byte>>,
                 recs: seq<PrefixIndexRec>,
                 sorted: seq<PrefixIndexRec>, start: nat, at: nat, total: nat)
    requires RecordsOf(c, addrs, datas, recs) && SuffixesFit(addrs) && Widths(recs) && SortedRecs(sorted)
             && Shuffled(recs, sorted)
    requires start == OffsetOf(c, datas, |datas|) && at == LayoutAt(start, |sorted|).end && at + FOOTER_SIZE <= |before|
    requires Blocks(before, c, datas) && Entries(before, LayoutAt(start, |sorted|), sorted, |sorted|)
    requires t == WithFooter(before, at, |sorted|, total) && total == CompressedSize(c, datas, |datas|)
    ensures IsTable(t, c, addrs, datas, recs, sorted)
  {
    hide Blocks, Entries, OffsetOf, SortedRecs, Widths, SuffixesFit, WithFooter, HeldAt, DistinctOrders;
    var l := LayoutAt(start, |sorted|);
    RecordsFit(c, addrs, datas, recs, before, l, start);
    ShuffledFit(recs, sorted, before, l, start);
    Footer(before, at, |sorted|, total);
    AllBeyond(before, t, c, datas, l, start, sorted);
  }

  /** Writes the sorted records as tuples, and for each chunk its length and suffix. */
  method WriteEntries(buff0: seq<Byte>, start: nat, sorted: seq<PrefixIndexRec>, ghost codec: Codec,
                      ghost datas: seq<seq<Byte>>)
    returns (buff: seq<Byte>, pos: nat)
    requires AllFit(sorted, buff0, LayoutAt(start, |sorted|), start) && DistinctOrders(sorted)
    requires Blocks(buff0, codec, datas) && start == OffsetOf(codec, datas, |datas|)
    ensures |buff| == |buff0| && pos == LayoutAt(start, |sorted|).end
    ensures Blocks(buff, codec, datas) && Entries(buff, LayoutAt(start, |sorted|), sorted, |sorted|)
  {
    ghost var l := LayoutAt(start, |sorted|);
    hide Blocks, Entries, OffsetOf, AllFit, DistinctOrders, WithEntry;
    buff, pos := buff0, start;
    var numRecords := |sorted|;
    var lengthsOffset := pos + numRecords * TUPLE_SIZE;
    var suffixesOffset := lengthsOffset + numRecords * LENGTH_SIZE;
    NoEntries(buff, l, sorted);
    for i := 0 to numRecords
      invariant pos == start + i * TUPLE_SIZE && |buff| == |buff0|
      invariant Blocks(buff, codec, datas) && Entries(buff, l, sorted, i)
    {
      StillFit(sorted, buff0, buff, l, start);
      OneMoreEntry(buff, codec, datas, l, start, sorted, i);
      buff, pos := WriteEntry(buff, pos, sorted[i], lengthsOffset, suffixesOffset, l, start, numRecords, i);
    }
    pos := suffixesOffset + numRecords * SUFFIX_SIZE;
  }

  lemma NoEntries(buff: seq<Byte>, l: Layout, sorted: seq<PrefixIndexRec>)
    ensures Entries(buff, l, sorted, 0)
  {
  }

  method WriteEntry(buff0: seq<Byte>, pos0: nat, pi: PrefixIndexRec, lengthsOffset: nat, suffixesOffset: nat,
                    ghost l: Layout, ghost start: nat, ghost n: nat, ghost i: nat)
    returns (buff: seq<Byte>, pos: nat)
    requires Fits(buff0, l, start, n, i, pi) && pos0 == start + i * TUPLE_SIZE && lengthsOffset == l.lengths
             && suffixesOffset == l.suffixes
    ensures buff == WithEntry(buff0, l, i, pi) && pos == pos0 + TUPLE_SIZE
  {
    hide Put, Write;
    buff, pos := buff0, pos0;
    buff := Put(buff, pos, Write(pi.prefix, PREFIX_SIZE));
    pos := pos + PREFIX_SIZE;
    buff := Put(buff, pos, Write(pi.order, ORDINAL_SIZE));
    pos := pos + ORDINAL_SIZE;
    buff := Put(buff, lengthsOffset + pi.order * LENGTH_SIZE, Write(pi.size, LENGTH_SIZE));
    buff := Put(buff, suffixesOffset + pi.order * SUFFIX_SIZE, pi.suffix);
  }

  ghost predicate SuffixesFit(addrs: seq<Addr>) {
    forall o :: 0 <= o < |addrs| ==> |addrs[o].suffix| == SUFFIX_SIZE
  }

  ghost predicate Shuffled(recs: seq<PrefixIndexRec>, sorted: seq<PrefixIndexRec>) {
    |sorted| == |recs| && DistinctOrders(sorted) && forall x :: x in sorted <==> x in recs
  }

  ghost predicate AllFit(recs: seq<PrefixIndexRec>, buff: seq<Byte>, l: Layout, pos: nat) {
    forall k :: 0 <= k < |recs| ==> Fits(buff, l, pos, |recs|, k, recs[k])
  }

  lemma RecordsFit(c: Codec, addrs: seq<Addr>, datas: seq<seq<Byte>>, recs: seq<PrefixIndexRec>, buff: seq<Byte>,
                   l: Layout, pos: nat)
    requires RecordsOf(c, addrs, datas, recs) && l == LayoutAt(pos, |recs|) && l.end <= |buff| && SuffixesFit(addrs)
    ensures DistinctOrders(recs) && AllFit(recs, buff, l, pos)
  {
  }

  lemma ShuffledFit(recs: seq<PrefixIndexRec>, sorted: seq<PrefixIndexRec>, buff: seq<Byte>, l: Layout, pos: nat)
    requires AllFit(recs, buff, l, pos) && Shuffled(recs, sorted)
    ensures AllFit(sorted, buff, l, pos)
  {
    forall k | 0 <= k < |sorted| ensures Fits(buff, l, pos, |sorted|, k, sorted[k]) {
      assert sorted[k] in recs;
    }
  }

  lemma StillFit(recs: seq<PrefixIndexRec>, buff: seq<Byte>, buff': seq<Byte>, l: Layout, pos: nat)
    requires AllFit(recs, buff, l, pos) && |buff'| == |buff|
    ensures AllFit(recs, buff', l, pos)
  {
  }

  lemma AddedRecord(c: Codec, addrs: seq<Addr>, datas: seq<seq<Byte>>, recs: seq<PrefixIndexRec>, h: Addr,
                    data: seq<Byte>)
    requires RecordsOf(c, addrs, datas, recs)
    ensures RecordsOf(c, addrs + [h], datas + [data],
                      recs + [PrefixIndexRec(h.prefix, h.suffix, |recs|, CHECKSUM_SIZE + |c.encode(data)|)])
  {
  }

  lemma AddedBlock(buff: seq<Byte>, c: Codec, datas: seq<seq<Byte>>, data: seq<Byte>, pos: nat)
    requires Blocks(buff, c, datas) && pos == OffsetOf(c, datas, |datas|) && pos + |Block(c, data)| <= |buff|
    ensures Blocks(Put(buff, pos, Block(c, data)), c, datas + [data])
    ensures OffsetOf(c, datas + [data], |datas| + 1) == pos + |Block(c, data)|
  {
    var b := Put(buff, pos, Block(c, data));
    hide Put, HeldAt, Block, OffsetOf;
    PutHere(buff, pos, Block(c, data));
    forall o | 0 <= o < |datas| ensures HeldAt(b, OffsetOf(c, datas, o), Block(c, datas[o])) {
      BlockEnds(c, datas, o);
      PutElsewhere(buff, pos, Block(c, data), OffsetOf(c, datas, o), Block(c, datas[o]));
    }
    BlocksSnoc(b, c, datas, data);
  }

  /** Every chunk ends before the chunks do. */
  lemma BlockEnds(c: Codec, datas: seq<seq<Byte>>, o: nat)
    requires o < |datas|
    ensures OffsetOf(c, datas, o) + |Block(c, datas[o])| <= OffsetOf(c, datas, |datas|)
  {
    hide Block;
    OffsetGrows(c, datas, o + 1, |datas|);
  }

  lemma BlocksSnoc(buff: seq<Byte>, c: Codec, datas: seq<seq<Byte>>, data: seq<Byte>)
    requires Blocks(buff, c, datas) && HeldAt(buff, OffsetOf(c, datas, |datas|), Block(c, data))
    ensures Blocks(buff, c, datas + [data]) && OffsetOf(c, datas + [data], |datas| + 1) == OffsetOf(c, datas, |datas|)
            + |Block(c, data)|
  {
    hide HeldAt, Block, OffsetOf;
    var more := datas + [data];
    LastOffset(c, datas, data);
    forall o | 0 <= o < |more| ensures HeldAt(buff, OffsetOf(c, more, o), Block(c, more[o])) {
      OffsetPrefix(c, datas, data, o);
      if o < |datas| {
        assert more[o] == datas[o];
      }
    }
  }

  lemma LastOffset(c: Codec, datas: seq<seq<Byte>>, data: seq<Byte>)
    ensures OffsetOf(c, datas + [data], |datas| + 1) == OffsetOf(c, datas, |datas|) + |Block(c, data)|
  {
    OffsetPrefix(c, datas, data, |datas|);
  }

  // ---------- the whole table ----------

  /** Every number fits the width it is written in. */
  ghost predicate Widths(recs: seq<PrefixIndexRec>) {
    && |recs| < Power256(4)
    && forall k :: 0 <= k < |recs| ==> recs[k].prefix < Power256(8) && recs[k].order < Power256(4)
                                       && recs[k].size < Power256(4)
  }

  /** The bytes of a table with the given chunks; `sorted` are its records in the order of the index. */
  ghost predicate IsTable(t: seq<Byte>, c: Codec, addrs: seq<Addr>, datas: seq<seq<Byte>>, recs: seq<PrefixIndexRec>,
                          sorted: seq<PrefixIndexRec>) {
    && RecordsOf(c, addrs, datas, recs) && SuffixesFit(addrs) && Widths(recs) && SortedRecs(sorted)
       && Shuffled(recs, sorted)
    && var l := LayoutAt(OffsetOf(c, datas, |datas|), |addrs|);
       && |t| == l.end + FOOTER_SIZE && Blocks(t, c, datas) && Entries(t, l, sorted, |sorted|)
       && HeldAt(t, l.end, Write(|addrs|, 4)) && HeldAt(t, l.end + 4, Write(CompressedSize(c, datas, |datas|), 8))
       && HeldAt(t, l.end + 12, MAGIC_NUMBER)
  }

  /** What lies before the place written to stays, and so it does when the buffer is cut off after it. */
  lemma Beyond(buff: seq<Byte>, buff': seq<Byte>, at: nat, there: nat, held: seq<Byte>)
    requires |buff'| >= at && |buff| >= at && (forall i :: 0 <= i < at ==> buff'[i] == buff[i])
             && HeldAt(buff, there, held) && there + |held| <= at
    ensures HeldAt(buff', there, held)
  {
    assert buff'[there..there + |held|] == buff[there..there + |held|];
  }

  lemma EntryBeyond(buff: seq<Byte>, buff': seq<Byte>, l: Layout, pos: nat, n: nat, k: nat, r: PrefixIndexRec)
    requires Fits(buff, l, pos, n, k, r) && EntryAt(buff, l, k, r) && |buff'| >= l.end
             && forall i :: 0 <= i < l.end ==> buff'[i] == buff[i]
    ensures EntryAt(buff', l, k, r)
  {
    hide HeldAt, Write;
    Beyond(buff, buff', l.end, l.tuples + k * TUPLE_SIZE, Write(r.prefix, PREFIX_SIZE));
    Beyond(buff, buff', l.end, l.tuples + k * TUPLE_SIZE + PREFIX_SIZE, Write(r.order, ORDINAL_SIZE));
    Beyond(buff, buff', l.end, l.lengths + r.order * LENGTH_SIZE, Write(r.size, LENGTH_SIZE));
    Beyond(buff, buff', l.end, l.suffixes + r.order * SUFFIX_SIZE, r.suffix);
  }

  lemma AllBeyond(buff: seq<Byte>, buff': seq<Byte>, c: Codec, datas: seq<seq<Byte>>, l: Layout, pos: nat,
                  sorted: seq<PrefixIndexRec>)
    requires AllFit(sorted, buff, l, pos) && l == LayoutAt(pos, |sorted|) && pos == OffsetOf(c, datas, |datas|)
    requires Blocks(buff, c, datas) && Entries(buff, l, sorted, |sorted|)
    requires |buff| >= l.end && |buff'| >= l.end && forall i :: 0 <= i < l.end ==> buff'[i] == buff[i]
    ensures Blocks(buff', c, datas) && Entries(buff', l, sorted, |sorted|)
  {
    hide EntryAt, HeldAt, Block;
    forall k | 0 <= k < |sorted| ensures EntryAt(buff', l, k, sorted[k]) {
      EntryBeyond(buff, buff', l, pos, |sorted|, k, sorted[k]);
    }
    forall o | 0 <= o < |datas| ensures HeldAt(buff', OffsetOf(c, datas, o), Block(c, datas[o])) {
      OffsetGrows(c, datas, o + 1, |datas|);
      Beyond(buff, buff', l.end, OffsetOf(c, datas, o), Block(c, datas[o]));
    }
  }

  /** The footer, and the table cut off after it. */
  function WithFooter(buff: seq<Byte>, at: nat, count: nat, total: nat): (t: seq<Byte>)
    requires at + FOOTER_SIZE <= |buff|
    ensures |t| == at + FOOTER_SIZE
  {
    Put(Put(Put(buff, at, Write(count, 4)), at + 4, Write(total, 8)), at + 12, MAGIC_NUMBER)[..at + FOOTER_SIZE]
  }

  lemma Footer(buff: seq<Byte>, at: nat, count: nat, total: nat)
    requires at + FOOTER_SIZE <= |buff|
    ensures var t := WithFooter(buff, at, count, total);
            && HeldAt(t, at, Write(count, 4)) && HeldAt(t, at + 4, Write(total, 8)) && HeldAt(t, at + 12, MAGIC_NUMBER)
            && forall i :: 0 <= i < at ==> t[i] == buff[i]
  {
    var b1 := Put(buff, at, Write(count, 4));
    var b2 := Put(b1, at + 4, Write(total, 8));
    var b3 := Put(b2, at + 12, MAGIC_NUMBER);
    PutHere(buff, at, Write(count, 4));
    PutElsewhere(b1, at + 4, Write(total, 8), at, Write(count, 4));
    PutElsewhere(b2, at + 12, MAGIC_NUMBER, at, Write(count, 4));
    PutHere(b1, at + 4, Write(total, 8));
    PutElsewhere(b2, at + 12, MAGIC_NUMBER, at + 4, Write(total, 8));
    PutHere(b2, at + 12, MAGIC_NUMBER);
    hide Put, Write;
    CutOff(b3, at + FOOTER_SIZE, at, Write(count, 4));
    CutOff(b3, at + FOOTER_SIZE, at + 4, Write(total, 8));
    CutOff(b3, at + FOOTER_SIZE, at + 12, MAGIC_NUMBER);
    forall i | 0 <= i < at ensures b3[i] == buff[i] {
      PutAt(buff, at, Write(count, 4), i);
      PutAt(b1, at + 4, Write(total, 8), i);
      PutAt(b2, at + 12, MAGIC_NUMBER, i);
    }
  }

  lemma PutAt(buff: seq<Byte>, at: nat, bytes: seq<Byte>, i: nat)
    requires at + |bytes| <= |buff| && i < at
    ensures Put(buff, at, bytes)[i] == buff[i]
  {
  }

  lemma CutOff(buff: seq<Byte>, end: nat, there: nat, held: seq<Byte>)
    requires end <= |buff| && HeldAt(buff, there, held) && there + |held| <= end
    ensures HeldAt(buff[..end], there, held)
  {
    assert buff[..end][there..there + |held|] == buff[there..there + |held|];
  }

  // ---------- the reader ----------

  /** An index that says of the given chunks where they are. */
  ghost predicate Describes(ti: TableIndex, c: Codec, addrs: seq<Addr>, datas: seq<seq<Byte>>) {
    && Indexes(ti, addrs) && |datas| == |ti.lengths| == |ti.offsets| == |addrs|
    && forall o :: 0 <= o < |addrs| ==> ti.lengths[o] == |Block(c, datas[o])| && ti.offsets[o] == OffsetOf(c, datas, o)
  }

  /** The number held somewhere in the buffer. */
  lemma ReadHeld(buff: seq<Byte>, at: nat, n: nat, k: nat)
    requires HeldAt(buff, at, Write(n, k)) && n < Power256(k)
    ensures at + k <= |buff| && Read(buff[at..at + k]) == n
  {
    ReadWrite(n, k);
  }

  /** The entry of each chunk. */
  lemma EntryOf(c: Codec, addrs: seq<Addr>, datas: seq<seq<Byte>>, recs: seq<PrefixIndexRec>,
                sorted: seq<PrefixIndexRec>, o: nat) returns (k: nat)
    requires RecordsOf(c, addrs, datas, recs) && Shuffled(recs, sorted) && o < |addrs|
    ensures k < |sorted| && sorted[k] == PrefixIndexRec(addrs[o].prefix, addrs[o].suffix, o, |Block(c, datas[o])|)
  {
    assert recs[o] in sorted;
    k :| 0 <= k < |sorted| && sorted[k] == recs[o];
  }

  /** The lengths of the chunks are held one after the other. */
  ghost predicate LengthsAt(buff: seq<Byte>, at: nat, c: Codec, datas: seq<seq<Byte>>) {
    forall o :: 0 <= o < |datas| ==> LengthAt(buff, at, o, |Block(c, datas[o])|)
  }

  ghost predicate LengthAt(buff: seq<Byte>, at: nat, o: nat, length: nat) {
    HeldAt(buff, at + o * LENGTH_SIZE, Write(length, LENGTH_SIZE)) && length < Power256(LENGTH_SIZE)
  }

  lemma ReadLength(buff: seq<Byte>, at: nat, c: Codec, datas: seq<seq<Byte>>, o: nat)
    requires LengthsAt(buff, at, c, datas) && o < |datas|
    ensures at + o * LENGTH_SIZE + LENGTH_SIZE <= |buff|
    ensures Read(buff[at + o * LENGTH_SIZE..at + o * LENGTH_SIZE + LENGTH_SIZE]) == |Block(c, datas[o])|
    ensures OffsetOf(c, datas, o + 1) == OffsetOf(c, datas, o) + |Block(c, datas[o])|
  {
    assert LengthAt(buff, at, o, |Block(c, datas[o])|);
    ReadHeld(buff, at + o * LENGTH_SIZE, |Block(c, datas[o])|, LENGTH_SIZE);
  }

  /** The first `n` lengths, and the places that they add up to. */
  ghost predicate Summed(c: Codec, datas: seq<seq<Byte>>, lengths: seq<nat>, offsets: seq<nat>, n: nat) {
    && |lengths| == |offsets| == n <= |datas|
    && forall o :: 0 <= o < n ==> lengths[o] == |Block(c, datas[o])| && offsets[o] == OffsetOf(c, datas, o)
  }

  lemma SummedNext(c: Codec, datas: seq<seq<Byte>>, lengths: seq<nat>, offsets: seq<nat>, n: nat)
    requires Summed(c, datas, lengths, offsets, n) && 0 < n < |datas|
    ensures Summed(c, datas, lengths + [|Block(c, datas[n])|], offsets + [offsets[n - 1] + lengths[n - 1]], n + 1)
  {
    hide Block;
    assert OffsetOf(c, datas, n) == OffsetOf(c, datas, n - 1) + |Block(c, datas[n - 1])|;
  }

  lemma SummedFirst(c: Codec, datas: seq<seq<Byte>>)
    requires datas != []
    ensures Summed(c, datas, [|Block(c, datas[0])|], [0], 1)
  {
  }

  /** Reads the lengths, and adds them up. */
  method ComputeOffsets(count: nat, buff: seq<Byte>, at: nat, ghost c: Codec, ghost datas: seq<seq<Byte>>)
    returns (lengths: seq<nat>, offsets: seq<nat>)
    requires 0 < count == |datas| && LengthsAt(buff, at, c, datas)
    ensures Summed(c, datas, lengths, offsets, count)
  {
    hide Block, LengthsAt, Read, OffsetOf;
    ReadLength(buff, at, c, datas, 0);
    lengths, offsets := [Read(buff[at..at + LENGTH_SIZE])], [0];
    SummedFirst(c, datas);
    for i := 1 to count
      invariant |lengths| == |offsets| == i && Summed(c, datas, lengths, offsets, i)
    {
      hide Summed;
      ReadLength(buff, at, c, datas, i);
      SummedNext(c, datas, lengths, offsets, i);
      offsets := offsets + [offsets[i - 1] + lengths[i - 1]];
      lengths := lengths + [Read(buff[at + i * LENGTH_SIZE..at + i * LENGTH_SIZE + LENGTH_SIZE])];
    }
  }

  /** Reads prefixes and ordinals. */
  method ComputePrefixes(count: nat, buff: seq<Byte>, at: nat, ghost l: Layout, ghost sorted: seq<PrefixIndexRec>)
    returns (prefixes: seq<nat>, ordinals: seq<nat>)
    requires count == |sorted| && l.tuples == at && at + count * TUPLE_SIZE <= |buff| && Entries(buff, l, sorted, count)
    requires forall k :: 0 <= k < count ==> sorted[k].prefix < Power256(8) && sorted[k].order < Power256(4)
    ensures |prefixes| == |ordinals| == count
    ensures forall k :: 0 <= k < count ==> prefixes[k] == sorted[k].prefix && ordinals[k] == sorted[k].order
  {
    prefixes, ordinals := [], [];
    for i := 0 to count
      invariant |prefixes| == |ordinals| == i
      invariant forall k :: 0 <= k < i ==> prefixes[k] == sorted[k].prefix && ordinals[k] == sorted[k].order
    {
      assert EntryAt(buff, l, i, sorted[i]);
      hide HeldAt, Read, Write;
      var idx := at + i * TUPLE_SIZE;
      ReadHeld(buff, idx, sorted[i].prefix, PREFIX_SIZE);
      ReadHeld(buff, idx + PREFIX_SIZE, sorted[i].order, ORDINAL_SIZE);
      prefixes := prefixes + [Read(buff[idx..idx + PREFIX_SIZE])];
      ordinals := ordinals + [Read(buff[idx + PREFIX_SIZE..idx + PREFIX_SIZE + ORDINAL_SIZE])];
    }
  }

  /** What of a table its index needs. */
  lemma TableParts(t: seq<Byte>, c: Codec, addrs: seq<Addr>, datas: seq<seq<Byte>>, recs: seq<PrefixIndexRec>,
                   sorted: seq<PrefixIndexRec>)
    requires IsTable(t, c, addrs, datas, recs, sorted)
    ensures |addrs| == |datas| == |recs| == |sorted|
    ensures RecordsOf(c, addrs, datas, recs) && Shuffled(recs, sorted) && SortedRecs(sorted) && SuffixesFit(addrs)
            && Widths(recs)
    ensures var l := LayoutAt(OffsetOf(c, datas, |datas|), |addrs|);
            |t| == l.end + FOOTER_SIZE && Entries(t, l, sorted, |sorted|) && HeldAt(t, l.end, Write(|addrs|, 4))
              && HeldAt(t, l.end + 12, MAGIC_NUMBER)
    ensures forall k :: 0 <= k < |sorted| ==> sorted[k].prefix < Power256(8) && sorted[k].order < Power256(4)
  {
    forall k | 0 <= k < |sorted| ensures sorted[k].prefix < Power256(8) && sorted[k].order < Power256(4) {
      assert sorted[k] in recs;
    }
  }

  /** Length and suffix of each chunk are in their places. */
  lemma TablePlaces(t: seq<Byte>, c: Codec, addrs: seq<Addr>, datas: seq<seq<Byte>>, recs: seq<PrefixIndexRec>,
                    sorted: seq<PrefixIndexRec>, l: Layout, o: nat)
    requires RecordsOf(c, addrs, datas, recs) && Shuffled(recs, sorted) && Widths(recs)
             && Entries(t, l, sorted, |sorted|) && o < |addrs|
    ensures LengthAt(t, l.lengths, o, |Block(c, datas[o])|) && HeldAt(t, l.suffixes + o * SUFFIX_SIZE, addrs[o].suffix)
  {
    hide HeldAt, Block, Write;
    var k := EntryOf(c, addrs, datas, recs, sorted, o);
    assert EntryAt(t, l, k, sorted[k]);
    assert recs[o].size < Power256(4);
  }

  lemma TableLengths(t: seq<Byte>, c: Codec, addrs: seq<Addr>, datas: seq<seq<Byte>>, recs: seq<PrefixIndexRec>,
                     sorted: seq<PrefixIndexRec>)
    requires IsTable(t, c, addrs, datas, recs, sorted)
    ensures LengthsAt(t, LayoutAt(OffsetOf(c, datas, |datas|), |addrs|).lengths, c, datas)
  {
    hide IsTable, RecordsOf, Shuffled, SortedRecs, Widths, Entries, HeldAt, Block, LengthAt, OffsetOf;
    TableParts(t, c, addrs, datas, recs, sorted);
    forall o | 0 <= o < |datas|
      ensures LengthAt(t, LayoutAt(OffsetOf(c, datas, |datas|), |addrs|).lengths, o, |Block(c, datas[o])|) {
      TablePlaces(t, c, addrs, datas, recs, sorted, LayoutAt(OffsetOf(c, datas, |datas|), |addrs|), o);
    }
  }

  /** What the parser reads. */
  ghost predicate ReadFrom(ti: TableIndex, t: seq<Byte>, l: Layout, sorted: seq<PrefixIndexRec>) {
    && ti.chunkCount == |ti.prefixes| == |ti.ordinals| == |sorted| && l.suffixes <= l.end <= |t|
       && ti.suffixes == t[l.suffixes..l.end]
    && forall k :: 0 <= k < |sorted| ==> ti.prefixes[k] == sorted[k].prefix && ti.ordinals[k] == sorted[k].order
  }

  /** What the parser has read is an index of the chunks. */
  lemma Parsed(t: seq<Byte>, c: Codec, addrs: seq<Addr>, datas: seq<seq<Byte>>, recs: seq<PrefixIndexRec>,
               sorted: seq<PrefixIndexRec>, ti: TableIndex, l: Layout, pos: nat)
    requires RecordsOf(c, addrs, datas, recs) && Shuffled(recs, sorted) && SortedRecs(sorted) && SuffixesFit(addrs)
             && Widths(recs)
    requires l == LayoutAt(pos, |addrs|) && Entries(t, l, sorted, |sorted|) && ReadFrom(ti, t, l, sorted)
    ensures Indexes(ti, addrs)
  {
    hide Entries, Block, HeldAt, LengthAt, Widths;
    forall i | 0 <= i < |addrs| ensures ti.ordinals[i] < |addrs| && addrs[ti.ordinals[i]].prefix == ti.prefixes[i] {
      assert sorted[i] in recs;
    }
    forall o | 0 <= o < |addrs| ensures Listed(ti.ordinals, o) && SuffixAt(ti, o) == addrs[o].suffix {
      var k := EntryOf(c, addrs, datas, recs, sorted, o);
      assert ti.ordinals[k] == o;
      TablePlaces(t, c, addrs, datas, recs, sorted, l, o);
      SuffixSlice(t, l.suffixes, |addrs|, o, addrs[o].suffix);
    }
  }

  lemma SuffixSlice(t: seq<Byte>, at: nat, n: nat, o: nat, suffix: seq<Byte>)
    requires o < n && at + n * SUFFIX_SIZE <= |t| && |suffix| == SUFFIX_SIZE && HeldAt(t, at + o * SUFFIX_SIZE, suffix)
    ensures t[at..at + n * SUFFIX_SIZE][SUFFIX_SIZE * o..SUFFIX_SIZE * (o + 1)] == suffix
  {
    var s, p := t[at..at + n * SUFFIX_SIZE], at + o * SUFFIX_SIZE;
    assert SUFFIX_SIZE * (o + 1) <= |s|;
    forall i | 0 <= i < SUFFIX_SIZE ensures s[SUFFIX_SIZE * o + i] == suffix[i] {
      assert s[SUFFIX_SIZE * o + i] == t[p + i] == t[p..p + |suffix|][i];
    }
  }

  /** The footer of a table: how many chunks, provided the magic number is there. */
  method ParseFooter(buff: seq<Byte>) returns (chunkCount: Option<nat>)
    ensures chunkCount.Some? <==> |buff| >= FOOTER_SIZE && buff[|buff| - 8..] == MAGIC_NUMBER
    ensures chunkCount.Some? ==> chunkCount.value == Read(buff[|buff| - 20..|buff| - 16])
  {
    if |buff| < FOOTER_SIZE || buff[|buff| - 8..] != MAGIC_NUMBER {
      return None;
    }
    var pos := |buff| - 8 - 8 - 4;
    return Some(Read(buff[pos..pos + 4]));
  }

  lemma TableFooter(t: seq<Byte>, c: Codec, addrs: seq<Addr>, datas: seq<seq<Byte>>, recs: seq<PrefixIndexRec>,
                    sorted: seq<PrefixIndexRec>)
    requires IsTable(t, c, addrs, datas, recs, sorted)
    ensures |t| >= FOOTER_SIZE && t[|t| - 8..] == MAGIC_NUMBER && Read(t[|t| - 20..|t| - 16]) == |addrs|
  {
    hide Blocks, Entries, Block, RecordsOf, Shuffled, SortedRecs;
    TableParts(t, c, addrs, datas, recs, sorted);
    var end := LayoutAt(OffsetOf(c, datas, |datas|), |addrs|).end;
    ReadHeld(t, end, |addrs|, 4);
    assert t[end + 12..end + 12 + 8] == t[|t| - 8..];
  }

  /** Reads the index of a table: it says where each of its chunks is. */
  method ParseTableIndex(buff: seq<Byte>, ghost c: Codec, ghost addrs: seq<Addr>, ghost datas: seq<seq<Byte>>,
                         ghost recs: seq<PrefixIndexRec>, ghost sorted: seq<PrefixIndexRec>)
    returns (ti: TableIndex)
    requires IsTable(buff, c, addrs, datas, recs, sorted) && addrs != []
    ensures Describes(ti, c, addrs, datas)
  {
    hide IsTable, Blocks, Entries, Block, RecordsOf, Shuffled, SortedRecs, SuffixesFit, Widths, LengthsAt, OffsetOf,
         Read, HeldAt, Indexes, Power256;
    TableFooter(buff, c, addrs, datas, recs, sorted);
    TableParts(buff, c, addrs, datas, recs, sorted);
    TableLengths(buff, c, addrs, datas, recs, sorted);
    ghost var l := LayoutAt(OffsetOf(c, datas, |datas|), |addrs|);
    var count := ParseFooter(buff);
    var chunkCount, pos := count.value, |buff| - FOOTER_SIZE;
    var suffixesSize := chunkCount * SUFFIX_SIZE;
    var suffixes := buff[pos - suffixesSize..pos];
    pos := pos - suffixesSize;
    pos := pos - chunkCount * LENGTH_SIZE;
    var lengths, offsets := ComputeOffsets(chunkCount, buff, pos, c, datas);
    pos := pos - chunkCount * TUPLE_SIZE;
    var prefixes, ordinals := ComputePrefixes(chunkCount, buff, pos, l, sorted);
    ti := TableIndex(chunkCount, prefixes, offsets, lengths, ordinals, suffixes);
    Parsed(buff, c, addrs, datas, recs, sorted, ti, l, pos);
  }

  // ---------- reading chunks ----------

  /** Undoes the storing of a chunk, unless the checksum is wrong. */
  method ParseChunk(c: Codec, block: seq<Byte>) returns (data: Option<seq<Byte>>)
    requires |block| >= CHECKSUM_SIZE
    ensures forall d :: Works(c) && block == Block(c, d) ==> data == Some(d)
  {
    var dataLen := |block| - CHECKSUM_SIZE;
    var d := c.decode(block[..dataLen]);
    forall x | Works(c) && block == Block(c, x) ensures d == x && Read(block[dataLen..]) == c.crc(d) {
      assert block[..dataLen] == c.encode(x) && block[dataLen..] == Write(c.crc(x), CHECKSUM_SIZE);
      ReadWrite(c.crc(x), CHECKSUM_SIZE);
    }
    if Read(block[dataLen..]) != c.crc(d) {
      return None;
    }
    return Some(d);
  }

  /** The bytes stored under an address, if it is in the table. */
  method Get(t: seq<Byte>, ti: TableIndex, c: Codec, h: Addr, ghost addrs: seq<Addr>, ghost datas: seq<seq<Byte>>)
    returns (data: Option<seq<Byte>>)
    requires Works(c) && Describes(ti, c, addrs, datas) && Blocks(t, c, datas)
    ensures data.None? <==> h !in addrs
    ensures data.Some? ==> exists o :: 0 <= o < |addrs| && addrs[o] == h && data.value == datas[o]
  {
    var ordinal := LookupOrdinal(ti, h, addrs);
    if ordinal == ti.chunkCount {
      return None;
    }
    hide Indexes, Block;
    var offset, length := ti.offsets[ordinal], ti.lengths[ordinal];
    assert HeldAt(t, OffsetOf(c, datas, ordinal), Block(c, datas[ordinal]));
    BlockSize(c, datas[ordinal]);
    data := ParseChunk(c, t[offset..offset + length]);
  }

  lemma BlockSize(c: Codec, data: seq<Byte>)
    ensures |Block(c, data)| >= CHECKSUM_SIZE
  {
  }
}
