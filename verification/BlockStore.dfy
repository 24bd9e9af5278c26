/**
 A store of chunks: a table in memory that takes what is put, and immutable tables that it is written to when full.
 An address stands for the bytes it is the hash of, so what a store holds is given by its addresses.
 */
module BlockStore {
  import opened Options
  import opened ByteSeqs
  import opened TableIndexes
  import opened TableFormat

  type Data = seq<Byte>

  /** The bytes of each address, and how they are stored. */
  datatype World = World(codec: Codec, content: Addr -> Data)

  ghost predicate Sane(w: World, maxData: nat) {
    && Works(w.codec) && maxData < Power256(4)
    && forall a :: |w.content(a)| <= maxData ==> |Block(w.codec, w.content(a))| < Power256(4)
  }

  ghost predicate WellFormed(a: Addr) {
    a.prefix < Power256(8) && |a.suffix| == SUFFIX_SIZE
  }

  // ---------- tables ----------

  /** A table that has been written: its bytes, its index, and the addresses in the order they were added. */
  datatype Table = Table(bytes: seq<Byte>, index: TableIndex, addrs: seq<Addr>)

  ghost function DatasOf(w: World, addrs: seq<Addr>): (datas: seq<Data>)
    ensures |datas| == |addrs|
  {
    seq(|addrs|, i requires 0 <= i < |addrs| => w.content(addrs[i]))
  }

  ghost predicate Readable(w: World, t: Table) {
    Describes(t.index, w.codec, t.addrs, DatasOf(w, t.addrs)) && Blocks(t.bytes, w.codec, DatasOf(w, t.addrs))
  }

  ghost predicate AllReadable(w: World, tables: seq<Table>) {
    forall i :: 0 <= i < |tables| ==> Readable(w, tables[i])
  }

  /** The address is in one of the first `n` tables. */
  ghost predicate Among(tables: seq<Table>, n: nat, a: Addr) {
    exists i :: 0 <= i < n && i < |tables| && a in tables[i].addrs
  }

  method TableHas(w: World, t: Table, h: Addr) returns (has: bool)
    requires Readable(w, t)
    ensures has == (h in t.addrs)
  {
    var ordinal := LookupOrdinal(t.index, h, t.addrs);
    has := ordinal < t.index.chunkCount;
  }

  method TablesHave(w: World, tables: seq<Table>, h: Addr) returns (has: bool)
    requires AllReadable(w, tables)
    ensures has == Among(tables, |tables|, h)
  {
    for i := 0 to |tables|
      invariant !Among(tables, i, h)
    {
      var found := TableHas(w, tables[i], h);
      if found {
        return true;
      }
    }
    return false;
  }

  method TableGet(w: World, t: Table, h: Addr) returns (data: Option<Data>)
    requires Works(w.codec) && Readable(w, t)
    ensures data == if h in t.addrs then Some(w.content(h)) else None
  {
    data := Get(t.bytes, t.index, w.codec, h, t.addrs, DatasOf(w, t.addrs));
  }

  method TablesGet(w: World, tables: seq<Table>, h: Addr) returns (data: Option<Data>)
    requires Works(w.codec) && AllReadable(w, tables)
    ensures data == if Among(tables, |tables|, h) then Some(w.content(h)) else None
  {
    for i := 0 to |tables|
      invariant !Among(tables, i, h)
    {
      data := TableGet(w, tables[i], h);
      if data.Some? {
        return;
      }
    }
    return None;
  }

  // ---------- which of many addresses are there ----------

  ghost predicate MarkedBy(before: seq<HasRecord>, after: seq<HasRecord>, tables: seq<Table>, n: nat) {
    |after| == |before| && forall i :: 0 <= i < |before| ==>
                               after[i] == before[i].(has := before[i].has || Among(tables, n, before[i].a))
  }

  lemma MarkedNext(before: seq<HasRecord>, now: seq<HasRecord>, after: seq<HasRecord>, tables: seq<Table>, n: nat)
    requires n < |tables| && MarkedBy(before, now, tables, n) && Marked(now, after, tables[n].addrs, |now|)
    ensures MarkedBy(before, after, tables, n + 1)
  {
    forall i | 0 <= i < |before|
      ensures after[i] == before[i].(has := before[i].has || Among(tables, n + 1, before[i].a)) {
      AmongNext(tables, n, before[i].a);
    }
  }

  lemma AmongNext(tables: seq<Table>, n: nat, a: Addr)
    requires n < |tables|
    ensures Among(tables, n + 1, a) <==> Among(tables, n, a) || a in tables[n].addrs
  {
    if Among(tables, n + 1, a) && a !in tables[n].addrs {
      var i :| 0 <= i < n + 1 && i < |tables| && a in tables[i].addrs;
      assert i < n;
    }
  }

  /** Nothing is left to find: the other tables cannot add anything. */
  lemma AllFound(before: seq<HasRecord>, after: seq<HasRecord>, tables: seq<Table>, n: nat, m: nat)
    requires MarkedBy(before, after, tables, n) && n <= m && !SomeLeft(after, |after|)
    ensures MarkedBy(before, after, tables, m)
  {
    forall i | 0 <= i < |before| ensures after[i].has && (before[i].has || Among(tables, m, before[i].a)) {
      assert after[i].has;
    }
  }

  /** Marks the records whose address is in any of the tables. */
  method TablesHaveMany(w: World, tables: seq<Table>, recs: array<HasRecord>)
    requires AllReadable(w, tables) && SortedRecords(recs[..])
    modifies recs
    ensures MarkedBy(old(recs[..]), recs[..], tables, |tables|)
  {
    ghost var before := recs[..];
    for i := 0 to |tables|
      invariant MarkedBy(before, recs[..], tables, i) && SortedRecords(recs[..])
    {
      hide Among;
      ghost var now := recs[..];
      assert Readable(w, tables[i]);
      var remaining := HasMany(tables[i].index, recs, tables[i].addrs);
      MarkedNext(before, now, recs[..], tables, i);
      if !remaining {
        AllFound(before, recs[..], tables, i + 1, |tables|);
        return;
      }
    }
  }

  // ---------- sorting records ----------

  ghost predicate SortedBy(recs: seq<HasRecord>, key: HasRecord -> nat) {
    forall i, j :: 0 <= i < j < |recs| ==> key(recs[i]) <= key(recs[j])
  }

  ghost predicate OneOfEach(recs: seq<HasRecord>) {
    forall i, j :: 0 <= i < j < |recs| ==> recs[i].order != recs[j].order
  }

  ghost predicate SameRecords(recs: seq<HasRecord>, recs': seq<HasRecord>) {
    |recs'| == |recs| && OneOfEach(recs') && forall x :: x in recs <==> x in recs'
  }

  method InsertRecord(recs: seq<HasRecord>, r: HasRecord, key: HasRecord -> nat) returns (recs': seq<HasRecord>)
    requires SortedBy(recs, key) && OneOfEach(recs) && forall x :: x in recs ==> x.order != r.order
    ensures SortedBy(recs', key) && OneOfEach(recs') && |recs'| == |recs| + 1
            && forall x :: x in recs' <==> x in recs || x == r
  {
    var k: nat := |recs|;
    while k > 0 && key(recs[k - 1]) > key(r)
      invariant k <= |recs| && forall i :: k <= i < |recs| ==> key(recs[i]) > key(r)
    {
      k := k - 1;
    }
    recs' := recs[..k] + [r] + recs[k..];
    assert recs == recs[..k] + recs[k..];
    InsertedRecord(recs, r, key, k, recs');
  }

  lemma InsertedRecord(recs: seq<HasRecord>, r: HasRecord, key: HasRecord -> nat, k: nat, recs': seq<HasRecord>)
    requires SortedBy(recs, key) && OneOfEach(recs) && (forall x :: x in recs ==> x.order != r.order) && k <= |recs|
    requires (forall i :: k <= i < |recs| ==> key(recs[i]) > key(r)) && (k > 0 ==> key(recs[k - 1]) <= key(r))
    requires recs' == recs[..k] + [r] + recs[k..]
    ensures SortedBy(recs', key) && OneOfEach(recs')
  {
    forall i, j | 0 <= i < j < |recs'| ensures key(recs'[i]) <= key(recs'[j]) && recs'[i].order != recs'[j].order {
      var i', j' := if i < k then i else i - 1, if j < k then j else j - 1;
      assert i != k ==> recs'[i] == recs[i'] && recs[i'] in recs;
      assert j != k ==> recs'[j] == recs[j'] && recs[j'] in recs;
      assert i < k - 1 ==> key(recs[i]) <= key(recs[k - 1]);
    }
  }

  method SortRecords(recs: seq<HasRecord>, key: HasRecord -> nat) returns (recs': seq<HasRecord>)
    requires OneOfEach(recs)
    ensures SortedBy(recs', key) && SameRecords(recs, recs')
  {
    recs' := [];
    for i := 0 to |recs|
      invariant SortedBy(recs', key) && OneOfEach(recs') && |recs'| == i && forall x :: x in recs' <==> x in recs[..i]
    {
      assert recs[..i + 1] == recs[..i] + [recs[i]];
      forall x | x in recs' ensures x.order != recs[i].order {
        assert x in recs[..i];
      }
      recs' := InsertRecord(recs', recs[i], key);
    }
    assert recs[..|recs|] == recs;
  }

  /** Each record says where it is. */
  ghost predicate InInsertOrder(recs: seq<HasRecord>) {
    forall i :: 0 <= i < |recs| ==> recs[i].order == i
  }

  lemma {:induction false} AtLeast(recs: seq<HasRecord>, i: nat)
    requires SortedBy(recs, (r: HasRecord) => r.order) && OneOfEach(recs) && i < |recs|
    ensures recs[i].order >= i
  {
    if i > 0 {
      AtLeast(recs, i - 1);
    }
  }

  lemma {:induction false} AtMost(recs: seq<HasRecord>, i: nat)
    requires SortedBy(recs, (r: HasRecord) => r.order) && OneOfEach(recs) && i < |recs|
             && recs[|recs| - 1].order < |recs|
    ensures recs[i].order <= i
    decreases |recs| - i
  {
    if i < |recs| - 1 {
      AtMost(recs, i + 1);
    }
  }

  /** Sorting by prefix, marking, and sorting by order again marks the records where they were. */
  lemma Restored(order: seq<HasRecord>, sorted: seq<HasRecord>, marked: seq<HasRecord>, restored: seq<HasRecord>,
                 tables: seq<Table>, n: nat)
    requires InInsertOrder(order) && SameRecords(order, sorted) && MarkedBy(sorted, marked, tables, n)
             && SameRecords(marked, restored)
    requires SortedBy(restored, (r: HasRecord) => r.order)
    ensures MarkedBy(order, restored, tables, n)
  {
    forall x | x in restored
      ensures x.order < |order| && x == order[x.order].(has := order[x.order].has
                                                        || Among(tables, n, order[x.order].a)) {
      assert x in marked;
      var k :| 0 <= k < |marked| && marked[k] == x;
      assert sorted[k] in order;
    }
    forall i | 0 <= i < |order| ensures restored[i] == order[i].(has := order[i].has || Among(tables, n, order[i].a)) {
      assert restored[|restored| - 1] in restored;
      AtLeast(restored, i);
      AtMost(restored, i);
      assert restored[i] in restored;
    }
  }

  // ---------- the table in memory ----------

  class MemTable {
    const maxData: nat
    var chunks: map<Addr, Data>
    var order: seq<HasRecord>
    var totalData: nat

    ghost predicate Valid(w: World)
      reads this
    {
      InInsertOrder(order) && |order| <= totalData <= maxData && Holds(w, chunks, order, maxData) && Differ(order)
    }

    constructor (memTableSize: nat)
      ensures maxData == memTableSize && chunks == map[] && totalData == 0 && forall w :: Valid(w)
    {
      maxData, chunks, order, totalData := memTableSize, map[], [], 0;
    }

    /** Takes a chunk unless there is no room for it. */
    method AddChunk(h: Addr, data: Data, ghost w: World) returns (ok: bool)
      requires Valid(w) && data != [] && data == w.content(h) && WellFormed(h)
      modifies this
      ensures Valid(w)
      ensures ok ==> chunks.Keys == old(chunks.Keys) + {h} && |data| <= maxData
      ensures !ok ==> chunks == old(chunks) && old(totalData) + |data| > maxData
    {
      if h in chunks {
        return true;
      }
      var dataLen := |data|;
      if totalData + dataLen > maxData {
        return false;
      }
      hide Holds, Differ, InInsertOrder;
      RecordMore(w, chunks, order, maxData, h, data);
      totalData := totalData + dataLen;
      chunks := chunks[h := data];
      order := order + [HasRecord(h, |order|, false)];
      return true;
    }

    lemma Holding(w: World)
      requires Valid(w)
      ensures Holds(w, chunks, order, maxData)
    {
    }

    /** Writes the chunks that none of the tables has, in the order in which they were put. */
    method Write(w: World, tables: seq<Table>) returns (t: Option<Table>)
      requires Valid(w) && Sane(w, maxData) && AllReadable(w, tables)
      modifies this`order
      ensures t.None? ==> forall a :: a in chunks ==> Among(tables, |tables|, a)
      ensures t.Some? ==> Readable(w, t.value)
                          && forall a :: a in t.value.addrs <==> a in chunks && !Among(tables, |tables|, a)
      ensures t.Some? ==> t.value.addrs == Missing(old(order), |old(order)|, tables) && Distinct(t.value.addrs)
    {
      ghost var before := order;
      assert OneOfEach(order);
      var sorted := SortRecords(order, (r: HasRecord) => r.a.prefix);
      var recs := new HasRecord[|sorted|](i requires 0 <= i < |sorted| => sorted[i]);
      assert recs[..] == sorted;
      TablesHaveMany(w, tables, recs);
      StillOneEach(sorted, recs[..], tables, |tables|);
      order := SortRecords(recs[..], (r: HasRecord) => r.order);
      Restored(before, sorted, recs[..], order, tables, |tables|);
      t := WriteUnmarked(w, tables, chunks, order, before, maxData);
      MissingDistinct(before, |before|, tables);
    }
  }

  /** The records that are not marked are those of the chunks that no table has. */
  lemma UnmarkedExactly(w: World, tables: seq<Table>, chunks: map<Addr, Data>, order: seq<HasRecord>,
                        before: seq<HasRecord>, maxData: nat, a: Addr)
    requires Holds(w, chunks, before, maxData) && MarkedBy(before, order, tables, |tables|)
    ensures a in Unmarked(order, |order|) <==> a in chunks && !Among(tables, |tables|, a)
  {
    UnmarkedElements(order, |order|, a);
    hide Among;
    if a in chunks && !Among(tables, |tables|, a) {
      assert Recorded(before, a);
      var i :| 0 <= i < |before| && before[i].a == a;
      assert order[i].a == a && !order[i].has;
    }
  }

  lemma UnmarkedWritable(w: World, tables: seq<Table>, chunks: map<Addr, Data>, order: seq<HasRecord>,
                         before: seq<HasRecord>, maxData: nat)
    requires Sane(w, maxData) && Holds(w, chunks, before, maxData) && MarkedBy(before, order, tables, |tables|)
    ensures Writable(w, Unmarked(order, |order|))
  {
    var addrs := Unmarked(order, |order|);
    UnmarkedElements(order, |order|, Addr(0, []));
    hide Block, Power256;
    forall i | 0 <= i < |addrs|
      ensures WellFormed(addrs[i]) && w.content(addrs[i]) != [] && |Block(w.codec, w.content(addrs[i]))| < Power256(4) {
      UnmarkedExactly(w, tables, chunks, order, before, maxData, addrs[i]);
      assert addrs[i] in addrs;
    }
  }

  /** Writes the chunks whose records are not marked. */
  method WriteUnmarked(w: World, ghost tables: seq<Table>, chunks: map<Addr, Data>, order: seq<HasRecord>,
                       ghost before: seq<HasRecord>, ghost maxData: nat)
    returns (t: Option<Table>)
    requires Sane(w, maxData) && Holds(w, chunks, before, maxData) && MarkedBy(before, order, tables, |tables|)
    ensures t.None? ==> forall a :: a in chunks ==> Among(tables, |tables|, a)
    ensures t.Some? ==> Readable(w, t.value)
                        && forall a :: a in t.value.addrs <==> a in chunks && !Among(tables, |tables|, a)
    ensures t.Some? ==> t.value.addrs == Missing(before, |before|, tables)
  {
    hide Among;
    UnmarkedMissing(before, order, tables, |order|);
    var addrs: seq<Addr>, datas: seq<Data> := [], [];
    for i := 0 to |order|
      invariant addrs == Unmarked(order, i) && datas == DatasOf(w, addrs)
    {
      if !order[i].has {
        assert order[i].a == before[i].a;
        addrs, datas := addrs + [order[i].a], datas + [chunks[order[i].a]];
      }
    }
    forall a ensures a in addrs <==> a in chunks && !Among(tables, |tables|, a) {
      UnmarkedExactly(w, tables, chunks, order, before, maxData, a);
    }
    if addrs == [] {
      return None;
    }
    UnmarkedWritable(w, tables, chunks, order, before, maxData);
    hide Readable, Writable;
    var table := WriteTable(w, addrs, datas);
    return Some(table);
  }

  /** The records are those of the chunks. */
  ghost predicate Holds(w: World, chunks: map<Addr, Data>, order: seq<HasRecord>, maxData: nat) {
    && |order| <= maxData
    && (forall i :: 0 <= i < |order| ==> !order[i].has && order[i].a in chunks)
    && (forall a :: a in chunks ==> Recorded(order, a) && chunks[a] == w.content(a) && WellFormed(a)
                                    && 0 < |w.content(a)| <= maxData)
  }

  /** No address is recorded twice. */
  ghost predicate Differ(order: seq<HasRecord>) {
    forall i, j :: 0 <= i < j < |order| ==> order[i].a != order[j].a
  }

  /** One chunk more, and its record. */
  lemma RecordMore(w: World, chunks: map<Addr, Data>, order: seq<HasRecord>, maxData: nat, h: Addr, data: Data)
    requires Holds(w, chunks, order, maxData) && InInsertOrder(order) && Differ(order) && h !in chunks
    requires |order| < maxData && data == w.content(h) && WellFormed(h) && 0 < |data| <= maxData
    ensures var more := order + [HasRecord(h, |order|, false)];
            Holds(w, chunks[h := data], more, maxData) && InInsertOrder(more) && Differ(more)
  {
    var more := order + [HasRecord(h, |order|, false)];
    RecordedMore(order, more, h);
    hide Recorded, WellFormed;
    forall i | 0 <= i < |order| ensures order[i].a != h {
    }
  }

  lemma StillOneEach(before: seq<HasRecord>, after: seq<HasRecord>, tables: seq<Table>, n: nat)
    requires OneOfEach(before) && MarkedBy(before, after, tables, n)
    ensures OneOfEach(after)
  {
  }

  /** The addresses of the records that are not marked, in order. */
  function Unmarked(order: seq<HasRecord>, n: nat): seq<Addr>
    requires n <= |order|
  {
    if n == 0 then [] else if order[n - 1].has then Unmarked(order, n - 1)
       else Unmarked(order, n - 1) + [order[n - 1].a]
  }

  lemma {:induction false} UnmarkedElements(order: seq<HasRecord>, n: nat, a: Addr)
    requires n <= |order|
    ensures a in Unmarked(order, n) <==> exists i :: 0 <= i < n && order[i].a == a && !order[i].has
    ensures |Unmarked(order, n)| <= n
  {
    if n > 0 {
      UnmarkedElements(order, n - 1, a);
    }
  }

  /** The addresses of the first `n` records that no table has, in the order in which they were put. */
  ghost function Missing(order: seq<HasRecord>, n: nat, tables: seq<Table>): seq<Addr>
    requires n <= |order|
  {
    if n == 0 then []
    else if Among(tables, |tables|, order[n - 1].a) then Missing(order, n - 1, tables)
    else Missing(order, n - 1, tables) + [order[n - 1].a]
  }

  lemma {:induction false} UnmarkedMissing(before: seq<HasRecord>, order: seq<HasRecord>, tables: seq<Table>, n: nat)
    requires MarkedBy(before, order, tables, |tables|) && (forall i :: 0 <= i < |before| ==> !before[i].has)
             && n <= |order|
    ensures Unmarked(order, n) == Missing(before, n, tables)
  {
    if n > 0 {
      UnmarkedMissing(before, order, tables, n - 1);
      assert order[n - 1] == before[n - 1].(has := before[n - 1].has || Among(tables, |tables|, before[n - 1].a));
    }
  }

  lemma {:induction false} MissingDistinct(order: seq<HasRecord>, n: nat, tables: seq<Table>)
    requires n <= |order| && forall i, j :: 0 <= i < j < |order| ==> order[i].a != order[j].a
    ensures Distinct(Missing(order, n, tables))
            && forall a :: a in Missing(order, n, tables) ==> exists i :: 0 <= i < n && order[i].a == a
  {
    if n > 0 {
      MissingDistinct(order, n - 1, tables);
      hide Among;
      assert order[n - 1].a !in Missing(order, n - 1, tables);
    }
  }

  /** What the addresses to be written have to be, so that every number in the table fits. */
  ghost predicate Writable(w: World, addrs: seq<Addr>) {
    && |addrs| < Power256(4)
    && forall i :: 0 <= i < |addrs| ==> WellFormed(addrs[i]) && w.content(addrs[i]) != []
                                        && |Block(w.codec, w.content(addrs[i]))| < Power256(4)
  }

  lemma {:induction false} OffsetAgrees(c: Codec, xs: seq<Data>, ys: seq<Data>, o: nat)
    requires o <= |xs| && o <= |ys| && forall k :: 0 <= k < o ==> xs[k] == ys[k]
    ensures OffsetOf(c, xs, o) == OffsetOf(c, ys, o)
  {
    if o > 0 {
      OffsetAgrees(c, xs, ys, o - 1);
    }
  }

  lemma Room(c: Codec, datas: seq<Data>, i: nat)
    requires i < |datas|
    ensures OffsetOf(c, datas[..i], i) + |Block(c, datas[i])| <= OffsetOf(c, datas, |datas|)
  {
    OffsetAgrees(c, datas[..i], datas, i);
    assert OffsetOf(c, datas, i + 1) == OffsetOf(c, datas, i) + |Block(c, datas[i])|;
    OffsetGrows(c, datas, i + 1, |datas|);
  }

  /** Adds all chunks to a writer whose buffer has room for them. */
  method AddAll(c: Codec, addrs: seq<Addr>, datas: seq<Data>, size: nat) returns (tw: TableWriter)
    requires |addrs| == |datas| && OffsetOf(c, datas, |datas|) <= size
             && forall i :: 0 <= i < |datas| ==> datas[i] != []
    ensures fresh(tw) && tw.Valid() && tw.codec == c && tw.addrs == addrs && tw.datas == datas && |tw.buff| == size
  {
    hide OffsetOf, Blocks, RecordsOf, Block;
    tw := new TableWriter(c, seq(size, _ => 0));
    for i := 0 to |addrs|
      invariant fresh(tw) && tw.Valid() && tw.codec == c && tw.addrs == addrs[..i] && tw.datas == datas[..i]
                && |tw.buff| == size
    {
      Room(c, datas, i);
      Longer(addrs, i);
      Longer(datas, i);
      tw.AddChunk(addrs[i], datas[i]);
    }
    assert addrs[..|addrs|] == addrs && datas[..|datas|] == datas;
  }

  lemma Longer<X>(xs: seq<X>, i: nat)
    requires i < |xs|
    ensures xs[..i + 1] == xs[..i] + [xs[i]] && |xs[..i]| == i
  {
  }

  /** Writes chunks to a table and reads back its index: the table holds exactly those chunks. */
  method WriteTable(w: World, addrs: seq<Addr>, datas: seq<Data>) returns (t: Table)
    requires addrs != [] && Writable(w, addrs) && datas == DatasOf(w, addrs)
    ensures Readable(w, t) && t.addrs == addrs
  {
    hide OffsetOf, Blocks, RecordsOf, Block, Widths, SuffixesFit, IsTable, Describes, Power256;
    var size := OffsetOf(w.codec, datas, |datas|) + |addrs| * (TUPLE_SIZE + LENGTH_SIZE + SUFFIX_SIZE) + FOOTER_SIZE;
    var tw := AddAll(w.codec, addrs, datas, size);
    ghost var recs := tw.prefixes;
    WritableFits(w, addrs, recs);
    var bytes := tw.Finish();
    var index := ParseTableIndex(bytes, w.codec, addrs, datas, recs, tw.prefixes);
    t := Table(bytes, index, addrs);
    TableBlocks(bytes, w.codec, addrs, datas, recs, tw.prefixes);
  }

  lemma TableBlocks(t: seq<Byte>, c: Codec, addrs: seq<Addr>, datas: seq<Data>, recs: seq<PrefixIndexRec>,
                    sorted: seq<PrefixIndexRec>)
    requires IsTable(t, c, addrs, datas, recs, sorted)
    ensures Blocks(t, c, datas)
  {
  }

  lemma WritableFits(w: World, addrs: seq<Addr>, recs: seq<PrefixIndexRec>)
    requires Writable(w, addrs) && RecordsOf(w.codec, addrs, DatasOf(w, addrs), recs)
    ensures |recs| == |addrs| && Widths(recs) && SuffixesFit(addrs)
  {
    hide Block, Power256;
    forall k | 0 <= k < |recs|
      ensures recs[k].prefix < Power256(8) && recs[k].order < Power256(4) && recs[k].size < Power256(4) {
      assert WellFormed(addrs[k]);
    }
  }

  ghost predicate Recorded(order: seq<HasRecord>, a: Addr) {
    exists i :: 0 <= i < |order| && order[i].a == a
  }

  lemma RecordedMore(order: seq<HasRecord>, more: seq<HasRecord>, h: Addr)
    requires more == order + [HasRecord(h, |order|, false)]
    ensures Recorded(more, h) && forall a :: Recorded(order, a) ==> Recorded(more, a)
  {
    assert more[|order|].a == h;
    forall a | Recorded(order, a) ensures Recorded(more, a) {
      var i :| 0 <= i < |order| && order[i].a == a;
      assert more[i].a == a;
    }
  }

  // ---------- the store ----------

  /** The tables with one more in front, if there was anything to write. */
  function Prepended(t: Option<Table>, tables: seq<Table>): seq<Table> {
    if t.Some? then [t.value] + tables else tables
  }

  lemma PrependedAmong(t: Option<Table>, tables: seq<Table>, a: Addr)
    ensures Among(Prepended(t, tables), |Prepended(t, tables)|, a) <==>
              Among(tables, |tables|, a) || (t.Some? && a in t.value.addrs)
  {
    var all := Prepended(t, tables);
    if t.Some? {
      assert forall i :: 0 <= i < |tables| ==> all[i + 1] == tables[i];
      if Among(all, |all|, a) && a !in t.value.addrs {
        var i :| 0 <= i < |all| && a in all[i].addrs;
        assert a in tables[i - 1].addrs;
      }
      if Among(tables, |tables|, a) {
        var i :| 0 <= i < |tables| && a in tables[i].addrs;
        assert a in all[i + 1].addrs;
      }
      if a in t.value.addrs {
        assert a in all[0].addrs;
      }
    }
  }

  /** The address is in memory or in a table. */
  ghost predicate Held(chunks: map<Addr, Data>, tables: seq<Table>, a: Addr) {
    a in chunks || Among(tables, |tables|, a)
  }

  lemma HeldMore(chunks: map<Addr, Data>, chunks': map<Addr, Data>, tables: seq<Table>, h: Addr)
    requires chunks'.Keys == chunks.Keys + {h}
    ensures forall a :: Held(chunks', tables, a) <==> Held(chunks, tables, a) || a == h
  {
    hide Among;
    assert forall a :: a in chunks' <==> a in chunks'.Keys;
  }

  class NomsBlockStore {
    const world: World
    const mtSize: nat
    var mt: MemTable?
    var tables: seq<Table>

    ghost predicate Valid()
      reads this, mt
    {
      && Sane(world, mtSize) && AllReadable(world, tables)
      && (mt != null ==> mt.maxData == mtSize && mt.Valid(world))
    }

    ghost function InMemory(): map<Addr, Data>
      reads this, mt
    {
      if mt == null then map[] else mt.chunks
    }

    /** What the store holds. */
    ghost predicate Stored(a: Addr)
      reads this, mt
    {
      Held(InMemory(), tables, a)
    }

    constructor (world: World, mtSize: nat, tables: seq<Table>)
      requires Sane(world, mtSize) && AllReadable(world, tables)
      ensures Valid() && this.world == world && this.mtSize == mtSize && mt == null && this.tables == tables
    {
      this.world, this.mtSize, this.mt, this.tables := world, mtSize, null, tables;
    }

    /**
     Writes the table in memory in front of the others: what is held stays the same, and no address is written twice.
     */
    method Spill()
      requires Valid() && mt != null
      modifies this, mt
      ensures Valid() && fresh(mt) && mt != null && mt.chunks == map[] && mt.totalData == 0
      ensures forall a :: Held(map[], tables, a) <==> Held(old(mt.chunks), old(tables), a)
      ensures tables == old(tables)
              || (tables != [] && tables[1..] == old(tables)
                  && forall a :: a in tables[0].addrs ==> !Among(old(tables), |old(tables)|, a))
    {
      var prior, held := tables, mt.chunks;
      mt.Holding(world);
      var t := mt.Write(world, tables);
      forall a ensures Among(Prepended(t, prior), |Prepended(t, prior)|, a) <==> a in held || Among(prior, |prior|, a) {
        PrependedAmong(t, prior, a);
      }
      hide Among, Readable, Sane;
      tables := Prepended(t, tables);
      mt := new MemTable(mtSize);
    }

    /** Takes a chunk, unless it is too large even for an empty table in memory. */
    method AddChunk(h: Addr, data: Data) returns (ok: bool)
      requires Valid() && data != [] && data == world.content(h) && WellFormed(h)
      modifies this, mt
      ensures Valid() && (ok <==> |data| <= mtSize)
      ensures forall a :: Stored(a) <==> Held(old(InMemory()), old(tables), a) || (ok && a == h)
      ensures mt == old(mt) || fresh(mt)
    {
      hide Among, Readable, Sane;
      if mt == null {
        mt := new MemTable(mtSize);
      }
      ghost var chunks := mt.chunks;
      ok := mt.AddChunk(h, data, world);
      if !ok {
        Spill();
        ok := mt.AddChunk(h, data, world);
        chunks := map[];
      }
      if ok {
        HeldMore(chunks, mt.chunks, tables, h);
      }
    }

    /**
     Puts chunks until one does not fit: however often the memory spilled on the way, the store then holds what it held
     and the chunks that were taken.
     */
    method PutMany(hs: seq<Addr>) returns (taken: nat)
      requires Valid() && forall i :: 0 <= i < |hs| ==> world.content(hs[i]) != [] && WellFormed(hs[i])
      modifies this, mt
      ensures Valid() && taken <= |hs| && (taken < |hs| ==> |world.content(hs[taken])| > mtSize)
      ensures forall a :: Stored(a) <==> Held(old(InMemory()), old(tables), a) || a in hs[..taken]
    {
      ghost var chunks, prior := InMemory(), tables;
      taken := 0;
      while taken < |hs|
        invariant taken <= |hs| && Valid() && (mt == old(mt) || fresh(mt))
        invariant forall a :: Held(InMemory(), tables, a) <==> Held(chunks, prior, a) || a in hs[..taken]
      {
        hide Held, Sane, AllReadable;
        assert hs[..taken + 1] == hs[..taken] + [hs[taken]];
        var ok := AddChunk(hs[taken], world.content(hs[taken]));
        if !ok {
          return;
        }
        taken := taken + 1;
      }
    }

    method Has(h: Addr) returns (has: bool)
      requires Valid()
      ensures has == Stored(h)
    {
      if mt != null && h in mt.chunks {
        return true;
      }
      has := TablesHave(world, tables, h);
    }

    /** The bytes of an address that the store holds. */
    method GetChunk(h: Addr) returns (data: Option<Data>)
      requires Valid()
      ensures data == if Stored(h) then Some(world.content(h)) else None
    {
      if mt != null && h in mt.chunks {
        return Some(mt.chunks[h]);
      }
      data := TablesGet(world, tables, h);
    }
  }
}
