/** The index of a table: address prefixes in order, and for each chunk its length, place and address suffix. */
module TableIndexes {
  import opened ByteSeqs

  /** The size of the part of an address that is not its prefix. */
  const SUFFIX_SIZE: nat := 12

  datatype Addr = Addr(prefix: nat, suffix: seq<Byte>)

  datatype TableIndex = TableIndex(chunkCount: nat, prefixes: seq<nat>, offsets: seq<nat>, lengths: seq<nat>,
                                   ordinals: seq<nat>, suffixes: seq<Byte>)

  /** No address is there twice. */
  ghost predicate Distinct(addrs: seq<Addr>) {
    forall o, p :: 0 <= o < p < |addrs| ==> addrs[o] != addrs[p]
  }

  ghost predicate SortedPrefixes(prefixes: seq<nat>) {
    forall i, j :: 0 <= i < j < |prefixes| ==> prefixes[i] <= prefixes[j]
  }

  function SuffixAt(ti: TableIndex, ordinal: nat): seq<Byte>
    requires SUFFIX_SIZE * (ordinal + 1) <= |ti.suffixes|
  {
    ti.suffixes[SUFFIX_SIZE * ordinal..SUFFIX_SIZE * (ordinal + 1)]
  }

  /** Every chunk has one entry, under its prefix, and the entries are in the order of the prefixes. */
  ghost predicate Indexes(ti: TableIndex, addrs: seq<Addr>) {
    && |addrs| == ti.chunkCount == |ti.prefixes| == |ti.ordinals| && |ti.suffixes| == SUFFIX_SIZE * |addrs|
    && SortedPrefixes(ti.prefixes)
    && (forall i :: 0 <= i < |addrs| ==> ti.ordinals[i] < |addrs| && addrs[ti.ordinals[i]].prefix == ti.prefixes[i])
    && (forall o :: 0 <= o < |addrs| ==> Listed(ti.ordinals, o) && SuffixAt(ti, o) == addrs[o].suffix)
  }

  ghost predicate Listed(ordinals: seq<nat>, o: nat) {
    exists i :: 0 <= i < |ordinals| && ordinals[i] == o
  }

  /** The first entry with the prefix, or the first beyond it. */
  method PrefixIdx(ti: TableIndex, prefix: nat) returns (idx: nat)
    requires |ti.prefixes| == ti.chunkCount && SortedPrefixes(ti.prefixes)
    ensures idx <= ti.chunkCount
    ensures forall k :: 0 <= k < idx ==> ti.prefixes[k] < prefix
    ensures forall k :: idx <= k < ti.chunkCount ==> prefix <= ti.prefixes[k]
  {
    idx := 0;
    var j := ti.chunkCount;
    while idx < j
      invariant idx <= j <= ti.chunkCount
      invariant forall k :: 0 <= k < idx ==> ti.prefixes[k] < prefix
      invariant forall k :: j <= k < ti.chunkCount ==> prefix <= ti.prefixes[k]
    {
      var h := idx + (j - idx) / 2;
      if ti.prefixes[h] < prefix {
        idx := h + 1;
      } else {
        j := h;
      }
    }
  }

  predicate OrdinalSuffixMatches(ti: TableIndex, ordinal: nat, h: Addr)
    requires SUFFIX_SIZE * (ordinal + 1) <= |ti.suffixes|
  {
    h.suffix == SuffixAt(ti, ordinal)
  }

  lemma OrdinalInRange(ti: TableIndex, addrs: seq<Addr>, o: nat)
    requires Indexes(ti, addrs) && o < |addrs|
    ensures SUFFIX_SIZE * (o + 1) <= |ti.suffixes|
  {
  }

  /** No entry from `from` to `to` is that of the address. */
  ghost predicate NotAmong(ti: TableIndex, addrs: seq<Addr>, h: Addr, from: nat, to: nat)
    requires Indexes(ti, addrs)
  {
    forall i :: from <= i < to && i < |addrs| ==> addrs[ti.ordinals[i]] != h
  }

  /** An address that none of the entries with its prefix has is not there. */
  lemma Absent(ti: TableIndex, addrs: seq<Addr>, h: Addr, from: nat, to: nat)
    requires Indexes(ti, addrs) && from <= to <= |addrs| && NotAmong(ti, addrs, h, from, to)
    requires forall k :: 0 <= k < from ==> ti.prefixes[k] < h.prefix
    requires to < |addrs| ==> h.prefix < ti.prefixes[to]
    ensures h !in addrs
  {
    forall o | 0 <= o < |addrs| ensures addrs[o] != h {
      assert Listed(ti.ordinals, o);
      var i :| 0 <= i < |ti.ordinals| && ti.ordinals[i] == o;
      assert addrs[o].prefix == ti.prefixes[i];
    }
  }

  /** Where the chunk was inserted, or the number of chunks if it is not there. */
  method LookupOrdinal(ti: TableIndex, h: Addr, ghost addrs: seq<Addr>) returns (ordinal: nat)
    requires Indexes(ti, addrs)
    ensures if h in addrs then ordinal < |addrs| && addrs[ordinal] == h else ordinal == ti.chunkCount
  {
    var idx := PrefixIdx(ti, h.prefix);
    ghost var first := idx;
    while idx < ti.chunkCount && ti.prefixes[idx] == h.prefix
      invariant first <= idx <= ti.chunkCount && NotAmong(ti, addrs, h, first, idx)
    {
      var o := ti.ordinals[idx];
      OrdinalInRange(ti, addrs, o);
      if OrdinalSuffixMatches(ti, o, h) {
        assert addrs[o] == h;
        return o;
      }
      idx := idx + 1;
    }
    Absent(ti, addrs, h, first, idx);
    return ti.chunkCount;
  }

  // ---------- many at once ----------

  /** A request for an address, its place among the requests, and whether it has been found. */
  datatype HasRecord = HasRecord(a: Addr, order: nat, has: bool)

  ghost predicate SortedRecords(recs: seq<HasRecord>) {
    forall i, j :: 0 <= i < j < |recs| ==> recs[i].a.prefix <= recs[j].a.prefix
  }

  /** The records after looking for the addresses `addrs`: those found are marked, and nothing else changes. */
  ghost predicate Marked(before: seq<HasRecord>, after: seq<HasRecord>, addrs: seq<Addr>, n: nat) {
    && |after| == |before| && n <= |before|
    && (forall i :: 0 <= i < n ==> after[i] == MarkedOne(before[i], addrs))
    && (forall i :: n <= i < |before| ==> after[i] == before[i])
  }

  function MarkedOne(r: HasRecord, addrs: seq<Addr>): HasRecord {
    r.(has := r.has || r.a in addrs)
  }

  ghost predicate SomeLeft(recs: seq<HasRecord>, n: nat) {
    exists i :: 0 <= i < n && i < |recs| && !recs[i].has
  }

  /** Whether any of the entries from `from` on with the prefix of the address is that of the address. */
  method ScanPrefix(ti: TableIndex, h: Addr, from: nat, ghost addrs: seq<Addr>) returns (found: bool)
    requires Indexes(ti, addrs) && from < |addrs| && ti.prefixes[from] == h.prefix
    requires forall k :: 0 <= k < from ==> ti.prefixes[k] < h.prefix
    ensures found == (h in addrs)
  {
    var j := from;
    while j < |ti.prefixes| && h.prefix == ti.prefixes[j]
      invariant from <= j <= |addrs| && NotAmong(ti, addrs, h, from, j)
    {
      OrdinalInRange(ti, addrs, ti.ordinals[j]);
      if OrdinalSuffixMatches(ti, ti.ordinals[j], h) {
        assert addrs[ti.ordinals[j]] == h;
        return true;
      }
      j := j + 1;
    }
    Absent(ti, addrs, h, from, j);
    return false;
  }

  /** None of the records from `n` on that are not marked yet is in a table all of whose prefixes are lower. */
  lemma BeyondEnd(ti: TableIndex, addrs: seq<Addr>, recs: seq<HasRecord>, after: seq<HasRecord>, n: nat)
    requires Indexes(ti, addrs) && SortedRecords(recs) && n < |recs| && !recs[n].has && Marked(recs, after, addrs, n)
    requires forall k :: 0 <= k < |addrs| ==> ti.prefixes[k] < recs[n].a.prefix
    ensures Marked(recs, after, addrs, |recs|) && SomeLeft(after, |after|)
  {
    forall i | n <= i < |recs| ensures recs[i].a !in addrs {
      Absent(ti, addrs, recs[i].a, |addrs|, |addrs|);
    }
    assert !after[n].has;
  }

  /**
   One pass over two sorted sequences: marks exactly the records whose address is in the table, and says whether any
   is still not found.
   */
  method HasMany(ti: TableIndex, recs: array<HasRecord>, ghost addrs: seq<Addr>) returns (remaining: bool)
    requires Indexes(ti, addrs) && SortedRecords(recs[..])
    modifies recs
    ensures Marked(old(recs[..]), recs[..], addrs, recs.Length)
    ensures remaining == SomeLeft(recs[..], recs.Length)
  {
    ghost var before := recs[..];
    remaining := false;
    var filterIdx, filterLen := 0, |ti.prefixes|;
    for i := 0 to recs.Length
      invariant Marked(before, recs[..], addrs, i) && remaining == SomeLeft(recs[..], i)
      invariant filterIdx <= filterLen
      invariant i < recs.Length ==> forall k :: 0 <= k < filterIdx ==> ti.prefixes[k] < before[i].a.prefix
    {
      hide Indexes;
      var rec := recs[i];
      assert rec == before[i];
      if rec.has {
        Pass(before, recs[..], addrs, i);
        continue;
      }
      while filterIdx < filterLen && rec.a.prefix > ti.prefixes[filterIdx]
        invariant filterIdx <= filterLen
        invariant forall k :: 0 <= k < filterIdx ==> ti.prefixes[k] < rec.a.prefix
      {
        filterIdx := filterIdx + 1;
      }
      if filterIdx >= filterLen {
        remaining := true;
        BeyondEnd(ti, addrs, before, recs[..], i);
        return;
      }
      var found := false;
      if rec.a.prefix == ti.prefixes[filterIdx] {
        found := ScanPrefix(ti, rec.a, filterIdx, addrs);
      } else {
        Absent(ti, addrs, rec.a, filterIdx, filterIdx);
      }
      ghost var now := recs[..];
      if found {
        recs[i] := rec.(has := true);
        assert recs[..] == now[i := rec.(has := true)];
      } else {
        remaining := true;
        assert now[i := rec] == now;
      }
      Mark(before, now, recs[..], addrs, i);
    }
  }

  lemma Mark(before: seq<HasRecord>, now: seq<HasRecord>, after: seq<HasRecord>, addrs: seq<Addr>, i: nat)
    requires Marked(before, now, addrs, i) && i < |before| && after == now[i := MarkedOne(before[i], addrs)]
    ensures Marked(before, after, addrs, i + 1)
    ensures SomeLeft(after, i + 1) == (SomeLeft(now, i) || !after[i].has)
  {
    if SomeLeft(now, i) {
      var k :| 0 <= k < i && k < |now| && !now[k].has;
      assert !after[k].has;
    }
    if SomeLeft(after, i + 1) && after[i].has {
      var k :| 0 <= k < i + 1 && k < |after| && !after[k].has;
      assert !now[k].has;
    }
  }

  lemma Pass(before: seq<HasRecord>, after: seq<HasRecord>, addrs: seq<Addr>, i: nat)
    requires Marked(before, after, addrs, i) && i < |before| && MarkedOne(before[i], addrs) == before[i]
    ensures Marked(before, after, addrs, i + 1)
    ensures SomeLeft(after, i + 1) == (SomeLeft(after, i) || !after[i].has)
  {
    if !after[i].has {
    } else if SomeLeft(after, i + 1) {
      var k :| 0 <= k < i + 1 && k < |after| && !after[k].has;
      assert k < i;
    }
  }
}
