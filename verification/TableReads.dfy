/** Answering many requests from a table: where the chunks are, and what one read after the other gives. */
module TableReads {
  import opened Options
  import opened ByteSeqs
  import opened TableIndexes
  import opened TableFormat
  import opened ReadBatches

  /** A request: its address, whether it has been found, and the bytes if they have been read. */
  datatype GetRecord = GetRecord(a: Addr, found: bool, data: Option<seq<Byte>>)

  ghost predicate SortedRequests(reqs: seq<GetRecord>) {
    forall i, j :: 0 <= i < j < |reqs| ==> reqs[i].a.prefix <= reqs[j].a.prefix
  }

  /** Chunk `o` is what request `i`, which has not been found yet, asks for. */
  ghost predicate Hits(reqs: seq<GetRecord>, addrs: seq<Addr>, i: nat, o: nat) {
    i < |reqs| && o < |addrs| && !reqs[i].found && addrs[o] == reqs[i].a
  }

  ghost predicate Placed(ti: TableIndex, addrs: seq<Addr>) {
    |ti.offsets| == |ti.lengths| == |addrs|
  }

  function RecOf(ti: TableIndex, i: nat, o: nat): Rec
    requires o < |ti.offsets| == |ti.lengths|
  {
    Rec(i, o, ti.offsets[o], ti.lengths[o])
  }

  ghost predicate NoRepeat(recs: seq<Rec>) {
    forall x, y :: 0 <= x < y < |recs| ==> recs[x] != recs[y]
  }

  /** The records are exactly those of the first `n` requests, one for every chunk asked for. */
  ghost predicate Located(ti: TableIndex, addrs: seq<Addr>, reqs: seq<GetRecord>, recs: seq<Rec>, n: nat)
    requires Placed(ti, addrs)
  {
    && NoRepeat(recs)
    && (forall r :: r in recs ==> r.reqIdx < n && Hits(reqs, addrs, r.reqIdx, r.ordinal)
                                  && r == RecOf(ti, r.reqIdx, r.ordinal))
    && (forall i: nat, o: nat :: i < n && Hits(reqs, addrs, i, o) ==> RecOf(ti, i, o) in recs)
  }

  /** The first `n` requests are marked as found where they are, and nothing else changes. */
  ghost predicate FoundUpTo(before: seq<GetRecord>, after: seq<GetRecord>, addrs: seq<Addr>, n: nat) {
    && |after| == |before| && n <= |before|
    && (forall i :: 0 <= i < n ==> after[i] == before[i].(found := before[i].found || before[i].a in addrs))
    && (forall i :: n <= i < |before| ==> after[i] == before[i])
  }

  /** The table has a chunk whose address starts like this. */
  ghost predicate PrefixThere(addrs: seq<Addr>, prefix: nat) {
    exists o :: 0 <= o < |addrs| && addrs[o].prefix == prefix
  }

  /** Some of the first `n` requests was still open and not even its prefix is in the table. */
  ghost predicate Stray(reqs: seq<GetRecord>, addrs: seq<Addr>, n: nat) {
    exists i :: 0 <= i < n && i < |reqs| && !reqs[i].found && !PrefixThere(addrs, reqs[i].a.prefix)
  }

  // ---------- each entry of the index is of another chunk ----------

  ghost function Elements(s: seq<nat>): set<nat> {
    if s == [] then {} else Elements(s[1..]) + {s[0]}
  }

  ghost function Below(n: nat): set<nat> {
    if n == 0 then {} else Below(n - 1) + {n - 1}
  }

  lemma {:induction false} ElementsFacts(s: seq<nat>)
    ensures |Elements(s)| <= |s| && forall x :: x in Elements(s) <==> x in s
  {
    if s != [] {
      ElementsFacts(s[1..]);
    }
  }

  lemma {:induction false} BelowFacts(n: nat)
    ensures |Below(n)| == n && forall x: nat :: x in Below(n) <==> x < n
  {
    if n > 0 {
      BelowFacts(n - 1);
    }
  }

  lemma {:induction false} Smaller(x: set<nat>, y: set<nat>)
    requires x <= y
    ensures |x| <= |y|
  {
    assert y == x + (y - x);
  }

  /** A list of `n` numbers in which each of the first `n` occurs has none of them twice. */
  lemma OrdinalsDiffer(ordinals: seq<nat>, i: nat, j: nat)
    requires (forall o: nat :: o < |ordinals| ==> Listed(ordinals, o)) && i < j < |ordinals|
    ensures ordinals[i] != ordinals[j]
  {
    if ordinals[i] == ordinals[j] {
      var rest := ordinals[..i] + ordinals[i + 1..];
      forall o: nat | o < |ordinals| ensures o in rest {
        assert Listed(ordinals, o);
        var k :| 0 <= k < |ordinals| && ordinals[k] == o;
        var l := if k == i then j - 1 else if k < i then k else k - 1;
        assert rest[l] == o;
      }
      ElementsFacts(rest);
      BelowFacts(|ordinals|);
      Smaller(Below(|ordinals|), Elements(rest));
    }
  }

  // ---------- finding the places ----------

  /** One of the entries from `from` to `to` is that of chunk `o`, which has the address. */
  ghost predicate Scanned(ti: TableIndex, addrs: seq<Addr>, h: Addr, from: nat, to: nat, o: nat) {
    o < |addrs| && addrs[o] == h && exists k :: from <= k < to && k < |ti.ordinals| && ti.ordinals[k] == o
  }

  /** `recs` has been extended by the records of the chunks with the address among the entries from `from` to `to`. */
  ghost predicate Collected(ti: TableIndex, addrs: seq<Addr>, h: Addr, i: nat, from: nat, to: nat, recs: seq<Rec>,
                            recs': seq<Rec>)
    requires Placed(ti, addrs)
  {
    && NoRepeat(recs')
    && (forall r :: r in recs' ==> r in recs
                                   || (Scanned(ti, addrs, h, from, to, r.ordinal) && r == RecOf(ti, i, r.ordinal)))
    && (forall r :: r in recs ==> r in recs')
    && (forall o: nat :: Scanned(ti, addrs, h, from, to, o) ==> RecOf(ti, i, o) in recs')
  }

  lemma ScannedNext(ti: TableIndex, addrs: seq<Addr>, h: Addr, from: nat, to: nat, o: nat)
    requires from <= to < |ti.ordinals|
    ensures Scanned(ti, addrs, h, from, to + 1, o) <==>
              Scanned(ti, addrs, h, from, to, o) || (o < |addrs| && addrs[o] == h && ti.ordinals[to] == o)
  {
    if Scanned(ti, addrs, h, from, to + 1, o) && ti.ordinals[to] != o {
      var k :| from <= k < to + 1 && k < |ti.ordinals| && ti.ordinals[k] == o;
      assert k < to;
    }
  }

  /** The entry at `to` is that of a chunk that has not been met. */
  lemma NotScanned(ti: TableIndex, addrs: seq<Addr>, h: Addr, from: nat, to: nat)
    requires Indexes(ti, addrs) && from <= to < |addrs|
    ensures !Scanned(ti, addrs, h, from, to, ti.ordinals[to])
  {
    forall k | from <= k < to ensures ti.ordinals[k] != ti.ordinals[to] {
      OrdinalsDiffer(ti.ordinals, k, to);
    }
  }

  lemma CollectedNext(ti: TableIndex, addrs: seq<Addr>, h: Addr, i: nat, from: nat, to: nat, recs: seq<Rec>,
                      recs': seq<Rec>)
    requires Indexes(ti, addrs) && Placed(ti, addrs) && from <= to < |addrs|
             && Collected(ti, addrs, h, i, from, to, recs, recs')
    requires forall r :: r in recs ==> r.reqIdx < i
    ensures Collected(ti, addrs, h, i, from, to + 1, recs, if addrs[ti.ordinals[to]] == h
                      then recs' + [RecOf(ti, i, ti.ordinals[to])] else recs')
  {
    NotScanned(ti, addrs, h, from, to);
    forall o: nat
      ensures Scanned(ti, addrs, h, from, to + 1, o) <==>
        Scanned(ti, addrs, h, from, to, o) || (o < |addrs| && addrs[o] == h && ti.ordinals[to] == o) {
      ScannedNext(ti, addrs, h, from, to, o);
    }
    hide Scanned, Indexes;
    if addrs[ti.ordinals[to]] == h {
      var one := RecOf(ti, i, ti.ordinals[to]);
      assert one !in recs';
      OneMore(recs', one);
    }
  }

  lemma OneMore(recs: seq<Rec>, r: Rec)
    requires NoRepeat(recs) && r !in recs
    ensures NoRepeat(recs + [r])
  {
  }

  /** Once all entries with the prefix have been looked at, all chunks with the address have been met. */
  lemma AllScanned(ti: TableIndex, addrs: seq<Addr>, h: Addr, from: nat, to: nat, o: nat)
    requires Indexes(ti, addrs) && from <= to <= |addrs| && o < |addrs| && addrs[o] == h
    requires forall k :: 0 <= k < from ==> ti.prefixes[k] < h.prefix
    requires to < |addrs| ==> h.prefix < ti.prefixes[to]
    ensures Scanned(ti, addrs, h, from, to, o)
  {
    assert Listed(ti.ordinals, o);
    var k :| 0 <= k < |ti.ordinals| && ti.ordinals[k] == o;
    assert addrs[ti.ordinals[k]].prefix == ti.prefixes[k];
  }

  /**
   Adds the places of all chunks with the address of request `i`, whose prefix the entry at `from` is the first to have.
   */
  method ScanOffsets(ti: TableIndex, h: Addr, i: nat, from: nat, recs: seq<Rec>, ghost addrs: seq<Addr>)
    returns (recs': seq<Rec>, found: bool)
    requires Indexes(ti, addrs) && Placed(ti, addrs) && from < |addrs| && ti.prefixes[from] == h.prefix
    requires (forall k :: 0 <= k < from ==> ti.prefixes[k] < h.prefix) && NoRepeat(recs)
             && forall r :: r in recs ==> r.reqIdx < i
    ensures found == (h in addrs)
    ensures Collected(ti, addrs, h, i, 0, |addrs|, recs, recs')
  {
    hide Collected, NoRepeat;
    recs', found := recs, false;
    CollectedFirst(ti, addrs, h, i, from, recs);
    var j := from;
    while j < |ti.prefixes| && h.prefix == ti.prefixes[j]
      invariant from <= j <= |addrs| && Collected(ti, addrs, h, i, from, j, recs, recs')
      invariant found <==> !NotAmong(ti, addrs, h, from, j)
    {
      CollectedNext(ti, addrs, h, i, from, j, recs, recs');
      OrdinalInRange(ti, addrs, ti.ordinals[j]);
      if OrdinalSuffixMatches(ti, ti.ordinals[j], h) {
        assert addrs[ti.ordinals[j]] == h;
        recs', found := recs' + [RecOf(ti, i, ti.ordinals[j])], true;
      }
      j := j + 1;
    }
    if !found {
      Absent(ti, addrs, h, from, j);
    }
    CollectedAll(ti, addrs, h, i, from, j, recs, recs');
  }

  lemma CollectedFirst(ti: TableIndex, addrs: seq<Addr>, h: Addr, i: nat, from: nat, recs: seq<Rec>)
    requires Placed(ti, addrs) && NoRepeat(recs)
    ensures Collected(ti, addrs, h, i, from, from, recs, recs)
  {
  }

  lemma CollectedAll(ti: TableIndex, addrs: seq<Addr>, h: Addr, i: nat, from: nat, to: nat, recs: seq<Rec>,
                     recs': seq<Rec>)
    requires Indexes(ti, addrs) && Placed(ti, addrs) && from <= to <= |addrs|
             && Collected(ti, addrs, h, i, from, to, recs, recs')
    requires forall k :: 0 <= k < from ==> ti.prefixes[k] < h.prefix
    requires to < |addrs| ==> h.prefix < ti.prefixes[to]
    ensures Collected(ti, addrs, h, i, 0, |addrs|, recs, recs')
  {
    forall o: nat ensures Scanned(ti, addrs, h, 0, |addrs|, o) <==> Scanned(ti, addrs, h, from, to, o) {
      if o < |addrs| && addrs[o] == h {
        AllScanned(ti, addrs, h, from, to, o);
      }
    }
    hide Scanned, Indexes;
  }

  lemma LocatedNext(ti: TableIndex, addrs: seq<Addr>, reqs: seq<GetRecord>, recs: seq<Rec>, recs': seq<Rec>, i: nat)
    requires Placed(ti, addrs) && |ti.ordinals| == |addrs| && (forall o: nat :: o < |addrs| ==> Listed(ti.ordinals, o))
    requires i < |reqs| && !reqs[i].found && Located(ti, addrs, reqs, recs, i)
             && Collected(ti, addrs, reqs[i].a, i, 0, |addrs|, recs, recs')
    ensures Located(ti, addrs, reqs, recs', i + 1)
  {
    forall o: nat | Hits(reqs, addrs, i, o) ensures Scanned(ti, addrs, reqs[i].a, 0, |addrs|, o) {
      assert Listed(ti.ordinals, o);
    }
  }

  /** A request that was found before, or is not there, adds nothing. */
  lemma LocatedPass(ti: TableIndex, addrs: seq<Addr>, reqs: seq<GetRecord>, recs: seq<Rec>, i: nat)
    requires Placed(ti, addrs) && i < |reqs| && (reqs[i].found || reqs[i].a !in addrs)
             && Located(ti, addrs, reqs, recs, i)
    ensures Located(ti, addrs, reqs, recs, i + 1)
  {
  }

  lemma StrayNext(reqs: seq<GetRecord>, addrs: seq<Addr>, i: nat)
    requires i < |reqs|
    ensures Stray(reqs, addrs, i + 1) <==> Stray(reqs, addrs, i)
                                           || (!reqs[i].found && !PrefixThere(addrs, reqs[i].a.prefix))
  {
    if Stray(reqs, addrs, i + 1) && (reqs[i].found || PrefixThere(addrs, reqs[i].a.prefix)) {
      var k :| 0 <= k < i + 1 && k < |reqs| && !reqs[k].found && !PrefixThere(addrs, reqs[k].a.prefix);
      assert k < i;
    }
  }

  /** No entry has the prefix. */
  lemma NoPrefix(ti: TableIndex, addrs: seq<Addr>, prefix: nat, from: nat)
    requires Indexes(ti, addrs) && from <= |addrs| && (forall k :: 0 <= k < from ==> ti.prefixes[k] < prefix)
    requires from < |addrs| ==> prefix < ti.prefixes[from]
    ensures !PrefixThere(addrs, prefix)
  {
    forall o: nat | o < |addrs| ensures addrs[o].prefix != prefix {
      assert Listed(ti.ordinals, o);
      var k :| 0 <= k < |ti.ordinals| && ti.ordinals[k] == o;
      assert addrs[ti.ordinals[k]].prefix == ti.prefixes[k];
    }
  }

  /** All requests from `i` on are beyond the last entry. */
  lemma BeyondLast(ti: TableIndex, addrs: seq<Addr>, reqs: seq<GetRecord>, recs: seq<Rec>, after: seq<GetRecord>,
                   i: nat)
    requires Indexes(ti, addrs) && Placed(ti, addrs) && SortedRequests(reqs) && i < |reqs| && !reqs[i].found
    requires (forall k :: 0 <= k < |addrs| ==> ti.prefixes[k] < reqs[i].a.prefix) && Located(ti, addrs, reqs, recs, i)
             && FoundUpTo(reqs, after, addrs, i)
    ensures Located(ti, addrs, reqs, recs, |reqs|) && FoundUpTo(reqs, after, addrs, |reqs|)
            && Stray(reqs, addrs, |reqs|)
  {
    forall n: nat | i <= n < |reqs| ensures reqs[n].a !in addrs {
      Absent(ti, addrs, reqs[n].a, |addrs|, |addrs|);
    }
    NoPrefix(ti, addrs, reqs[i].a.prefix, |addrs|);
    hide Indexes, PrefixThere;
  }

  lemma FoundNext(before: seq<GetRecord>, now: seq<GetRecord>, after: seq<GetRecord>, addrs: seq<Addr>, i: nat)
    requires FoundUpTo(before, now, addrs, i) && i < |before|
    requires after == now[i := before[i].(found := before[i].found || before[i].a in addrs)]
    ensures FoundUpTo(before, after, addrs, i + 1)
  {
  }

  /**
   One pass over requests and index: the places of exactly the chunks asked for, and marks on the requests found.  What
   is reported as remaining are requests not even whose prefix is in the table.
   */
  method FindOffsets(ti: TableIndex, reqs: array<GetRecord>, ghost addrs: seq<Addr>)
    returns (recs: seq<Rec>, remaining: bool)
    requires Indexes(ti, addrs) && Placed(ti, addrs) && SortedRequests(reqs[..])
    modifies reqs
    ensures FoundUpTo(old(reqs[..]), reqs[..], addrs, reqs.Length)
    ensures Located(ti, addrs, old(reqs[..]), recs, reqs.Length)
    ensures remaining <==> Stray(old(reqs[..]), addrs, reqs.Length)
  {
    ghost var before := reqs[..];
    recs, remaining := [], false;
    var filterIdx, filterLen := 0, |ti.prefixes|;
    hide Located, Stray, PrefixThere, Collected;
    Nowhere(ti, addrs, before);
    for i := 0 to reqs.Length
      invariant FoundUpTo(before, reqs[..], addrs, i) && Located(ti, addrs, before, recs, i)
                && remaining == Stray(before, addrs, i)
      invariant filterIdx <= filterLen
      invariant i < reqs.Length ==> forall k :: 0 <= k < filterIdx ==> ti.prefixes[k] < before[i].a.prefix
    {
      var req := reqs[i];
      ghost var now := reqs[..];
      assert req == before[i] && now[i := req] == now;
      StrayNext(before, addrs, i);
      if req.found {
        LocatedPass(ti, addrs, before, recs, i);
        FoundNext(before, now, reqs[..], addrs, i);
        continue;
      }
      while filterIdx < filterLen && ti.prefixes[filterIdx] < req.a.prefix
        invariant filterIdx <= filterLen
        invariant forall k :: 0 <= k < filterIdx ==> ti.prefixes[k] < req.a.prefix
      {
        filterIdx := filterIdx + 1;
      }
      if filterIdx >= filterLen {
        BeyondLast(ti, addrs, before, recs, reqs[..], i);
        return recs, true;
      }
      recs, remaining := FindOne(ti, reqs, i, filterIdx, recs, remaining, addrs, before);
    }
  }

  lemma Nowhere(ti: TableIndex, addrs: seq<Addr>, reqs: seq<GetRecord>)
    requires Placed(ti, addrs)
    ensures Located(ti, addrs, reqs, [], 0) && !Stray(reqs, addrs, 0)
  {
  }

  /** Deals with one open request, where the entry at `filterIdx` is the first whose prefix is not lower. */
  method FindOne(ti: TableIndex, reqs: array<GetRecord>, i: nat, filterIdx: nat, recs: seq<Rec>, remaining: bool,
                 ghost addrs: seq<Addr>, ghost before: seq<GetRecord>)
    returns (recs': seq<Rec>, remaining': bool)
    requires Indexes(ti, addrs) && Placed(ti, addrs) && i < reqs.Length && filterIdx < |addrs|
             && FoundUpTo(before, reqs[..], addrs, i) && !before[i].found
    requires (forall k :: 0 <= k < filterIdx ==> ti.prefixes[k] < before[i].a.prefix)
             && before[i].a.prefix <= ti.prefixes[filterIdx]
    requires Located(ti, addrs, before, recs, i)
    modifies reqs
    ensures FoundUpTo(before, reqs[..], addrs, i + 1) && Located(ti, addrs, before, recs', i + 1)
    ensures remaining' <==> remaining || !PrefixThere(addrs, before[i].a.prefix)
  {
    var req := reqs[i];
    ghost var now := reqs[..];
    assert req == before[i] && now[i := req] == now;
    recs', remaining' := recs, remaining;
    if req.a.prefix != ti.prefixes[filterIdx] {
      Absent(ti, addrs, req.a, filterIdx, filterIdx);
      NoPrefix(ti, addrs, req.a.prefix, filterIdx);
      LocatedPass(ti, addrs, before, recs, i);
      FoundNext(before, now, reqs[..], addrs, i);
      return recs, true;
    }
    assert PrefixThere(addrs, req.a.prefix) by {
      assert addrs[ti.ordinals[filterIdx]].prefix == req.a.prefix;
    }
    var found;
    recs', found := ScanOffsets(ti, req.a, i, filterIdx, recs, addrs);
    LocatedNext(ti, addrs, before, recs, recs', i);
    hide Located, Indexes, PrefixThere;
    if found {
      reqs[i] := req.(found := true);
      assert reqs[..] == now[i := req.(found := true)];
    }
    FoundNext(before, now, reqs[..], addrs, i);
  }

  // ---------- what is reported as remaining ----------

  ghost predicate AnyOpen(reqs: seq<GetRecord>, addrs: seq<Addr>) {
    exists i :: 0 <= i < |reqs| && !reqs[i].found && reqs[i].a !in addrs
  }

  /** An open request whose address is not in the table, although its prefix is. */
  ghost predicate AnyCollision(reqs: seq<GetRecord>, addrs: seq<Addr>) {
    exists i :: 0 <= i < |reqs| && !reqs[i].found && reqs[i].a !in addrs && PrefixThere(addrs, reqs[i].a.prefix)
  }

  /**
   What `FindOffsets` reports is whether a request is still open exactly when some open request has a prefix that is not
   in the table, or none collides with one that is.
   */
  lemma RemainingExactly(reqs: seq<GetRecord>, addrs: seq<Addr>)
    ensures (Stray(reqs, addrs, |reqs|) <==> AnyOpen(reqs, addrs)) <==>
              (Stray(reqs, addrs, |reqs|) || !AnyCollision(reqs, addrs))
  {
    forall i | 0 <= i < |reqs| && !PrefixThere(addrs, reqs[i].a.prefix) ensures reqs[i].a !in addrs {
    }
  }

  /** Any request whose prefix is that of another chunk: it is not found, and nothing is reported as remaining. */
  lemma Collision(a: Addr, b: Addr)
    requires a.prefix == b.prefix && a != b
    ensures var reqs, addrs := [GetRecord(a, false, None)], [b]; AnyOpen(reqs, addrs) && !Stray(reqs, addrs, 1)
  {
    var reqs, addrs := [GetRecord(a, false, None)], [b];
    assert addrs[0].prefix == reqs[0].a.prefix && PrefixThere(addrs, a.prefix);
    assert reqs[0].a !in addrs;
  }

  // ---------- the order of the reads ----------

  ghost predicate SortedOffsets(recs: seq<Rec>) {
    forall i, j :: 0 <= i < j < |recs| ==> recs[i].offset <= recs[j].offset
  }

  method InsertByOffset(recs: seq<Rec>, r: Rec) returns (recs': seq<Rec>)
    requires SortedOffsets(recs) && NoRepeat(recs) && r !in recs
    ensures SortedOffsets(recs') && NoRepeat(recs') && forall x :: x in recs' <==> x in recs || x == r
  {
    var k: nat := |recs|;
    while k > 0 && recs[k - 1].offset > r.offset
      invariant k <= |recs| && forall i :: k <= i < |recs| ==> recs[i].offset > r.offset
    {
      k := k - 1;
    }
    recs' := recs[..k] + [r] + recs[k..];
    hide SortedOffsets, NoRepeat;
    Inserted(recs, r, k, recs');
    InsertedOnly(recs, r, k);
  }

  lemma InsertedOnly(recs: seq<Rec>, r: Rec, k: nat)
    requires k <= |recs|
    ensures forall x :: x in recs[..k] + [r] + recs[k..] <==> x in recs || x == r
  {
    assert recs == recs[..k] + recs[k..];
  }

  lemma Inserted(recs: seq<Rec>, r: Rec, k: nat, recs': seq<Rec>)
    requires SortedOffsets(recs) && NoRepeat(recs) && r !in recs && k <= |recs| && recs' == recs[..k] + [r] + recs[k..]
    requires (forall i :: k <= i < |recs| ==> recs[i].offset > r.offset) && (k > 0 ==> recs[k - 1].offset <= r.offset)
    ensures SortedOffsets(recs') && NoRepeat(recs')
  {
    forall i, j | 0 <= i < j < |recs'| ensures recs'[i].offset <= recs'[j].offset && recs'[i] != recs'[j] {
      var i', j' := if i < k then i else i - 1, if j < k then j else j - 1;
      assert i != k ==> recs'[i] == recs[i'] && recs[i'] in recs;
      assert j != k ==> recs'[j] == recs[j'] && recs[j'] in recs;
      assert i < k - 1 ==> recs[i].offset <= recs[k - 1].offset;
    }
  }

  /** A permutation in the order of the places. */
  method SortByOffset(recs: seq<Rec>) returns (recs': seq<Rec>)
    requires NoRepeat(recs)
    ensures SortedOffsets(recs') && NoRepeat(recs') && forall x :: x in recs' <==> x in recs
  {
    recs' := [];
    for i := 0 to |recs|
      invariant SortedOffsets(recs') && NoRepeat(recs') && forall x :: x in recs' <==> x in recs[..i]
    {
      assert recs[..i + 1] == recs[..i] + [recs[i]];
      recs' := InsertByOffset(recs', recs[i]);
    }
    assert recs[..|recs|] == recs;
  }

  /** Chunks that start no later than others are no later. */
  lemma {:induction false} EarlierChunk(c: Codec, datas: seq<seq<Byte>>, o: nat, p: nat)
    requires o < |datas| && p < |datas| && OffsetOf(c, datas, o) <= OffsetOf(c, datas, p)
    ensures o == p || OffsetOf(c, datas, o) + |Block(c, datas[o])| <= OffsetOf(c, datas, p)
  {
    hide Block;
    assert OffsetOf(c, datas, o + 1) == OffsetOf(c, datas, o) + |Block(c, datas[o])|;
    assert OffsetOf(c, datas, p + 1) == OffsetOf(c, datas, p) + |Block(c, datas[p])|;
    hide OffsetOf;
    if o < p {
      OffsetGrows(c, datas, o + 1, p);
    } else if p < o {
      OffsetGrows(c, datas, p + 1, o);
      BlockSize(c, datas[p]);
    }
  }

  /** The records of a table, in the order of their places, do not overlap. */
  lemma TableOrder(ti: TableIndex, c: Codec, addrs: seq<Addr>, datas: seq<seq<Byte>>, reqs: seq<GetRecord>,
                   recs: seq<Rec>, n: nat)
    requires Describes(ti, c, addrs, datas) && Located(ti, addrs, reqs, recs, n) && SortedOffsets(recs)
    ensures InOrder(recs)
  {
    hide Indexes, Block, OffsetOf;
    forall i, j | 0 <= i < j < |recs|
      ensures recs[i].offset + recs[i].length <= recs[j].offset
              || (recs[i].offset == recs[j].offset && recs[i].length == recs[j].length) {
      assert recs[i] in recs && recs[j] in recs;
      EarlierChunk(c, datas, recs[i].ordinal, recs[j].ordinal);
    }
  }

  /** In a table that has no address twice, every request is for one record. */
  lemma OneRecordEach(ti: TableIndex, addrs: seq<Addr>, reqs: seq<GetRecord>, recs: seq<Rec>, n: nat)
    requires Placed(ti, addrs) && Located(ti, addrs, reqs, recs, n) && Distinct(addrs)
    ensures OneEach(recs)
  {
    forall i, j | 0 <= i < j < |recs| ensures recs[i].reqIdx != recs[j].reqIdx {
      assert recs[i] in recs && recs[j] in recs;
    }
  }

  lemma SamePlaces(ti: TableIndex, addrs: seq<Addr>, reqs: seq<GetRecord>, recs: seq<Rec>, recs': seq<Rec>, n: nat)
    requires Placed(ti, addrs) && Located(ti, addrs, reqs, recs, n) && NoRepeat(recs')
             && forall x :: x in recs' <==> x in recs
    ensures Located(ti, addrs, reqs, recs', n)
  {
  }

  // ---------- reading ----------

  /** One of the first `n` records is for request `i`. */
  ghost predicate AskedBy(recs: seq<Rec>, n: nat, i: nat) {
    exists k :: 0 <= k < n && k < |recs| && recs[k].reqIdx == i
  }

  /** The bytes are those of a chunk that one of the first `n` records has for request `i`. */
  ghost predicate ReadFrom(data: Option<seq<Byte>>, datas: seq<seq<Byte>>, recs: seq<Rec>, n: nat, i: nat) {
    exists k :: 0 <= k < n && k < |recs| && recs[k].reqIdx == i && recs[k].ordinal < |datas|
      && data == Some(datas[recs[k].ordinal])
  }

  ghost predicate ReadOne(before: GetRecord, after: GetRecord, datas: seq<seq<Byte>>, recs: seq<Rec>, n: nat, i: nat) {
    && after.a == before.a && after.found == before.found
    && if AskedBy(recs, n, i) then ReadFrom(after.data, datas, recs, n, i) else after.data == before.data
  }

  /** The first `n` records have been read. */
  ghost predicate ReadUpTo(before: seq<GetRecord>, after: seq<GetRecord>, datas: seq<seq<Byte>>, recs: seq<Rec>,
                           n: nat) {
    |after| == |before| && forall i :: 0 <= i < |before| ==> ReadOne(before[i], after[i], datas, recs, n, i)
  }

  lemma ReadNext(before: seq<GetRecord>, now: seq<GetRecord>, after: seq<GetRecord>, datas: seq<seq<Byte>>,
                 recs: seq<Rec>, n: nat)
    requires ReadUpTo(before, now, datas, recs, n) && n < |recs| && recs[n].reqIdx < |now| && recs[n].ordinal < |datas|
    requires after == now[recs[n].reqIdx := now[recs[n].reqIdx].(data := Some(datas[recs[n].ordinal]))]
    ensures ReadUpTo(before, after, datas, recs, n + 1)
  {
    forall i: nat | i < |before| ensures ReadOne(before[i], after[i], datas, recs, n + 1, i) {
      assert ReadOne(before[i], now[i], datas, recs, n, i);
      if i == recs[n].reqIdx {
        assert ReadFrom(after[i].data, datas, recs, n + 1, i);
      } else {
        if AskedBy(recs, n, i) {
          var k :| 0 <= k < n && k < |recs| && recs[k].reqIdx == i && recs[k].ordinal < |datas|
            && now[i].data == Some(datas[recs[k].ordinal]);
          assert ReadFrom(after[i].data, datas, recs, n + 1, i);
        } else {
          NotAskedNext(recs, n, i);
        }
      }
    }
  }

  lemma NotAskedNext(recs: seq<Rec>, n: nat, i: nat)
    requires n < |recs| && !AskedBy(recs, n, i) && recs[n].reqIdx != i
    ensures !AskedBy(recs, n + 1, i)
  {
    forall k | 0 <= k < n + 1 ensures recs[k].reqIdx != i {
    }
  }

  /** The records are of chunks that the bytes of the table hold where the records say. */
  ghost predicate Held(t: seq<Byte>, c: Codec, datas: seq<seq<Byte>>, recs: seq<Rec>, n: nat) {
    forall k :: 0 <= k < |recs| ==> recs[k].reqIdx < n && HeldRec(t, c, datas, recs[k])
  }

  ghost predicate HeldRec(t: seq<Byte>, c: Codec, datas: seq<seq<Byte>>, r: Rec) {
    r.ordinal < |datas| && r.length == |Block(c, datas[r.ordinal])| && HeldAt(t, r.offset, Block(c, datas[r.ordinal]))
  }

  /** A chunk that lies in what has been read is cut out of it and undone. */
  method CutOut(t: seq<Byte>, c: Codec, ghost datas: seq<seq<Byte>>, buff: seq<Byte>, readStart: nat, r: Rec)
    returns (data: Option<seq<Byte>>)
    requires Works(c) && HeldRec(t, c, datas, r) && readStart <= r.offset
             && r.offset + r.length <= readStart + |buff| <= |t|
    requires buff == t[readStart..readStart + |buff|]
    ensures data == Some(datas[r.ordinal])
  {
    var localStart := r.offset - readStart;
    var localEnd := localStart + r.length;
    assert buff[localStart..localEnd] == t[r.offset..r.offset + r.length];
    BlockSize(c, datas[r.ordinal]);
    data := ParseChunk(c, buff[localStart..localEnd]);
  }

  /** One physical read, and what it answers. */
  method ReadAtOffsets(t: seq<Byte>, c: Codec, b: Batch, l: Limits, recs: seq<Rec>, reqs: array<GetRecord>,
                       ghost datas: seq<seq<Byte>>, ghost before: seq<GetRecord>)
    requires Works(c) && InOrder(recs) && GoodBatch(recs, l, b) && Held(t, c, datas, recs, reqs.Length)
             && ReadUpTo(before, reqs[..], datas, recs, b.from)
    modifies reqs
    ensures ReadUpTo(before, reqs[..], datas, recs, b.to)
  {
    BatchInside(t, c, datas, b, l, recs, reqs.Length);
    var buff := t[b.readStart..b.readEnd];
    hide ReadUpTo, InOrder, GoodBatch, HeldRec;
    for k := b.from to b.to
      invariant ReadUpTo(before, reqs[..], datas, recs, k)
    {
      InBatch(recs, l, b, k);
      var r := recs[k];
      var data := CutOut(t, c, datas, buff, b.readStart, r);
      ghost var now := reqs[..];
      ReadSame(before, now, datas, recs, k);
      reqs[r.reqIdx] := reqs[r.reqIdx].(data := data);
      assert reqs[..] == now[r.reqIdx := now[r.reqIdx].(data := data)];
      InTable(t, c, datas, r);
      ReadNext(before, now, reqs[..], datas, recs, k);
    }
  }

  lemma InTable(t: seq<Byte>, c: Codec, datas: seq<seq<Byte>>, r: Rec)
    requires HeldRec(t, c, datas, r)
    ensures r.ordinal < |datas| && r.offset + r.length <= |t|
  {
  }

  lemma ReadSame(before: seq<GetRecord>, now: seq<GetRecord>, datas: seq<seq<Byte>>, recs: seq<Rec>, n: nat)
    requires ReadUpTo(before, now, datas, recs, n)
    ensures |now| == |before|
  {
  }

  lemma InBatch(recs: seq<Rec>, l: Limits, b: Batch, k: nat)
    requires InOrder(recs) && GoodBatch(recs, l, b) && b.from <= k < b.to
    ensures k < |recs| && b.readStart <= recs[k].offset && recs[k].offset + recs[k].length <= b.readEnd
  {
    GoodIncludes(recs, l, b, k);
  }

  lemma BatchInside(t: seq<Byte>, c: Codec, datas: seq<seq<Byte>>, b: Batch, l: Limits, recs: seq<Rec>, n: nat)
    requires InOrder(recs) && GoodBatch(recs, l, b) && Held(t, c, datas, recs, n)
    ensures b.readStart <= b.readEnd <= |t| && b.from <= b.to <= |recs|
  {
    GoodIncludes(recs, l, b, b.from);
    InTable(t, c, datas, recs[b.to - 1]);
  }

  /** Every open request whose address is in the table has its bytes, and nothing else changes. */
  ghost predicate Answered(before: seq<GetRecord>, after: seq<GetRecord>, addrs: seq<Addr>, datas: seq<seq<Byte>>) {
    |after| == |before| && forall i :: 0 <= i < |before| ==>
      if !before[i].found && before[i].a in addrs then Answers(before[i], after[i], addrs, datas)
         else after[i] == before[i]
  }

  ghost predicate Answers(before: GetRecord, after: GetRecord, addrs: seq<Addr>, datas: seq<seq<Byte>>) {
    after.a == before.a && after.found && exists o ::
                                            0 <= o < |addrs| && o < |datas| && addrs[o] == after.a
                                            && after.data == Some(datas[o])
  }

  lemma AllAnswered(ti: TableIndex, addrs: seq<Addr>, datas: seq<seq<Byte>>, before: seq<GetRecord>,
                    found: seq<GetRecord>, after: seq<GetRecord>, recs: seq<Rec>)
    requires Placed(ti, addrs) && |datas| == |addrs| && Located(ti, addrs, before, recs, |before|)
             && FoundUpTo(before, found, addrs, |before|)
    requires ReadUpTo(found, after, datas, recs, |recs|)
    ensures Answered(before, after, addrs, datas)
  {
    forall i: nat | i < |before|
      ensures if !before[i].found && before[i].a in addrs then Answers(before[i], after[i], addrs, datas)
              else after[i] == before[i] {
      assert ReadOne(found[i], after[i], datas, recs, |recs|, i);
      if !before[i].found && before[i].a in addrs {
        var o :| 0 <= o < |addrs| && addrs[o] == before[i].a;
        assert Hits(before, addrs, i, o);
        assert RecOf(ti, i, o) in recs;
        assert AskedBy(recs, |recs|, i);
        var k :| 0 <= k < |recs| && recs[k].reqIdx == i && recs[k].ordinal < |datas|
          && after[i].data == Some(datas[recs[k].ordinal]);
        assert recs[k] in recs && Hits(before, addrs, i, recs[k].ordinal);
      } else {
        forall k | 0 <= k < |recs| ensures recs[k].reqIdx != i {
          assert recs[k] in recs;
        }
      }
    }
  }

  lemma AllHeld(t: seq<Byte>, ti: TableIndex, c: Codec, addrs: seq<Addr>, datas: seq<seq<Byte>>, reqs: seq<GetRecord>,
                recs: seq<Rec>)
    requires Describes(ti, c, addrs, datas) && Blocks(t, c, datas) && Located(ti, addrs, reqs, recs, |reqs|)
    ensures Held(t, c, datas, recs, |reqs|)
  {
    hide Indexes, Block, OffsetOf, HeldAt;
    forall k | 0 <= k < |recs| ensures recs[k].reqIdx < |reqs| && HeldRec(t, c, datas, recs[k]) {
      assert recs[k] in recs;
    }
  }

  /**
   Answers all requests that the table can, with as many reads as the limits make of the records: every open request
   whose address is in the table gets the bytes stored under it.
   */
  method GetMany(t: seq<Byte>, ti: TableIndex, c: Codec, l: Limits, reqs: array<GetRecord>, ghost addrs: seq<Addr>,
                 ghost datas: seq<seq<Byte>>)
    returns (remaining: bool)
    requires Works(c) && Describes(ti, c, addrs, datas) && Blocks(t, c, datas) && SortedRequests(reqs[..])
    modifies reqs
    ensures Answered(old(reqs[..]), reqs[..], addrs, datas)
    ensures remaining <==> Stray(old(reqs[..]), addrs, reqs.Length)
  {
    ghost var before := reqs[..];
    hide Works, Blocks, Located, FoundUpTo, SortedRequests, Stray, Answered;
    var found: seq<Rec>;
    found, remaining := FindOffsets(ti, reqs, addrs);
    ghost var marked := reqs[..];
    LocatedOnce(ti, addrs, before, found, |before|);
    var recs := SortByOffset(found);
    SamePlaces(ti, addrs, before, found, recs, |before|);
    TableOrder(ti, c, addrs, datas, before, recs, |before|);
    AllHeld(t, ti, c, addrs, datas, before, recs);
    hide Describes;
    ReadAll(t, c, l, recs, reqs, datas, marked);
    AllAnswered(ti, addrs, datas, before, marked, reqs[..], recs);
  }

  lemma LocatedOnce(ti: TableIndex, addrs: seq<Addr>, reqs: seq<GetRecord>, recs: seq<Rec>, n: nat)
    requires Placed(ti, addrs) && Located(ti, addrs, reqs, recs, n)
    ensures NoRepeat(recs)
  {
  }

  /** Reads one batch after the other. */
  method ReadAll(t: seq<Byte>, c: Codec, l: Limits, recs: seq<Rec>, reqs: array<GetRecord>, ghost datas: seq<seq<Byte>>,
                 ghost before: seq<GetRecord>)
    requires Works(c) && InOrder(recs) && Held(t, c, datas, recs, reqs.Length) && before == reqs[..]
    modifies reqs
    ensures ReadUpTo(before, reqs[..], datas, recs, |recs|)
  {
    var batches := GetManyBatches(recs, l);
    BatchesPartition(recs, l, 0);
    NothingRead(before, datas, recs);
    hide Works, InOrder, Held, ReadUpTo, GoodBatch;
    for n := 0 to |batches|
      invariant ReadUpTo(before, reqs[..], datas, recs, if n < |batches| then batches[n].from else |recs|)
    {
      ReadAtOffsets(t, c, batches[n], l, recs, reqs, datas, before);
    }
  }

  lemma NothingRead(reqs: seq<GetRecord>, datas: seq<seq<Byte>>, recs: seq<Rec>)
    ensures ReadUpTo(reqs, reqs, datas, recs, 0)
  {
  }
}
