/** Answering many requests from the tables of a store, one table after the other. */
module StoreReads {
  import opened Options
  import opened TableFormat
  import opened TableIndexes
  import opened BlockStore
  import opened ReadBatches
  import R = TableReads

  type Request = R.GetRecord

  /**
   After table `n` some open request is left not even whose prefix that table has, so that the next table is asked.
   */
  ghost predicate Continues(reqs: seq<Request>, tables: seq<Table>, n: nat)
    requires n < |tables|
  {
    exists i :: 0 <= i < |reqs| && LeftOver(reqs[i], tables, n)
  }

  ghost predicate LeftOver(r: Request, tables: seq<Table>, n: nat)
    requires n < |tables|
  {
    !r.found && !Among(tables, n, r.a) && !R.PrefixThere(tables[n].addrs, r.a.prefix)
  }

  /** How many tables are asked, `n` of which have been. */
  ghost function Consulted(reqs: seq<Request>, tables: seq<Table>, n: nat): (m: nat)
    requires n <= |tables|
    ensures n <= m <= |tables|
    decreases |tables| - n
  {
    if n == |tables| then n else if Continues(reqs, tables, n) then Consulted(reqs, tables, n + 1) else n + 1
  }

  /** What is in the first `n` tables has been read. */
  function Got(w: World, r: Request, among: bool): Request {
    if !r.found && among then r.(found := true, data := Some(w.content(r.a))) else r
  }

  ghost predicate GotFrom(w: World, before: seq<Request>, after: seq<Request>, tables: seq<Table>, n: nat) {
    |after| == |before| && forall i :: 0 <= i < |before| ==>
                               after[i] == Got(w, before[i], Among(tables, n, before[i].a))
  }

  lemma GotNext(w: World, before: seq<Request>, now: seq<Request>, after: seq<Request>, tables: seq<Table>, n: nat)
    requires n < |tables| && GotFrom(w, before, now, tables, n)
    requires R.Answered(now, after, tables[n].addrs, DatasOf(w, tables[n].addrs))
    ensures GotFrom(w, before, after, tables, n + 1)
  {
    forall i | 0 <= i < |before| ensures after[i] == Got(w, before[i], Among(tables, n + 1, before[i].a)) {
      AmongNext(tables, n, before[i].a);
      hide Among;
      assert now[i] == Got(w, before[i], Among(tables, n, before[i].a));
      if !now[i].found && now[i].a in tables[n].addrs {
        assert R.Answers(now[i], after[i], tables[n].addrs, DatasOf(w, tables[n].addrs));
      }
    }
  }

  lemma StrayIsLeft(w: World, before: seq<Request>, now: seq<Request>, tables: seq<Table>, n: nat)
    requires n < |tables| && GotFrom(w, before, now, tables, n)
    ensures R.Stray(now, tables[n].addrs, |now|) <==> Continues(before, tables, n)
  {
    hide Among;
    forall i | 0 <= i < |now|
      ensures !now[i].found && !R.PrefixThere(tables[n].addrs, now[i].a.prefix) <==> LeftOver(before[i], tables, n) {
      assert now[i] == Got(w, before[i], Among(tables, n, before[i].a));
    }
  }

  /** Asks one table after the other as long as it is told that something remains. */
  method TablesGetMany(w: World, tables: seq<Table>, l: Limits, reqs: array<Request>)
    requires Works(w.codec) && AllReadable(w, tables) && R.SortedRequests(reqs[..])
    modifies reqs
    ensures GotFrom(w, old(reqs[..]), reqs[..], tables, Consulted(old(reqs[..]), tables, 0))
  {
    ghost var before := reqs[..];
    hide Among, Continues, Works;
    for n := 0 to |tables|
      invariant GotFrom(w, before, reqs[..], tables, n) && R.SortedRequests(reqs[..])
      invariant Consulted(before, tables, 0) == Consulted(before, tables, n)
    {
      ghost var now := reqs[..];
      assert Readable(w, tables[n]);
      var t := tables[n];
      var remaining := R.GetMany(t.bytes, t.index, w.codec, l, reqs, t.addrs, DatasOf(w, t.addrs));
      GotNext(w, before, now, reqs[..], tables, n);
      StrayIsLeft(w, before, now, tables, n);
      StillSorted(w, before, reqs[..], tables, n + 1);
      if !remaining {
        return;
      }
    }
  }

  lemma StillSorted(w: World, before: seq<Request>, after: seq<Request>, tables: seq<Table>, n: nat)
    requires GotFrom(w, before, after, tables, n) && R.SortedRequests(before)
    ensures R.SortedRequests(after)
  {
    hide Among;
    forall i | 0 <= i < |before| ensures after[i].a == before[i].a {
    }
  }

  // ---------- when everything that is held is found ----------

  /** No request has the prefix of a chunk of a table that does not have its address. */
  ghost predicate NoCollision(reqs: seq<Request>, tables: seq<Table>) {
    forall i, m :: 0 <= i < |reqs| && 0 <= m < |tables| ==>
      (R.PrefixThere(tables[m].addrs, reqs[i].a.prefix) ==> reqs[i].a in tables[m].addrs)
  }

  /** Without collisions every request is answered that any table can answer. */
  lemma {:induction false} AllFoundWithout(reqs: seq<Request>, tables: seq<Table>, n: nat, i: nat)
    requires NoCollision(reqs, tables) && n <= |tables| && i < |reqs| && !reqs[i].found
    ensures Among(tables, Consulted(reqs, tables, n), reqs[i].a) <==> Among(tables, |tables|, reqs[i].a)
    decreases |tables| - n
  {
    if n < |tables| {
      if Continues(reqs, tables, n) {
        AllFoundWithout(reqs, tables, n + 1, i);
      } else {
        AmongNext(tables, n, reqs[i].a);
        assert !LeftOver(reqs[i], tables, n);
        assert R.PrefixThere(tables[n].addrs, reqs[i].a.prefix) ==> reqs[i].a in tables[n].addrs;
        AmongMore(tables, n + 1, |tables|, reqs[i].a);
      }
    }
  }

  lemma AmongMore(tables: seq<Table>, n: nat, m: nat, a: Addr)
    requires n <= m && Among(tables, n, a)
    ensures Among(tables, m, a)
  {
  }

  /** Every table from `k` up to `n` leaves something over. */
  ghost predicate Asked(reqs: seq<Request>, tables: seq<Table>, k: nat, n: nat)
    requires n <= |tables|
  {
    forall m :: k <= m < n ==> Continues(reqs, tables, m)
  }

  lemma {:induction false} AskedExactly(reqs: seq<Request>, tables: seq<Table>, k: nat, n: nat)
    requires k <= n < |tables|
    ensures n < Consulted(reqs, tables, k) <==> Asked(reqs, tables, k, n)
    decreases n - k
  {
    if k < n && Continues(reqs, tables, k) {
      AskedExactly(reqs, tables, k + 1, n);
    }
  }

  /**
   Whatever else is asked for, a chunk is read exactly if some table has it and every table before that leaves over an
   open request not even whose prefix it has.
   */
  lemma {:induction false} FoundExactly(reqs: seq<Request>, tables: seq<Table>, a: Addr)
    ensures Among(tables, Consulted(reqs, tables, 0), a) <==>
            exists n :: 0 <= n < |tables| && a in tables[n].addrs && Asked(reqs, tables, 0, n)
  {
    forall n | 0 <= n < |tables| ensures n < Consulted(reqs, tables, 0) <==> Asked(reqs, tables, 0, n) {
      AskedExactly(reqs, tables, 0, n);
    }
  }

  /** The first table with a chunk whose address starts like that of the request has the chunk asked for. */
  ghost predicate FirstHas(tables: seq<Table>, a: Addr, k: nat) {
    exists n :: k <= n < |tables| && a in tables[n].addrs
      && forall m :: k <= m < n ==> !R.PrefixThere(tables[m].addrs, a.prefix)
  }

  /** A request alone is answered exactly when the first table that has its prefix has its address. */
  lemma {:induction false} AloneExactly(r: Request, tables: seq<Table>, k: nat)
    requires !r.found && k <= |tables| && !Among(tables, k, r.a)
    ensures Among(tables, Consulted([r], tables, k), r.a) <==> FirstHas(tables, r.a, k)
    decreases |tables| - k
  {
    if k < |tables| {
      var there := R.PrefixThere(tables[k].addrs, r.a.prefix);
      assert r.a in tables[k].addrs ==> there;
      assert [r][0] == r;
      assert Continues([r], tables, k) <==> !there by {
        assert LeftOver([r][0], tables, k) <==> !there;
      }
      AmongNext(tables, k, r.a);
      FirstNext(tables, r.a, k);
      if !there {
        AloneExactly(r, tables, k + 1);
      }
    }
  }

  lemma FirstNext(tables: seq<Table>, a: Addr, k: nat)
    requires k < |tables| && (a in tables[k].addrs ==> R.PrefixThere(tables[k].addrs, a.prefix))
    ensures FirstHas(tables, a, k) <==>
              a in tables[k].addrs || (!R.PrefixThere(tables[k].addrs, a.prefix) && FirstHas(tables, a, k + 1))
  {
    if FirstHas(tables, a, k) && a !in tables[k].addrs {
      var n :| k <= n < |tables| && a in tables[n].addrs
        && forall m :: k <= m < n ==> !R.PrefixThere(tables[m].addrs, a.prefix);
      assert k + 1 <= n;
      assert !R.PrefixThere(tables[k].addrs, a.prefix);
    }
    if !R.PrefixThere(tables[k].addrs, a.prefix) && FirstHas(tables, a, k + 1) {
      var n :| k + 1 <= n < |tables| && a in tables[n].addrs
        && forall m :: k + 1 <= m < n ==> !R.PrefixThere(tables[m].addrs, a.prefix);
      forall m | k <= m < n ensures !R.PrefixThere(tables[m].addrs, a.prefix) {
      }
    }
  }

  /** Behind a table with another chunk of the same prefix, a chunk that is held is not found. */
  lemma LostBehind(tables: seq<Table>, a: Addr, b: Addr)
    requires |tables| == 2 && tables[0].addrs == [b] && tables[1].addrs == [a] && a.prefix == b.prefix && a != b
    ensures Among(tables, |tables|, a) && !Among(tables, Consulted([R.GetRecord(a, false, None)], tables, 0), a)
  {
    assert a in tables[1].addrs && a !in tables[0].addrs;
    assert R.PrefixThere(tables[0].addrs, a.prefix) by {
      assert tables[0].addrs[0].prefix == a.prefix;
    }
    AloneExactly(R.GetRecord(a, false, None), tables, 0);
    FirstNext(tables, a, 0);
  }

  /** Any two chunks whose addresses collide, each written to a table of its own: one of them is held and not found. */
  method LoseChunk(w: World, l: Limits, a: Addr, b: Addr) returns (tables: seq<Table>, r: Request)
    requires Works(w.codec) && Writable(w, [a]) && Writable(w, [b]) && a.prefix == b.prefix && a != b
    ensures AllReadable(w, tables) && Among(tables, |tables|, a) && r == R.GetRecord(a, false, None)
  {
    var x := WriteTable(w, [a], [w.content(a)]);
    var y := WriteTable(w, [b], [w.content(b)]);
    tables := [y, x];
    LostBehind(tables, a, b);
    var reqs := new Request[1](_ => R.GetRecord(a, false, None));
    assert reqs[..] == [R.GetRecord(a, false, None)];
    hide Readable, Among, Consulted, Works, Writable;
    TablesGetMany(w, tables, l, reqs);
    r := reqs[0];
  }
}
