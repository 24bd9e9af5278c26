/**
 Whatever the splice limit, the splices of a diff are in order, stay within the two lists and take no element twice.
 */
module OrderlyDiff {
  import opened ProllyTree
  import opened Splices
  import opened EditDistance
  import opened IndexedDiff

  lemma SpliceListOrderly<T>(p: seq<T>, c: seq<T>, limit: nat)
    requires |c| < SPLICE_UNASSIGNED
    ensures Orderly(|p|, |c|, SpliceList(p, c, limit))
  {
    ExactlyWhen(p, c, limit);
    if Exact(p, c, limit) {
      DiffOrderly(p, c, SpliceList(p, c, limit));
    } else {
      var (prefix, suffix) := Shared(p, c);
      OrderlySnoc(|p|, |c|, [], Splice(0, |p| - prefix - suffix, |c| - prefix - suffix, 0));
      assert [] + SpliceList(p, c, limit) == SpliceList(p, c, limit);
    }
  }

  /** The splices sent so far are orderly, and end by `i` in the one list and by `j` in the other. */
  ghost predicate Upto<V>(p: Level<V>, c: Level<V>, sent: seq<Splice>, i: nat, j: nat) {
    Orderly(|p|, |c|, sent) && End(sent) <= i && Taken(sent) <= j
  }

  ghost predicate Before(sent: seq<Splice>, i: nat) {
    sent == [] || End(sent) < i
  }

  /** How far one splice gets in the current level, which it may take nothing from. */
  ghost function TakenBy(s: Splice, j: nat): nat {
    if s.added > 0 then s.from + s.added else j
  }

  lemma Send<V>(p: Level<V>, c: Level<V>, sent: seq<Splice>, t: Splice, i: nat, j: nat)
    requires Orderly(|p|, |c|, sent) && Before(sent, t.at) && t.removed + t.added > 0
             && (t.added > 0 ==> Taken(sent) <= t.from)
    requires t.at + t.removed <= i <= |p| && t.from + t.added <= |c|
             && (if t.added > 0 then t.from + t.added <= j else Taken(sent) <= j)
    ensures Upto(p, c, sent + [t], i, j)
  {
    OrderlySnoc(|p|, |c|, sent, t);
  }

  /** One splice of a level is next. */
  ghost predicate Follows<V>(p: Level<V>, c: Level<V>, sent: seq<Splice>, last: Level<V>, lo: nat, current: Level<V>,
                             co: nat, s: Splice, j: nat) {
    && Within(last, current, s) && s.removed + s.added > 0 && j <= |current| && (s.added > 0 ==> j <= s.from)
    && Orderly(|p|, |c|, sent) && Taken(sent) <= Pos(co, current, j) && Before(sent, Pos(lo, last, s.at))
  }

  lemma LeafOrderly<V>(p: Level<V>, c: Level<V>, sent: seq<Splice>, last: Level<V>, lo: nat, current: Level<V>, co: nat,
                       s: Splice, j: nat)
    requires Setting(p, c, last, 0, lo, current, 0, co) && Follows(p, c, sent, last, lo, current, co, s, j)
    ensures Upto(p, c, sent + [LeafSent(lo, co, s)], Pos(lo, last, s.at + s.removed), Pos(co, current, TakenBy(s, j)))
  {
    LeafUnder(last, s.at);
    LeafUnder(last, s.at + s.removed);
    LeafUnder(last, |last|);
    LeafUnder(current, j);
    LeafUnder(current, TakenBy(s, j));
    LeafUnder(current, |current|);
    Send(p, c, sent, LeafSent(lo, co, s), Pos(lo, last, s.at + s.removed), Pos(co, current, TakenBy(s, j)));
  }

  lemma SubtreeOrderly<V>(p: Level<V>, c: Level<V>, sent: seq<Splice>, last: Level<V>, h: nat, lo: nat,
                          current: Level<V>, co: nat, s: Splice, j: nat)
    requires Setting(p, c, last, h, lo, current, h, co) && Follows(p, c, sent, last, lo, current, co, s, j)
    ensures Upto(p, c, sent + [SubtreeSent(last, lo, current, co, s)], Pos(lo, last, s.at + s.removed),
                 Pos(co, current, TakenBy(s, j)))
  {
    PosGrow(p, lo, last, h, s.at, s.at + s.removed);
    PosGrow(c, co, current, h, s.from, s.from + s.added);
    PosGrow(c, co, current, h, 0, |current|);
    if s.added > 0 {
      PosGrow(c, co, current, h, j, s.from);
    }
    hide Tree, PartAt, Orderly, Taken, Under;
    Send(p, c, sent, SubtreeSent(last, lo, current, co, s), Pos(lo, last, s.at + s.removed),
         Pos(co, current, TakenBy(s, j)));
  }

  lemma {:induction false} OneOrderly<V>(p: Level<V>, c: Level<V>, sent: seq<Splice>, last: Level<V>, h: nat, lo: nat,
                                         current: Level<V>, co: nat, limit: nat, s: Splice, j: nat)
    requires Setting(p, c, last, h, lo, current, h, co) && Follows(p, c, sent, last, lo, current, co, s, j)
    ensures Upto(p, c, sent + DiffedOne(last, h, lo, current, co, limit, s), Pos(lo, last, s.at + s.removed),
                 Pos(co, current, TakenBy(s, j)))
    decreases 2 * h, 0
  {
    hide Setting, Orderly, Taken, Diffed, Composite, Under, Pos, LeafSent, SubtreeSent, Upto;
    if h == 0 {
      LeafOrderly(p, c, sent, last, lo, current, co, s, j);
    } else if s.removed == 0 || s.added == 0 {
      SubtreeOrderly(p, c, sent, last, h, lo, current, co, s, j);
    } else {
      BelowOrderly(p, c, sent, last, h, lo, current, co, limit, s, j);
    }
  }

  lemma {:induction false} BelowOrderly<V>(p: Level<V>, c: Level<V>, sent: seq<Splice>, last: Level<V>, h: nat, lo: nat,
                                           current: Level<V>, co: nat, limit: nat, s: Splice, j: nat)
    requires Setting(p, c, last, h, lo, current, h, co) && Follows(p, c, sent, last, lo, current, co, s, j) && h > 0
             && s.added > 0
    ensures var x, y := Composite(last, s.at, s.at + s.removed), Composite(current, s.from, s.from + s.added);
            Upto(p, c, sent + Diffed(x, h - 1, Pos(lo, last, s.at), y, h - 1, Pos(co, current, s.from), limit),
                 Pos(lo, last, s.at + s.removed), Pos(co, current, s.from + s.added))
    decreases 2 * h - 1, 0
  {
    var x, y := Composite(last, s.at, s.at + s.removed), Composite(current, s.from, s.from + s.added);
    PosGrow(c, co, current, h, j, s.from);
    hide Tree, PartAt, Diffed, Orderly, Taken;
    Below(p, lo, last, h, s.at, s.at + s.removed);
    Below(c, co, current, h, s.from, s.from + s.added);
    DiffedOrderly(p, c, sent, x, h - 1, Pos(lo, last, s.at), y, h - 1, Pos(co, current, s.from), limit);
  }

  lemma {:induction false} LevelOrderly<V>(p: Level<V>, c: Level<V>, sent: seq<Splice>, last: Level<V>, h: nat, lo: nat,
                                           current: Level<V>, co: nat, limit: nat, splices: seq<Splice>, k: nat, i: nat,
                                             j: nat)
    requires Setting(p, c, last, h, lo, current, h, co) && Orderly(|last|, |current|, splices) && k <= |splices|
    requires Upto(p, c, sent, lo, co) && Before(sent, lo) && i == End(splices[..k]) <= |last|
             && j == Taken(splices[..k]) <= |current|
    ensures Upto(p, c, sent + DiffedUpTo(last, h, lo, current, co, limit, splices, k), Pos(lo, last, i),
                 Pos(co, current, j))
    decreases 2 * h, 1, k
  {
    if k == 0 {
      NothingYet(p, c, sent, last, lo, current, co);
    } else {
      hide *;
      var s, before := splices[k - 1], sent + DiffedUpTo(last, h, lo, current, co, limit, splices, k - 1);
      var i', j' := OneMore(last, current, splices, k);
      LevelOrderly(p, c, sent, last, h, lo, current, co, limit, splices, k - 1, i', j');
      UpToNext(sent, last, h, lo, current, co, limit, splices, k);
      NextFollows(p, c, sent, before, last, h, lo, current, co, s, k, i', j');
      OneOrderly(p, c, before, last, h, lo, current, co, limit, s, j');
    }
  }

  lemma NothingYet<V>(p: Level<V>, c: Level<V>, sent: seq<Splice>, last: Level<V>, lo: nat, current: Level<V>, co: nat)
    requires Upto(p, c, sent, lo, co)
    ensures Upto(p, c, sent + [], Pos(lo, last, 0), Pos(co, current, 0))
  {
    assert sent + [] == sent;
  }

  lemma UpToNext<V>(sent: seq<Splice>, last: Level<V>, h: nat, lo: nat, current: Level<V>, co: nat, limit: nat,
                    splices: seq<Splice>, k: nat)
    requires 0 < k <= |splices|
    ensures var before := sent + DiffedUpTo(last, h, lo, current, co, limit, splices, k - 1);
            && sent + DiffedUpTo(last, h, lo, current, co, limit, splices, k) == before
               + DiffedOne(last, h, lo, current, co, limit, splices[k - 1])
            && (k == 1 ==> before == sent)
  {
    hide DiffedOne;
    Regroup(sent, sent + DiffedUpTo(last, h, lo, current, co, limit, splices, k - 1),
            DiffedUpTo(last, h, lo, current, co, limit, splices, k - 1),
              DiffedOne(last, h, lo, current, co, limit, splices[k - 1]));
  }

  lemma NextFollows<V>(p: Level<V>, c: Level<V>, sent: seq<Splice>, before: seq<Splice>, last: Level<V>, h: nat,
                       lo: nat,
                       current: Level<V>, co: nat, s: Splice, k: nat, i: nat, j: nat)
    requires Setting(p, c, last, h, lo, current, h, co) && i <= |last| && j <= |current|
             && Upto(p, c, before, Pos(lo, last, i), Pos(co, current, j))
    requires Within(last, current, s) && s.removed + s.added > 0 && i <= s.at && (s.added > 0 ==> j <= s.from)
    requires if k == 1 then before == sent && Before(sent, lo) else i < s.at
    ensures Follows(p, c, before, last, lo, current, co, s, j)
  {
    hide Tree, PartAt, Under, Pos, Orderly, End, Taken;
    PosGrow(p, lo, last, h, i, s.at);
  }

  /** Where the last of the first `k` splices of a level stands. */
  lemma OneMore<V>(last: Level<V>, current: Level<V>, splices: seq<Splice>, k: nat) returns (i: nat, j: nat)
    requires Orderly(|last|, |current|, splices) && 0 < k <= |splices|
    ensures i == End(splices[..k - 1]) <= |last| && j == Taken(splices[..k - 1]) <= |current|
    ensures var s := splices[k - 1];
            && Within(last, current, s) && s.removed + s.added > 0 && i <= s.at && (k > 1 ==> i < s.at)
               && (s.added > 0 ==> j <= s.from)
            && End(splices[..k]) == s.at + s.removed && Taken(splices[..k]) == TakenBy(s, j)
  {
    OrderlyAt(|last|, |current|, splices, k - 1);
    OrderlyBounds(|last|, |current|, splices[..k - 1]);
    assert splices[..k] == splices[..k - 1] + [splices[k - 1]];
    OrderlySnoc(|last|, |current|, splices[..k - 1], splices[k - 1]);
    i, j := End(splices[..k - 1]), Taken(splices[..k - 1]);
  }

  lemma {:induction false} DiffedOrderly<V>(p: Level<V>, c: Level<V>, sent: seq<Splice>, last: Level<V>,
                                            lastHeight: nat, lo: nat,
                                            current: Level<V>, currentHeight: nat, co: nat, limit: nat)
    requires Setting(p, c, last, lastHeight, lo, current, currentHeight, co) && Upto(p, c, sent, lo, co)
             && Before(sent, lo)
    ensures Upto(p, c, sent + Diffed(last, lastHeight, lo, current, currentHeight, co, limit), Pos(lo, last, |last|),
                 Pos(co, current, |current|))
    decreases lastHeight + currentHeight, 2
  {
    hide Tree, PartAt, Orderly, Taken, DiffedUpTo;
    if lastHeight > currentHeight {
      AllBelow(p, lo, last, lastHeight);
      DiffedOrderly(p, c, sent, Composite(last, 0, |last|), lastHeight - 1, lo, current, currentHeight, co, limit);
    } else if currentHeight > lastHeight {
      AllBelow(c, co, current, currentHeight);
      DiffedOrderly(p, c, sent, last, lastHeight, lo, Composite(current, 0, |current|), currentHeight - 1, co, limit);
    } else {
      SmallLevel(p, c, last, lastHeight, lo, current, co);
      SpliceListOrderly(last, current, limit);
      var splices := SpliceList(last, current, limit);
      OrderlyBounds(|last|, |current|, splices);
      assert splices[..|splices|] == splices;
      LevelOrderly(p, c, sent, last, lastHeight, lo, current, co, limit, splices, |splices|, End(splices),
                   Taken(splices));
      PosGrow(p, lo, last, lastHeight, End(splices), |last|);
      PosGrow(c, co, current, currentHeight, Taken(splices), |current|);
    }
  }

  /** The diff of two lists is orderly, whether or not it stays within the limit. */
  lemma ListDiffOrderly<V>(last: List<V>, l: List<V>, limit: nat)
    requires Valid(l) && Valid(last)
    ensures Orderly(|Values(last)|, |Values(l)|, ListDiff(last, l, limit))
  {
    var p, c := Values(last), Values(l);
    Whole(l);
    Whole(last);
    if p == [] || c == [] {
      EmptyOrderly(last, l, limit);
    } else {
      DiffedOrderly(p, c, [], last.root, last.height, 0, l.root, l.height, 0, limit);
      var d := Diffed(last.root, last.height, 0, l.root, l.height, 0, limit);
      assert [] + d == d;
    }
  }

  lemma EmptyOrderly<V>(last: List<V>, l: List<V>, limit: nat)
    requires Valid(l) && Valid(last) && (Values(last) == [] || Values(l) == [])
    ensures Orderly(|Values(last)|, |Values(l)|, ListDiff(last, l, limit))
  {
    LeavesGrow(l.root, l.height, 0, |l.root|);
    LeavesGrow(last.root, last.height, 0, |last.root|);
    if l != last {
      var s := Splice(0, |Values(last)|, |Values(l)|, 0);
      OrderlySnoc(|Values(last)|, |Values(l)|, [], s);
      assert [] + [s] == [s];
    }
  }
}
