/** Diffing two ordered collections from the roots of their trees down, and what such a diff leaves out. */
module TopDownDiff {
  import opened Options
  import opened Chunking
  import opened ProllyTree
  import opened OrderedDiff
  import opened DiffParts
  import S = Splices
  import E = EditDistance
  import I = IndexedDiff

  const LIMIT := E.DEFAULT_MAX_SPLICE_MATRIX_SIZE

  ghost function All<D>(items: Entries<D>): Entries<D> {
    Leaves(items, |items|)
  }

  // ---------- what the diff from the top sends ----------

  /**
   What is sent for two levels, or nothing if a panic ends it: where a splice only adds or only removes chunks that are
   not leaves, the side without any is not a sequence of tuples.
   */
  ghost function TopDown<D>(last: Entries<D>, lastHeight: nat, current: Entries<D>,
                            currentHeight: nat): Option<seq<ValueChanged>>
    decreases lastHeight + currentHeight, 1, 0
  {
    if lastHeight > currentHeight then
      if last == [] then None else TopDown(I.Composite(last, 0, |last|), lastHeight - 1, current, currentHeight)
    else if currentHeight > lastHeight then
      if current == [] then None else TopDown(last, lastHeight, I.Composite(current, 0, |current|), currentHeight - 1)
    else if lastHeight == 0 || (last == [] && current == []) then Some(Changes(last, current))
    else if last == [] || current == [] then None
    else
      var splices := E.SpliceList(last, current, LIMIT);
      TopDownUpTo(last, current, lastHeight, splices, |splices|)
  }

  ghost function TopDownUpTo<D>(last: Entries<D>, current: Entries<D>, height: nat, splices: seq<S.Splice>,
                                k: nat): Option<seq<ValueChanged>>
    requires k <= |splices| && height > 0
    decreases height + height, 0, k
  {
    if k == 0 then Some([])
    else
      var sent, more := TopDownUpTo(last, current, height, splices, k - 1),
        TopDownOne(last, current, height, splices[k - 1]);
      if sent.Some? && more.Some? then Some(sent.value + more.value) else None
  }

  ghost function TopDownOne<D>(last: Entries<D>, current: Entries<D>, height: nat,
                               s: S.Splice): Option<seq<ValueChanged>>
    requires height > 0
    decreases height + height - 1
  {
    if I.Within(last, current, s) then
      TopDown(I.Composite(last, s.at, s.at + s.removed), height - 1, I.Composite(current, s.from, s.from + s.added),
              height - 1)
    else None
  }

  lemma TopDownCases<D>(last: Entries<D>, lastHeight: nat, current: Entries<D>, currentHeight: nat)
    ensures var r := TopDown(last, lastHeight, current, currentHeight);
            if lastHeight > currentHeight then
              r == if last == [] then None else TopDown(I.Composite(last, 0, |last|), lastHeight - 1, current,
                                                        currentHeight)
            else if currentHeight > lastHeight then
              r == if current == [] then None else TopDown(last, lastHeight, I.Composite(current, 0, |current|),
                                                           currentHeight - 1)
            else if lastHeight == 0 || (last == [] && current == []) then r == Some(Changes(last, current))
            else if last == [] || current == [] then r == None
            else
              var splices := E.SpliceList(last, current, LIMIT);
              r == TopDownUpTo(last, current, lastHeight, splices, |splices|)
  {
    hide I.Composite, E.SpliceList, TopDownUpTo, Changes;
  }

  /** No level that is compared is empty on one side only. */
  ghost predicate NoneEmpty<D>(last: Entries<D>, lastHeight: nat, current: Entries<D>, currentHeight: nat)
    decreases lastHeight + currentHeight, 1
  {
    if lastHeight > currentHeight then
      last != [] && NoneEmpty(I.Composite(last, 0, |last|), lastHeight - 1, current, currentHeight)
    else if currentHeight > lastHeight then
      current != [] && NoneEmpty(last, lastHeight, I.Composite(current, 0, |current|), currentHeight - 1)
    else
      || lastHeight == 0 || (last == [] && current == [])
      || (&& last != [] && current != []
          && forall s :: s in E.SpliceList(last, current, LIMIT) ==> NoneEmptyBelow(last, current, lastHeight, s))
  }

  ghost predicate NoneEmptyBelow<D>(last: Entries<D>, current: Entries<D>, height: nat, s: S.Splice)
    requires height > 0
    decreases height + height - 1
  {
    && I.Within(last, current, s)
    && NoneEmpty(I.Composite(last, s.at, s.at + s.removed), height - 1,
                 I.Composite(current, s.from, s.from + s.added), height - 1)
  }

  /** How far the splices of a level get: to its end, or beyond the limit only as if nothing were shared. */
  ghost function Reached<D>(last: Entries<D>, current: Entries<D>): (r: (nat, nat))
    ensures r.0 <= |last| && r.1 <= |current|
  {
    var (prefix, suffix) := E.Shared(last, current);
    if E.Exact(last, current, LIMIT) then (|last|, |current|)
    else (|last| - prefix - suffix, |current| - prefix - suffix)
  }

  /**
   The entries of both sides that are never looked at: under what the splices of a level do not reach, at every level.
   */
  ghost function LeftOut<D>(last: Entries<D>, lastHeight: nat, current: Entries<D>, currentHeight: nat): (Entries<D>,
                                                                                                          Entries<D>)
    decreases lastHeight + currentHeight, 1, 0
  {
    if lastHeight > currentHeight then
      LeftOut(I.Composite(last, 0, |last|), lastHeight - 1, current, currentHeight)
    else if currentHeight > lastHeight then
      LeftOut(last, lastHeight, I.Composite(current, 0, |current|), currentHeight - 1)
    else if lastHeight == 0 then ([], [])
    else
      var splices := E.SpliceList(last, current, LIMIT);
      var (n, m) := Reached(last, current);
      var (o, p) := LeftOutUpTo(last, current, lastHeight, splices, |splices|);
      (o + All(I.Composite(last, n, |last|)), p + All(I.Composite(current, m, |current|)))
  }

  ghost function LeftOutUpTo<D>(last: Entries<D>, current: Entries<D>, height: nat, splices: seq<S.Splice>,
                                k: nat): (Entries<D>, Entries<D>)
    requires k <= |splices| && height > 0
    decreases height + height, 0, k
  {
    if k == 0 then ([], [])
    else
      var (o, p) := LeftOutUpTo(last, current, height, splices, k - 1);
      var (o', p') := LeftOutBelow(last, current, height, splices[k - 1]);
      (o + o', p + p')
  }

  ghost function LeftOutBelow<D>(last: Entries<D>, current: Entries<D>, height: nat, s: S.Splice): (Entries<D>,
                                                                                                    Entries<D>)
    requires height > 0
    decreases height + height - 1
  {
    if I.Within(last, current, s) then
      LeftOut(I.Composite(last, s.at, s.at + s.removed), height - 1,
              I.Composite(current, s.from, s.from + s.added), height - 1)
    else ([], [])
  }

  /** Nothing panics, and what is not looked at is the same on both sides. */
  ghost predicate Sees<D>(last: Entries<D>, lastHeight: nat, current: Entries<D>, currentHeight: nat) {
    && NoneEmpty(last, lastHeight, current, currentHeight)
    && LeftOut(last, lastHeight, current, currentHeight).0 == LeftOut(last, lastHeight, current, currentHeight).1
  }

  /** A level of a sorted tree, not larger than positions can be. */
  ghost predicate SortedLevel<D>(items: Entries<D>, h: nat) {
    HasDepth(items, h) && Sorted(All(items)) && |All(items)| < E.SPLICE_UNASSIGNED
  }

  lemma SortedBelow<D>(items: Entries<D>, h: nat, a: nat, b: nat)
    requires SortedLevel(items, h) && h > 0 && a <= b <= |items|
    ensures SortedLevel(I.Composite(items, a, b), h - 1)
    ensures Leaves(items, b) == Leaves(items, a) + All(I.Composite(items, a, b))
    ensures a == 0 && b == |items| ==> All(I.Composite(items, a, b)) == All(items)
  {
    hide HasDepth, Sorted, Leaves, I.Composite;
    I.CompositeLeaves(items, h, a, b);
    I.LeavesPrefix(items, b, |items|);
    PrefixSorted(Leaves(items, b), All(items));
    SortedParts(Leaves(items, a), All(I.Composite(items, a, b)));
    NoLeaves(items);
  }

  lemma NoLeaves<D>(items: Entries<D>)
    ensures Leaves(items, 0) == []
  {
  }

  lemma PrefixSorted<D>(xs: Entries<D>, all: Entries<D>)
    requires Sorted(all) && xs <= all
    ensures Sorted(xs)
  {
  }

  lemma LevelSize<D>(items: Entries<D>, h: nat)
    requires SortedLevel(items, h)
    ensures |items| < E.SPLICE_UNASSIGNED
  {
    I.LeavesGrow(items, h, 0, |items|);
  }

  lemma {:induction false} LeavesAlong<D>(xs: Entries<D>, i: nat, ys: Entries<D>, j: nat, n: nat)
    returns (t: Entries<D>)
    requires Alike(xs, i, ys, j, n)
    ensures Leaves(xs, i + n) == Leaves(xs, i) + t && Leaves(ys, j + n) == Leaves(ys, j) + t
  {
    hide Leaves, LeavesOf;
    t := [];
    if n > 0 {
      assert xs[i + n - 1] == ys[i + n - 1 - i + j];
      t := LeavesAlong(xs, i, ys, j, n - 1);
      var more := LeavesOf(xs[i + n - 1]);
      I.CompositeNext(xs, 0, i + n);
      I.CompositeNext(ys, 0, j + n);
      Assoc(Leaves(xs, i), t, more);
      Assoc(Leaves(ys, j), t, more);
      t := t + more;
    }
  }

  lemma LeafLevel<D>(items: Entries<D>)
    requires SortedLevel(items, 0)
    ensures All(items) == items && Sorted(items)
  {
    ValuesFlatten(items, |items|);
    assert items[..|items|] == items;
  }

  lemma EmptyLevel<D>(items: Entries<D>)
    ensures items == [] ==> All(items) == items && SortedLevel(items, 0)
  {
  }

  lemma Stood<D>(last: Entries<D>, current: Entries<D>, init: seq<S.Splice>, s: S.Splice, i: nat, j: nat, j': nat)
    requires I.Stands(last, current, init, s, i, j, j')
    ensures i == S.End(init) && j == i + S.Shift(init) && i <= s.at && j' == j + (s.at - i)
            && Alike(last, i, current, j, s.at - i)
    ensures s.at + s.removed <= |last| && j' + s.added <= |current| && s.from == (if s.added > 0 then j' else 0)
  {
  }

  /** What stays between the first `k` splices and the next. */
  lemma Approach<D>(last: Entries<D>, current: Entries<D>, height: nat, splices: seq<S.Splice>, k: nat, i: nat, j: nat)
    returns (j': nat, t: Entries<D>)
    requires HasDepth(last, height) && S.IsDiff(last, current, splices) && k < |splices|
    requires i == S.End(splices[..k]) <= |last| && j == i + S.Shift(splices[..k]) && j <= |current|
    ensures var s := splices[k];
            && i <= s.at && j <= j' && s.at + s.removed <= |last| && j' + s.added <= |current|
               && s.from == (if s.added > 0 then j' else 0)
            && Leaves(last, s.at) == Leaves(last, i) + t && Leaves(current, j') == Leaves(current, j) + t
               && (t == [] ==> i == 0 && j == 0)
            && S.End(splices[..k + 1]) == s.at + s.removed
               && S.Shift(splices[..k + 1]) == j' + s.added - S.End(splices[..k + 1])
  {
    hide *;
    NothingBefore(splices, k);
    var i1, j1;
    i1, j1, j' := I.SpliceAt(last, current, splices, k);
    Stood(last, current, splices[..k], splices[k], i1, j1, j');
    t := LeavesAlong(last, i, current, j, splices[k].at - i);
    BetweenSome(last, height, i, splices[k].at, t);
  }

  lemma LevelDepth<D>(items: Entries<D>, h: nat)
    requires SortedLevel(items, h)
    ensures HasDepth(items, h)
  {
  }

  lemma NothingBefore(splices: seq<S.Splice>, k: nat)
    requires k <= |splices|
    ensures k == 0 ==> S.End(splices[..k]) == 0 && S.Shift(splices[..k]) == 0
  {
  }

  lemma BetweenSome<D>(items: Entries<D>, h: nat, a: nat, b: nat, t: Entries<D>)
    requires HasDepth(items, h) && a <= b <= |items| && Leaves(items, b) == Leaves(items, a) + t
    ensures t == [] ==> a == b
  {
    I.LeavesGrow(items, h, a, b);
  }

  lemma AddedAt<D>(current: Entries<D>, s: S.Splice, j': nat, a: Entries<D>)
    requires j' + s.added <= |current| && s.from == (if s.added > 0 then j' else 0)
             && a == I.Composite(current, s.from, s.from + s.added)
    requires Leaves(current, s.from + s.added) == Leaves(current, s.from) + All(a)
    ensures Leaves(current, j' + s.added) == Leaves(current, j') + All(a)
  {
    if s.added == 0 {
      assert a == [] && All(a) == [];
    }
  }

  lemma LevelPrefix<D>(items: Entries<D>, h: nat, n: nat)
    requires SortedLevel(items, h) && n <= |items|
    ensures Sorted(Leaves(items, n))
  {
    I.LeavesPrefix(items, n, |items|);
    PrefixSorted(Leaves(items, n), All(items));
  }

  // ---------- when it panics ----------

  lemma {:induction false} PanicsExactly<D>(last: Entries<D>, lastHeight: nat, current: Entries<D>, currentHeight: nat)
    ensures TopDown(last, lastHeight, current, currentHeight) == None <==>
            !NoneEmpty(last, lastHeight, current, currentHeight)
    decreases lastHeight + currentHeight, 1, 0
  {
    hide I.Composite, E.SpliceList, TopDownUpTo, NoneEmptyBelow, Changes;
    if lastHeight > currentHeight {
      PanicsExactly(I.Composite(last, 0, |last|), lastHeight - 1, current, currentHeight);
    } else if currentHeight > lastHeight {
      PanicsExactly(last, lastHeight, I.Composite(current, 0, |current|), currentHeight - 1);
    } else if lastHeight > 0 {
      var splices := E.SpliceList(last, current, LIMIT);
      SentExactly(last, current, lastHeight, splices, |splices|);
      forall s ensures s in splices ==> exists k :: 0 <= k < |splices| && splices[k] == s {
      }
    }
  }

  lemma {:induction false} SentExactly<D>(last: Entries<D>, current: Entries<D>, height: nat, splices: seq<S.Splice>,
                                          k: nat)
    requires k <= |splices| && height > 0
    ensures TopDownUpTo(last, current, height, splices, k).Some? <==>
            forall n :: 0 <= n < k ==> NoneEmptyBelow(last, current, height, splices[n])
    decreases height + height, 0, k
  {
    hide TopDown, NoneEmpty, I.Composite;
    if k > 0 {
      SentExactly(last, current, height, splices, k - 1);
      var s := splices[k - 1];
      if I.Within(last, current, s) {
        PanicsExactly(I.Composite(last, s.at, s.at + s.removed), height - 1,
                      I.Composite(current, s.from, s.from + s.added), height - 1);
      }
    }
  }

  // ---------- what it sends ----------

  /** What is sent for two levels is the diff of what is not left out of them. */
  ghost predicate SendsKept<D>(xs: Entries<D>, ys: Entries<D>, sent: Option<seq<ValueChanged>>,
                               out: (Entries<D>, Entries<D>),
                               kept: Entries<D>, kept': Entries<D>) {
    sent == Some(Changes(kept, kept')) && Split(xs, kept, out.0) && Split(ys, kept', out.1)
  }

  lemma {:induction false} Sends<D>(last: Entries<D>, lastHeight: nat, current: Entries<D>, currentHeight: nat)
    returns (kept: Entries<D>, kept': Entries<D>)
    requires SortedLevel(last, lastHeight) && SortedLevel(current, currentHeight)
    requires TopDown(last, lastHeight, current, currentHeight).Some?
    ensures SendsKept(All(last), All(current), TopDown(last, lastHeight, current, currentHeight),
                      LeftOut(last, lastHeight, current, currentHeight), kept, kept')
    decreases lastHeight + currentHeight, 1, 0
  {
    hide *;
    TopDownCases(last, lastHeight, current, currentHeight);
    LeftOutCases(last, lastHeight, current, currentHeight);
    if lastHeight > currentHeight {
      SortedBelow(last, lastHeight, 0, |last|);
      kept, kept' := Sends(I.Composite(last, 0, |last|), lastHeight - 1, current, currentHeight);
    } else if currentHeight > lastHeight {
      SortedBelow(current, currentHeight, 0, |current|);
      kept, kept' := Sends(last, lastHeight, I.Composite(current, 0, |current|), currentHeight - 1);
    } else if lastHeight == 0 || (last == [] && current == []) {
      kept, kept' := last, current;
      SendsAll(last, current, lastHeight);
    } else {
      kept, kept' := LevelSends(last, current, lastHeight);
    }
  }

  lemma LeftOutCases<D>(last: Entries<D>, lastHeight: nat, current: Entries<D>, currentHeight: nat)
    ensures var r := LeftOut(last, lastHeight, current, currentHeight);
            if lastHeight > currentHeight then
              r == LeftOut(I.Composite(last, 0, |last|), lastHeight - 1, current, currentHeight)
            else if currentHeight > lastHeight then
              r == LeftOut(last, lastHeight, I.Composite(current, 0, |current|), currentHeight - 1)
            else if lastHeight == 0 then r == ([], [])
            else
              var splices := E.SpliceList(last, current, LIMIT);
              var (n, m) := Reached(last, current);
              var (o, p) := LeftOutUpTo(last, current, lastHeight, splices, |splices|);
              r == (o + All(I.Composite(last, n, |last|)), p + All(I.Composite(current, m, |current|)))
  {
    hide I.Composite, E.SpliceList, LeftOutUpTo, Reached;
  }

  lemma SendsAll<D>(last: Entries<D>, current: Entries<D>, height: nat)
    requires SortedLevel(last, height) && SortedLevel(current, height) && (height == 0 || (last == [] && current == []))
    ensures SendsKept(All(last), All(current), Some(Changes(last, current)), LeftOut(last, height, current, height),
                      last, current)
  {
    EmptyLevel(last);
    EmptyLevel(current);
    LeafLevel(last);
    LeafLevel(current);
    SplitAll(last);
    SplitAll(current);
    if height > 0 {
      NothingToLeaveOut(last, current, height);
    }
  }

  lemma NothingToLeaveOut<D>(last: Entries<D>, current: Entries<D>, height: nat)
    requires last == [] && current == [] && height > 0
    ensures LeftOut(last, height, current, height) == ([], [])
  {
    assert E.SpliceList(last, current, LIMIT) == [];
    assert I.Composite(last, 0, 0) == [] && All(last) == [] && I.Composite(current, 0, 0) == [] && All(current) == [];
  }

  lemma {:induction false} LevelSends<D>(last: Entries<D>, current: Entries<D>, height: nat)
    returns (kept: Entries<D>, kept': Entries<D>)
    requires SortedLevel(last, height) && SortedLevel(current, height) && height > 0 && last != [] && current != []
    requires TopDown(last, height, current, height).Some?
    ensures SendsKept(All(last), All(current), TopDown(last, height, current, height),
                      LeftOut(last, height, current, height), kept, kept')
    decreases height + height, 0, |E.SpliceList(last, current, LIMIT)| + 1
  {
    hide *;
    TopDownCases(last, height, current, height);
    LeftOutCases(last, height, current, height);
    var splices := E.SpliceList(last, current, LIMIT);
    if E.Exact(last, current, LIMIT) {
      LevelSize(current, height);
      E.ExactlyWhen(last, current, LIMIT);
      ReachesAll(last, current);
      var i, j;
      i, j, kept, kept' := UpToSends(last, current, height, splices, |splices|);
      assert splices[..|splices|] == splices;
      kept, kept' := TailKept(last, current, height, splices, i, j, kept, kept');
    } else {
      OnlySplice(last, current);
      var (n, m) := Reached(last, current);
      var s := S.Splice(0, n, m, 0);
      OneSent(last, current, height, s);
      OneLeftOut(last, current, height, s);
      kept, kept' := HeadsSent(last, current, height, n, m);
      TailsOut(last, current, height, n, m, kept, kept');
    }
  }

  lemma ReachesAll<D>(last: Entries<D>, current: Entries<D>)
    requires E.Exact(last, current, LIMIT)
    ensures var (n, m) := Reached(last, current);
            && n == |last| && m == |current|
            && All(I.Composite(last, n, |last|)) == [] && All(I.Composite(current, m, |current|)) == []
  {
    assert I.Composite(last, |last|, |last|) == [] && I.Composite(current, |current|, |current|) == [];
  }

  /** What comes after all splices stays, and is the same on both sides. */
  lemma TailKept<D>(last: Entries<D>, current: Entries<D>, height: nat, splices: seq<S.Splice>, i: nat, j: nat,
                    kept: Entries<D>, kept': Entries<D>)
    returns (all: Entries<D>, all': Entries<D>)
    requires SortedLevel(last, height) && SortedLevel(current, height) && S.IsDiff(last, current, splices)
    requires i == S.End(splices) <= |last| && j == i + S.Shift(splices) && j <= |current| && height > 0
    requires SendsKept(Leaves(last, i), Leaves(current, j), TopDownUpTo(last, current, height, splices, |splices|),
                       LeftOutUpTo(last, current, height, splices, |splices|), kept, kept')
    ensures var out := LeftOutUpTo(last, current, height, splices, |splices|);
            SendsKept(All(last), All(current), TopDownUpTo(last, current, height, splices, |splices|),
                      (out.0 + [], out.1 + []), all, all')
  {
    hide HasDepth, Sorted, Leaves, Changes, S.IsDiff, S.End, S.Shift, Below, Split, TopDownUpTo, LeftOutUpTo;
    var out := LeftOutUpTo(last, current, height, splices, |splices|);
    var i', j' := I.AfterLast(last, current, splices);
    var t := LeavesAlong(last, i, current, j, |last| - i);
    KeepMore(Leaves(last, i), kept, out.0, t);
    KeepMore(Leaves(current, j), kept', out.1, t);
    all, all' := kept + t, kept' + t;
    KeptTail(Leaves(last, i), kept, out.0, Leaves(current, j), kept', out.1, t);
  }

  lemma KeepMore<D>(xs: Entries<D>, kept: Entries<D>, out: Entries<D>, t: Entries<D>)
    requires Split(xs, kept, out) && Sorted(xs + t)
    ensures Split(xs + t, kept + t, out + []) && out + [] == out
  {
    SortedParts(xs, t);
    SplitAll(t);
    SplitMore(xs, kept, out, t, t, []);
  }

  lemma KeptTail<D>(xs: Entries<D>, kept: Entries<D>, out: Entries<D>, ys: Entries<D>, kept': Entries<D>,
                    out': Entries<D>, t: Entries<D>)
    requires Split(xs + t, kept + t, out) && Split(ys + t, kept' + t, out')
    ensures Changes(kept + t, kept' + t) == Changes(kept, kept')
  {
    SortedParts(kept, t);
    SortedParts(kept', t);
    CommonTail(kept, kept', t);
  }

  /** After the first `k` splices, everything up to them that is not left out has been diffed. */
  lemma {:induction false} UpToSends<D>(last: Entries<D>, current: Entries<D>, height: nat, splices: seq<S.Splice>,
                                        k: nat)
    returns (i: nat, j: nat, kept: Entries<D>, kept': Entries<D>)
    requires SortedLevel(last, height) && SortedLevel(current, height) && height > 0 && k <= |splices|
    requires S.IsDiff(last, current, splices) && TopDownUpTo(last, current, height, splices, k).Some?
    ensures i == S.End(splices[..k]) <= |last| && j == i + S.Shift(splices[..k]) && j <= |current|
    ensures SendsKept(Leaves(last, i), Leaves(current, j), TopDownUpTo(last, current, height, splices, k),
                      LeftOutUpTo(last, current, height, splices, k), kept, kept')
    decreases height + height, 0, k
  {
    hide *;
    if k == 0 {
      i, j, kept, kept' := 0, 0, [], [];
      NothingBefore(splices, 0);
      NoneSent(last, current, height, splices);
    } else {
      var s := splices[k - 1];
      NextSent(last, current, height, splices, k);
      i, j, kept, kept' := UpToSends(last, current, height, splices, k - 1);
      LevelDepth(last, height);
      var j', t := Approach(last, current, height, splices, k - 1, i, j);
      var out, sent := LeftOutUpTo(last, current, height, splices, k - 1),
        TopDownUpTo(last, current, height, splices, k - 1);
      kept, kept' := OneSends(last, current, height, s, i, j, j', t, sent, out, kept, kept');
      i, j := s.at + s.removed, j' + s.added;
    }
  }

  lemma NoneSent<D>(last: Entries<D>, current: Entries<D>, height: nat, splices: seq<S.Splice>)
    requires height > 0
    ensures SendsKept(Leaves(last, 0), Leaves(current, 0), TopDownUpTo(last, current, height, splices, 0),
                      LeftOutUpTo(last, current, height, splices, 0), [], [])
  {
  }

  lemma NextSent<D>(last: Entries<D>, current: Entries<D>, height: nat, splices: seq<S.Splice>, k: nat)
    requires 0 < k <= |splices| && height > 0 && TopDownUpTo(last, current, height, splices, k).Some?
    ensures var sent, more := TopDownUpTo(last, current, height, splices, k - 1),
            TopDownOne(last, current, height, splices[k - 1]);
            sent.Some? && more.Some? && TopDownUpTo(last, current, height, splices, k) == Some(sent.value + more.value)
    ensures var out, more := LeftOutUpTo(last, current, height, splices, k - 1),
            LeftOutBelow(last, current, height, splices[k - 1]);
            LeftOutUpTo(last, current, height, splices, k) == (out.0 + more.0, out.1 + more.1)
  {
    hide TopDownOne, LeftOutBelow;
  }

  /** One splice more. */
  lemma {:induction false} OneSends<D>(last: Entries<D>, current: Entries<D>, height: nat, s: S.Splice, i: nat, j: nat,
                                       j': nat, t: Entries<D>, sent: Option<seq<ValueChanged>>,
                                         out: (Entries<D>, Entries<D>),
                                       kept: Entries<D>, kept': Entries<D>)
    returns (all: Entries<D>, all': Entries<D>)
    requires SortedLevel(last, height) && SortedLevel(current, height) && height > 0
    requires i <= s.at && j <= j' && s.at + s.removed <= |last| && j' + s.added <= |current|
             && s.from == (if s.added > 0 then j' else 0)
    requires Leaves(last, s.at) == Leaves(last, i) + t && Leaves(current, j') == Leaves(current, j) + t
             && (t == [] ==> i == 0 && j == 0)
    requires SendsKept(Leaves(last, i), Leaves(current, j), sent, out, kept, kept')
    requires TopDownOne(last, current, height, s).Some?
    ensures var more := LeftOutBelow(last, current, height, s);
            SendsKept(Leaves(last, s.at + s.removed), Leaves(current, j' + s.added),
                      Some(sent.value + TopDownOne(last, current, height, s).value), (out.0 + more.0, out.1 + more.1),
                        all, all')
    decreases height + height - 1
  {
    hide SortedLevel, Leaves, I.Composite, TopDown, LeftOut, Changes, Sorted, HasDepth, All, Split;
    var r, a := I.Composite(last, s.at, s.at + s.removed), I.Composite(current, s.from, s.from + s.added);
    SortedBelow(last, height, s.at, s.at + s.removed);
    SortedBelow(current, height, s.from, s.from + s.added);
    var more, more' := Sends(r, height - 1, a, height - 1);
    AddedAt(current, s, j', a);
    LevelPrefix(last, height, s.at + s.removed);
    LevelPrefix(current, height, j' + s.added);
    NoLeaves(last);
    NoLeaves(current);
    var o := LeftOutBelow(last, current, height, s);
    all, all' := kept + t + more, kept' + t + more';
    SplitTwice(Leaves(last, i), kept, out.0, t, All(r), more, o.0);
    SplitTwice(Leaves(current, j), kept', out.1, t, All(a), more', o.1);
    if t == [] {
      SplitNone(kept, out.0);
      SplitNone(kept', out.1);
    }
    SeparatedKept(kept, kept', t, more, more', all, all', Leaves(last, s.at + s.removed), Leaves(current, j' + s.added),
                  out.0 + o.0, out.1 + o.1);
  }

  lemma SplitTwice<D>(xs: Entries<D>, kept: Entries<D>, out: Entries<D>, t: Entries<D>, r: Entries<D>, more: Entries<D>,
                      o: Entries<D>)
    requires Split(xs, kept, out) && Split(r, more, o) && Sorted(xs + t + r)
    ensures Split(xs + t + r, kept + t + more, out + o)
  {
    SortedParts(xs + t, r);
    KeepMore(xs, kept, out, t);
    hide Split;
    SplitMore(xs + t, kept + t, out, r, more, o);
  }

  lemma SeparatedKept<D>(kept: Entries<D>, kept': Entries<D>, t: Entries<D>, more: Entries<D>, more': Entries<D>,
                         all: Entries<D>, all': Entries<D>, xs: Entries<D>, ys: Entries<D>, o: Entries<D>,
                           o': Entries<D>)
    requires all == kept + t + more && all' == kept' + t + more' && Split(xs, all, o) && Split(ys, all', o')
    requires t == [] ==> kept == [] && kept' == []
    ensures Changes(all, all') == Changes(kept, kept') + Changes(more, more')
  {
    Separated(kept, kept', t, more, more');
  }

  lemma OnlySplice<D>(last: Entries<D>, current: Entries<D>)
    requires !E.Exact(last, current, LIMIT)
    ensures var (n, m) := Reached(last, current);
            && n > 0 && m > 0 && E.SpliceList(last, current, LIMIT) == [S.Splice(0, n, m, 0)]
            && I.Within(last, current, S.Splice(0, n, m, 0)) && last != [] && current != []
  {
    E.SharedTrims(last, current);
  }

  lemma OneSent<D>(last: Entries<D>, current: Entries<D>, height: nat, s: S.Splice)
    requires height > 0
    ensures TopDownUpTo(last, current, height, [s], 1) == TopDownOne(last, current, height, s)
  {
    hide TopDownOne;
    assert TopDownUpTo(last, current, height, [s], 0) == Some([]);
    var more := TopDownOne(last, current, height, s);
    if more.Some? {
      assert [] + more.value == more.value;
    }
  }

  lemma OneLeftOut<D>(last: Entries<D>, current: Entries<D>, height: nat, s: S.Splice)
    requires height > 0
    ensures LeftOutUpTo(last, current, height, [s], 1) == LeftOutBelow(last, current, height, s)
  {
    hide LeftOutBelow;
    assert LeftOutUpTo(last, current, height, [s], 0) == ([], []);
    var (o, p) := LeftOutBelow(last, current, height, s);
    assert [] + o == o && [] + p == p;
  }

  lemma {:induction false} HeadsSent<D>(last: Entries<D>, current: Entries<D>, height: nat, n: nat, m: nat)
    returns (kept: Entries<D>, kept': Entries<D>)
    requires SortedLevel(last, height) && SortedLevel(current, height) && height > 0 && n <= |last| && m <= |current|
    requires TopDownOne(last, current, height, S.Splice(0, n, m, 0)).Some?
    ensures SendsKept(Leaves(last, n), Leaves(current, m), TopDownOne(last, current, height, S.Splice(0, n, m, 0)),
                      LeftOutBelow(last, current, height, S.Splice(0, n, m, 0)), kept, kept')
    decreases height + height - 1
  {
    hide SortedLevel, All, I.Composite, TopDown, LeftOut, Changes, Leaves, SendsKept;
    SortedBelow(last, height, 0, n);
    SortedBelow(current, height, 0, m);
    NoLeaves(last);
    NoLeaves(current);
    assert Leaves(last, n) == All(I.Composite(last, 0, n)) && Leaves(current, m) == All(I.Composite(current, 0, m));
    kept, kept' := Sends(I.Composite(last, 0, n), height - 1, I.Composite(current, 0, m), height - 1);
  }

  /** What the splices do not reach is left out. */
  lemma TailsOut<D>(last: Entries<D>, current: Entries<D>, height: nat, n: nat, m: nat, kept: Entries<D>,
                    kept': Entries<D>)
    requires SortedLevel(last, height) && SortedLevel(current, height) && height > 0 && n <= |last| && m <= |current|
    requires SendsKept(Leaves(last, n), Leaves(current, m), TopDownOne(last, current, height, S.Splice(0, n, m, 0)),
                       LeftOutBelow(last, current, height, S.Splice(0, n, m, 0)), kept, kept')
    ensures var (o, p) := LeftOutBelow(last, current, height, S.Splice(0, n, m, 0));
            SendsKept(All(last), All(current), TopDownOne(last, current, height, S.Splice(0, n, m, 0)),
                      (o + All(I.Composite(last, n, |last|)), p + All(I.Composite(current, m, |current|))), kept, kept')
  {
    hide SortedLevel, I.Composite, TopDownOne, LeftOutBelow, Changes, Leaves, Split, Sorted;
    var (o, p) := LeftOutBelow(last, current, height, S.Splice(0, n, m, 0));
    SortedBelow(last, height, n, |last|);
    SortedBelow(current, height, m, |current|);
    LevelSorted(last, height);
    LevelSorted(current, height);
    LeaveMore(Leaves(last, n), kept, o, All(I.Composite(last, n, |last|)));
    LeaveMore(Leaves(current, m), kept', p, All(I.Composite(current, m, |current|)));
  }

  lemma LeaveMore<D>(xs: Entries<D>, kept: Entries<D>, out: Entries<D>, t: Entries<D>)
    requires Split(xs, kept, out) && Sorted(xs + t)
    ensures Split(xs + t, kept, out + t)
  {
    SortedParts(xs, t);
    SplitAll(t);
    SplitMore(xs, kept, out, t, [], t);
    assert kept + [] == kept;
  }

  lemma LevelSorted<D>(items: Entries<D>, h: nat)
    requires SortedLevel(items, h)
    ensures All(items) == Leaves(items, |items|) && Sorted(Leaves(items, |items|))
  {
  }

  /**
   For trees of any two heights, the diff from the top is the diff of their entries exactly if no level compared is
   empty on one side only and what is never looked at is the same on both sides.
   */
  lemma {:induction false} TopDownExactly<D>(last: Entries<D>, lastHeight: nat, current: Entries<D>, currentHeight: nat)
    requires SortedLevel(last, lastHeight) && SortedLevel(current, currentHeight)
    ensures TopDown(last, lastHeight, current, currentHeight) == Some(Changes(All(last), All(current))) <==>
            Sees(last, lastHeight, current, currentHeight)
  {
    hide SortedLevel, All, TopDown, LeftOut, NoneEmpty, Changes, Split;
    PanicsExactly(last, lastHeight, current, currentHeight);
    if TopDown(last, lastHeight, current, currentHeight).Some? {
      var kept, kept' := Sends(last, lastHeight, current, currentHeight);
      var out := LeftOut(last, lastHeight, current, currentHeight);
      SplitExactly(All(last), kept, out.0, All(current), kept', out.1);
    }
  }

  /**
   Where a level of leaf chunks is beyond the limit and its sides share a prefix, as many chunks at the end of both
   sides as are shared at their ends are never looked at; what is sent is right exactly if they hold the same entries.
   */
  lemma {:induction false} BeyondLimitExactly<D>(last: Entries<D>, current: Entries<D>)
    requires SortedLevel(last, 1) && SortedLevel(current, 1) && !E.Exact(last, current, LIMIT)
    ensures var (prefix, suffix) := E.Shared(last, current);
            var n, m := |last| - prefix - suffix, |current| - prefix - suffix;
            && 0 <= n && 0 <= m
            && (TopDown(last, 1, current, 1) == Some(Changes(All(last), All(current))) <==>
                All(I.Composite(last, n, |last|)) == All(I.Composite(current, m, |current|)))
  {
    OnlySplice(last, current);
    var (n, m) := Reached(last, current);
    assert (n, m) == (|last| - E.Shared(last, current).0 - E.Shared(last, current).1,
                      |current| - E.Shared(last, current).0 - E.Shared(last, current).1);
    hide *;
    TopDownExactly(last, 1, current, 1);
    LeafChunksSee(last, current, n, m);
  }

  lemma LeafChunksSee<D>(last: Entries<D>, current: Entries<D>, n: nat, m: nat)
    requires !E.Exact(last, current, LIMIT) && Reached(last, current) == (n, m)
    ensures Sees(last, 1, current, 1) <==> All(I.Composite(last, n, |last|)) == All(I.Composite(current, m, |current|))
  {
    hide *;
    var s := S.Splice(0, n, m, 0);
    OnlySplice(last, current);
    OneLeftOut(last, current, 1, s);
    LeftOutCases(last, 1, current, 1);
    LeavesSee(last, current, s);
    PlusNothing(All(I.Composite(last, n, |last|)));
    PlusNothing(All(I.Composite(current, m, |current|)));
    SeesOne(last, current, s);
  }

  lemma PlusNothing<X>(x: seq<X>)
    ensures [] + x == x
  {
  }

  lemma LeavesSee<D>(last: Entries<D>, current: Entries<D>, s: S.Splice)
    requires I.Within(last, current, s)
    ensures LeftOutBelow(last, current, 1, s) == ([], []) && NoneEmptyBelow(last, current, 1, s)
  {
    hide I.Composite;
  }

  lemma SeesOne<D>(last: Entries<D>, current: Entries<D>, s: S.Splice)
    requires E.SpliceList(last, current, LIMIT) == [s] && NoneEmptyBelow(last, current, 1, s) && last != []
             && current != []
    ensures Sees(last, 1, current, 1) <==> LeftOut(last, 1, current, 1).0 == LeftOut(last, 1, current, 1).1
  {
    hide LeftOut, I.Composite, E.SpliceList, NoneEmptyBelow;
  }

  // ---------- within the splice limit ----------

  /** Every level that is compared is within the splice limit, or its two sides share no prefix. */
  ghost predicate AllExact<D>(last: Entries<D>, lastHeight: nat, current: Entries<D>, currentHeight: nat)
    decreases lastHeight + currentHeight, 1
  {
    if lastHeight > currentHeight then AllExact(I.Composite(last, 0, |last|), lastHeight - 1, current, currentHeight)
    else if currentHeight > lastHeight then
      AllExact(last, lastHeight, I.Composite(current, 0, |current|), currentHeight - 1)
    else
      || lastHeight == 0
      || (&& E.Exact(last, current, LIMIT)
          && forall s :: s in E.SpliceList(last, current, LIMIT) ==> ExactBelow(last, current, lastHeight, s))
  }

  ghost predicate ExactBelow<D>(last: Entries<D>, current: Entries<D>, height: nat, s: S.Splice)
    requires height > 0
    decreases height + height - 1
  {
    I.Within(last, current, s) ==>
      AllExact(I.Composite(last, s.at, s.at + s.removed), height - 1,
               I.Composite(current, s.from, s.from + s.added), height - 1)
  }

  /** Then nothing is left out, so only a panic can spoil the diff. */
  lemma {:induction false} NothingLeftOut<D>(last: Entries<D>, lastHeight: nat, current: Entries<D>, currentHeight: nat)
    requires AllExact(last, lastHeight, current, currentHeight)
    ensures LeftOut(last, lastHeight, current, currentHeight) == ([], [])
    ensures Sees(last, lastHeight, current, currentHeight) <==> NoneEmpty(last, lastHeight, current, currentHeight)
    decreases lastHeight + currentHeight, 1, 0
  {
    LeftOutCases(last, lastHeight, current, currentHeight);
    hide LeftOut, NoneEmpty, I.Composite, E.SpliceList, E.Exact, LeftOutUpTo, ExactBelow, Reached, All;
    if lastHeight > currentHeight {
      NothingLeftOut(I.Composite(last, 0, |last|), lastHeight - 1, current, currentHeight);
    } else if currentHeight > lastHeight {
      NothingLeftOut(last, lastHeight, I.Composite(current, 0, |current|), currentHeight - 1);
    } else if lastHeight > 0 {
      var splices := E.SpliceList(last, current, LIMIT);
      ReachesAll(last, current);
      NothingUpTo(last, current, lastHeight, splices, |splices|);
    }
  }

  lemma {:induction false} NothingUpTo<D>(last: Entries<D>, current: Entries<D>, height: nat, splices: seq<S.Splice>,
                                          k: nat)
    requires k <= |splices| && height > 0 && forall s :: s in splices ==> ExactBelow(last, current, height, s)
    ensures LeftOutUpTo(last, current, height, splices, k) == ([], [])
    decreases height + height, 0, k
  {
    hide AllExact, LeftOut, I.Composite;
    if k > 0 {
      NothingUpTo(last, current, height, splices, k - 1);
      var s := splices[k - 1];
      assert s in splices;
      if I.Within(last, current, s) {
        NothingLeftOut(I.Composite(last, s.at, s.at + s.removed), height - 1,
                       I.Composite(current, s.from, s.from + s.added), height - 1);
      }
      var none: (Entries<D>, Entries<D>) := ([], []);
      assert LeftOutBelow(last, current, height, s) == none;
      assert none.0 + none.0 == [] && none.1 + none.1 == [];
    }
  }

  // ---------- the methods ----------

  method OrderedSequenceDiffInternalNodes<D(==)>(last: Entries<D>, current: Entries<D>, lastHeight: nat,
                                                 currentHeight: nat)
    returns (r: Option<seq<ValueChanged>>)
    requires SortedLevel(last, lastHeight) && SortedLevel(current, currentHeight)
    ensures r == TopDown(last, lastHeight, current, currentHeight)
    decreases lastHeight + currentHeight
  {
    hide *;
    TopDownCases(last, lastHeight, current, currentHeight);
    if lastHeight > currentHeight {
      if last == [] {
        return None;
      }
      SortedBelow(last, lastHeight, 0, |last|);
      var lastChild := I.GetCompositeChildSequence(last, 0, |last|);
      r := OrderedSequenceDiffInternalNodes(lastChild, current, lastHeight - 1, currentHeight);
    } else if currentHeight > lastHeight {
      if current == [] {
        return None;
      }
      SortedBelow(current, currentHeight, 0, |current|);
      var currentChild := I.GetCompositeChildSequence(current, 0, |current|);
      r := OrderedSequenceDiffInternalNodes(last, currentChild, lastHeight, currentHeight - 1);
    } else if lastHeight == 0 || (last == [] && current == []) {
      var changes := DiffLeaves(last, current, lastHeight);
      return Some(changes);
    } else if last == [] || current == [] {
      return None;
    } else {
      LevelSize(last, lastHeight);
      LevelSize(current, lastHeight);
      var initialSplices := E.CalcSplices(last, current, LIMIT);
      I.FitEach(last, current, initialSplices);
      AllWithin(last, current, initialSplices);
      r := DiffSplices(last, current, lastHeight, initialSplices);
    }
  }

  lemma AllWithin<D>(last: Entries<D>, current: Entries<D>, splices: seq<S.Splice>)
    requires forall k :: 0 <= k < |splices| ==>
               splices[k].at + splices[k].removed <= |last| && splices[k].from + splices[k].added <= |current|
    ensures forall k :: 0 <= k < |splices| ==> I.Within(last, current, splices[k])
  {
  }

  /** Leaves are diffed from left to right. */
  method DiffLeaves<D(==)>(last: Entries<D>, current: Entries<D>, ghost height: nat)
    returns (changes: seq<ValueChanged>)
    requires SortedLevel(last, height) && SortedLevel(current, height) && (height == 0 || (last == [] && current == []))
    ensures changes == Changes(last, current)
  {
    EmptyLevel(last);
    EmptyLevel(current);
    LeafLevel(last);
    LeafLevel(current);
    changes := OrderedSequenceDiffLeftRight(Collection(last, 0), Collection(current, 0));
    DiffIsExact(last, current);
    DiffUnique(last, current, changes, Changes(last, current));
  }

  method DiffSplices<D(==)>(last: Entries<D>, current: Entries<D>, height: nat, splices: seq<S.Splice>)
    returns (r: Option<seq<ValueChanged>>)
    requires SortedLevel(last, height) && SortedLevel(current, height) && height > 0
    requires forall k :: 0 <= k < |splices| ==> I.Within(last, current, splices[k])
    ensures r == TopDownUpTo(last, current, height, splices, |splices|)
    decreases height + height, 0
  {
    hide SortedLevel, Changes, All, I.Composite, TopDown, HasDepth, Sorted, Leaves;
    r := Some([]);
    for k := 0 to |splices|
      invariant r == TopDownUpTo(last, current, height, splices, k)
    {
      var s := splices[k];
      SortedBelow(last, height, s.at, s.at + s.removed);
      SortedBelow(current, height, s.from, s.from + s.added);
      var lastChild := I.GetCompositeChildSequence(last, s.at, s.removed);
      var currentChild := I.GetCompositeChildSequence(current, s.from, s.added);
      var more := OrderedSequenceDiffInternalNodes(lastChild, currentChild, height - 1, height - 1);
      if r.Some? && more.Some? {
        r := Some(r.value + more.value);
      } else {
        r := None;
      }
    }
  }
}
