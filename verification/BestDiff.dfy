/**
 Racing the diff from the top against the diff from left to right: whatever is ready first is taken, and once the diff
 from the top is ahead the rest is left to it.
 */
module BestDiff {
  import opened Options
  import opened Chunking
  import opened ProllyTree
  import opened OrderedDiff
  import opened DiffParts
  import opened TopDownDiff
  import E = EditDistance
  import I = IndexedDiff
  import S = Splices

  /**
   What is sent from step `t` on, after `lrCount` changes of the diff from left to right have been sent and `tdCount` of
   the diff from the top taken; `lrReady` are the steps at which the former is ready first.
   */
  ghost function Raced(lr: seq<ValueChanged>, td: seq<ValueChanged>, lrReady: set<nat>, t: nat, lrCount: nat,
                       tdCount: nat): seq<ValueChanged>
    requires lrCount <= |lr| && tdCount <= |td|
    decreases |lr| - lrCount + |td| - tdCount
  {
    if t in lrReady then
      if lrCount == |lr| then [] else [lr[lrCount]] + Raced(lr, td, lrReady, t + 1, lrCount + 1, tdCount)
    else if tdCount == |td| then []
    else if tdCount + 1 > lrCount then td[tdCount..]
    else Raced(lr, td, lrReady, t + 1, lrCount, tdCount + 1)
  }

  lemma {:induction false} RacedSame(lr: seq<ValueChanged>, lrReady: set<nat>, t: nat, lrCount: nat, tdCount: nat)
    requires tdCount <= lrCount <= |lr|
    ensures Raced(lr, lr, lrReady, t, lrCount, tdCount) == lr[lrCount..]
    decreases |lr| - lrCount + |lr| - tdCount
  {
    if t in lrReady {
      if lrCount < |lr| {
        RacedSame(lr, lrReady, t + 1, lrCount + 1, tdCount);
        assert lr[lrCount..] == [lr[lrCount]] + lr[lrCount + 1..];
      }
    } else if tdCount < |lr| && tdCount < lrCount {
      RacedSame(lr, lrReady, t + 1, lrCount, tdCount + 1);
    }
  }

  lemma NeverReady(lr: seq<ValueChanged>, td: seq<ValueChanged>)
    ensures Raced(lr, td, {}, 0, 0, 0) == td
  {
  }

  /** Every race ends with the same changes exactly if both diffs are the same. */
  lemma {:induction false} RaceExactly(lr: seq<ValueChanged>, td: seq<ValueChanged>)
    ensures (forall lrReady: set<nat> :: Raced(lr, td, lrReady, 0, 0, 0) == lr) <==> td == lr
  {
    if td == lr {
      forall lrReady: set<nat> ensures Raced(lr, td, lrReady, 0, 0, 0) == lr {
        RacedSame(lr, lrReady, 0, 0, 0);
        assert lr[0..] == lr;
      }
    } else {
      NeverReady(lr, td);
    }
  }

  lemma RacedNext(lr: seq<ValueChanged>, td: seq<ValueChanged>, lrReady: set<nat>, t: nat, lrCount: nat, tdCount: nat)
    requires lrCount <= |lr| && tdCount <= |td|
    ensures var rest := Raced(lr, td, lrReady, t, lrCount, tdCount);
            && (t in lrReady && lrCount == |lr| ==> rest == [])
            && (t in lrReady && lrCount < |lr| ==> rest == [lr[lrCount]]
                                                   + Raced(lr, td, lrReady, t + 1, lrCount + 1, tdCount))
            && (t !in lrReady && tdCount == |td| ==> rest == [])
            && (t !in lrReady && tdCount < |td| && tdCount >= lrCount ==> rest == [td[tdCount]] + td[tdCount + 1..])
            && (t !in lrReady && tdCount < |td| && tdCount < lrCount ==>
                  rest == Raced(lr, td, lrReady, t + 1, lrCount, tdCount + 1))
  {
  }

  method Multiplex(lr: seq<ValueChanged>, td: seq<ValueChanged>, lrReady: set<nat>) returns (changes: seq<ValueChanged>)
    ensures changes == Raced(lr, td, lrReady, 0, 0, 0)
  {
    hide *;
    var t: nat, lrCount: nat, tdCount: nat := 0, 0, 0;
    var multiplexing := true;
    changes := [];
    ghost var all := Raced(lr, td, lrReady, 0, 0, 0);
    while multiplexing
      invariant lrCount <= |lr| && tdCount <= |td|
      invariant all == changes + if multiplexing then Raced(lr, td, lrReady, t, lrCount, tdCount) else td[tdCount..]
      decreases multiplexing, |lr| - lrCount + |td| - tdCount
    {
      RacedNext(lr, td, lrReady, t, lrCount, tdCount);
      if t in lrReady {
        if lrCount == |lr| {
          return;
        }
        Assoc(changes, [lr[lrCount]], Raced(lr, td, lrReady, t + 1, lrCount + 1, tdCount));
        changes, lrCount := changes + [lr[lrCount]], lrCount + 1;
      } else {
        if tdCount == |td| {
          return;
        }
        tdCount := tdCount + 1;
        if tdCount > lrCount {
          Assoc(changes, [td[tdCount - 1]], td[tdCount..]);
          changes := changes + [td[tdCount - 1]];
          multiplexing := false;
        }
      }
      t := t + 1;
    }
    changes := changes + td[tdCount..];
  }

  // ---------- two collections ----------

  /** Not larger than positions can be. */
  ghost predicate Countable<D>(c: Collection<D>) {
    |EntriesOf(c)| < E.SPLICE_UNASSIGNED
  }

  ghost function LeftRightOf<D>(last: Collection<D>, current: Collection<D>): seq<ValueChanged> {
    Changes(EntriesOf(last), EntriesOf(current))
  }

  ghost function TopDownOf<D>(last: Collection<D>, current: Collection<D>): Option<seq<ValueChanged>> {
    TopDown(last.root, last.height, current.root, current.height)
  }

  ghost function BestOf<D>(last: Collection<D>, current: Collection<D>, lrReady: set<nat>): Option<seq<ValueChanged>> {
    var td := TopDownOf(last, current);
    if td.None? then None else Some(Raced(LeftRightOf(last, current), td.value, lrReady, 0, 0, 0))
  }

  /** Everything that is not left out on both sides alike is looked at, and nothing panics. */
  ghost predicate SeesAll<D>(last: Collection<D>, current: Collection<D>) {
    Sees(last.root, last.height, current.root, current.height)
  }

  lemma SeesExactly<D>(last: Collection<D>, current: Collection<D>)
    requires Ordered(last) && Ordered(current) && Countable(last) && Countable(current)
    ensures TopDownOf(last, current) == Some(LeftRightOf(last, current)) <==> SeesAll(last, current)
  {
    assert SortedLevel(last.root, last.height) && SortedLevel(current.root, current.height);
    hide TopDown, Sees, SortedLevel;
    TopDownExactly(last.root, last.height, current.root, current.height);
  }

  /** The race is right whatever is ready first exactly if the diff from the top sees everything. */
  lemma {:induction false} BestExactly<D>(last: Collection<D>, current: Collection<D>)
    requires Ordered(last) && Ordered(current) && Countable(last) && Countable(current)
    ensures (forall lrReady: set<nat> :: BestOf(last, current, lrReady) == Some(LeftRightOf(last, current))) <==>
            SeesAll(last, current)
  {
    SeesExactly(last, current);
    hide TopDownOf, LeftRightOf, SeesAll, Ordered;
    var lr, td := LeftRightOf(last, current), TopDownOf(last, current);
    if td == Some(lr) {
      forall lrReady: set<nat> ensures BestOf(last, current, lrReady) == Some(lr) {
        RacedSame(lr, lrReady, 0, 0, 0);
        assert lr[0..] == lr;
      }
    } else if td.Some? {
      NeverReady(lr, td.value);
      assert BestOf(last, current, {}) == td;
    } else {
      assert BestOf(last, current, {}).None?;
    }
  }

  /** The diff from the top: exactly the changed keys if and only if it sees everything. */
  method OrderedSequenceDiffTopDown<D(==)>(last: Collection<D>, current: Collection<D>)
    returns (r: Option<seq<ValueChanged>>)
    requires Ordered(last) && Ordered(current) && Countable(last) && Countable(current)
    ensures r == TopDownOf(last, current)
    ensures r.Some? && IsDiff(EntriesOf(last), EntriesOf(current), r.value) <==> SeesAll(last, current)
    ensures r == None <==> !NoneEmpty(last.root, last.height, current.root, current.height)
  {
    assert SortedLevel(last.root, last.height) && SortedLevel(current.root, current.height);
    hide TopDown, SeesAll, SortedLevel, EntriesOf, IsDiff, LeftRightOf, NoneEmpty, Ordered;
    r := OrderedSequenceDiffInternalNodes(last.root, current.root, last.height, current.height);
    SeesExactly(last, current);
    PanicsExactly(last.root, last.height, current.root, current.height);
    LeftRightIsDiff(last, current);
    if r.Some? && IsDiff(EntriesOf(last), EntriesOf(current), r.value) {
      DiffUnique(EntriesOf(last), EntriesOf(current), r.value, LeftRightOf(last, current));
    }
  }

  lemma LeftRightIsDiff<D>(last: Collection<D>, current: Collection<D>)
    requires Ordered(last) && Ordered(current)
    ensures IsDiff(EntriesOf(last), EntriesOf(current), LeftRightOf(last, current))
  {
    DiffIsExact(EntriesOf(last), EntriesOf(current));
  }

  /**
   The diff of two collections by whichever of the two is ahead: exactly the changed keys, whatever is ready when, if
   the diff from the top sees everything.
   */
  method OrderedSequenceDiffBest<D(==)>(last: Collection<D>, current: Collection<D>, lrReady: set<nat>)
    returns (r: Option<seq<ValueChanged>>)
    requires Ordered(last) && Ordered(current) && Countable(last) && Countable(current)
    ensures r == BestOf(last, current, lrReady)
    ensures SeesAll(last, current) ==> r.Some? && IsDiff(EntriesOf(last), EntriesOf(current), r.value)
    ensures r == None <==> !NoneEmpty(last.root, last.height, current.root, current.height)
  {
    hide IsDiff, Ordered, SeesAll, EntriesOf, TopDownOf, LeftRightOf, Raced, NoneEmpty;
    var lr := OrderedSequenceDiffLeftRight(last, current);
    LeftRightIsDiff(last, current);
    DiffUnique(EntriesOf(last), EntriesOf(current), lr, LeftRightOf(last, current));
    var td := OrderedSequenceDiffTopDown(last, current);
    if td.None? {
      return None;
    }
    var changes := Multiplex(lr, td.value, lrReady);
    if SeesAll(last, current) {
      DiffUnique(EntriesOf(last), EntriesOf(current), lr, td.value);
      RaceExactly(lr, td.value);
    }
    return Some(changes);
  }

  // ---------- where it is not right ----------

  /**
   A splice that only adds or only removes chunks ends the diff from the top in a panic, unless they are leaf chunks.
   */
  lemma {:induction false} OneSidedPanics<D>(last: Entries<D>, current: Entries<D>, height: nat, k: nat)
    requires HasDepth(last, height) && HasDepth(current, height) && height > 1 && last != [] && current != []
    requires k < |E.SpliceList(last, current, LIMIT)|
    requires var s := E.SpliceList(last, current, LIMIT)[k];
             I.Within(last, current, s) && s.removed + s.added > 0 && (s.removed == 0 || s.added == 0)
    ensures TopDown(last, height, current, height) == None
  {
    hide E.SpliceList;
    var splices := E.SpliceList(last, current, LIMIT);
    var s := splices[k];
    TopDownCases(last, height, current, height);
    hide TopDown, HasDepth, I.Composite;
    OneBelow(last, height, s.at, s.at + s.removed);
    OneBelow(current, height, s.from, s.from + s.added);
    TopDownCases(I.Composite(last, s.at, s.at + s.removed), height - 1,
                 I.Composite(current, s.from, s.from + s.added), height - 1);
    NothingSent(last, current, height, splices, k, |splices|);
  }

  lemma OneBelow<D>(items: Entries<D>, h: nat, a: nat, b: nat)
    requires HasDepth(items, h) && h > 0 && a <= b <= |items|
    ensures I.Composite(items, a, b) == [] <==> a == b
  {
    if a < b {
      assert I.Composite(items, a, b) == I.Composite(items, a, b - 1) + ItemsOf(items[b - 1]);
    }
  }

  lemma {:induction false} NothingSent<D>(last: Entries<D>, current: Entries<D>, height: nat, splices: seq<S.Splice>,
                                          k: nat, n: nat)
    requires k < n <= |splices| && height > 0 && TopDownOne(last, current, height, splices[k]) == None
    ensures TopDownUpTo(last, current, height, splices, n) == None
  {
    hide TopDownOne;
    if k < n - 1 {
      NothingSent(last, current, height, splices, k, n - 1);
    }
  }

  /** So does adding whole subtrees behind the others. */
  lemma {:induction false} AppendPanics<D>(last: Entries<D>, more: Entries<D>, height: nat)
    requires HasDepth(last + more, height) && height > 1 && last != [] && more != []
    ensures TopDown(last, height, last + more, height) == None
  {
    var current := last + more;
    SharedAll(last, more, 0);
    assert E.Shared(last, current) == (|last|, 0);
    assert E.SpliceList(last, current, LIMIT) == [S.Splice(|last|, 0, |more|, |last|)];
    assert HasDepth(last, height) by {
      assert forall i :: 0 <= i < |last| ==> last[i] == current[i];
    }
    hide E.SpliceList, E.Shared, TopDown, HasDepth;
    OneSidedPanics(last, current, height, 0);
  }

  lemma {:induction false} SharedAll<T>(last: seq<T>, more: seq<T>, n: nat)
    requires n <= |last|
    ensures E.PrefixLength(last, last + more, n) == |last|
    decreases |last| - n
  {
    if n < |last| {
      SharedAll(last, more, n + 1);
    }
  }

  /** Every entry in a chunk of its own. */
  function Singles<D>(xs: Entries<D>): Entries<D> {
    seq(|xs|, i requires 0 <= i < |xs| => Item(Chunk([xs[i]], 1), []))
  }

  lemma {:induction false} SinglesHold<D>(xs: Entries<D>, k: nat)
    requires HasDepth(xs, 0) && k <= |xs|
    ensures Leaves(Singles(xs), k) == xs[..k]
  {
    if k > 0 {
      SinglesHold(xs, k - 1);
      assert Leaves(Singles(xs)[k - 1].value.items, 1) == Leaves([xs[k - 1]], 0) + [xs[k - 1]];
      assert xs[..k] == xs[..k - 1] + [xs[k - 1]];
    }
  }

  /** The keys from zero to five thousand, the first with no value and the others with this one. */
  function Entries5001(v: int): Entries<int> {
    seq(5001, i requires 0 <= i < 5001 => Item(ProllyTree.Value(Entry(i, if i == 0 then 0 else v)), []))
  }

  lemma SortedSingles(v: int)
    ensures var c := Collection(Singles(Entries5001(v)), 1);
            Ordered(c) && Countable(c) && EntriesOf(c) == Entries5001(v)
  {
    var xs := Entries5001(v);
    SinglesHold(xs, |xs|);
    assert xs[..|xs|] == xs;
  }

  /** The change of the last of five thousand and one keys is missed, if all but the first changed. */
  lemma MissedExample()
    ensures var last, current := Collection(Singles(Entries5001(1)), 1), Collection(Singles(Entries5001(2)), 1);
            && Ordered(last) && Ordered(current) && Countable(last) && Countable(current)
            && TopDownOf(last, current) != Some(LeftRightOf(last, current))
  {
    var last, current := Singles(Entries5001(1)), Singles(Entries5001(2));
    SortedSingles(1);
    SortedSingles(2);
    SharedFirst(last, current);
    LastDiffers();
    assert SortedLevel(last, 1) && SortedLevel(current, 1);
    hide TopDown, SortedLevel, I.Composite, Changes, HasDepth, Ordered, Singles, Entries5001;
    BeyondLimitExactly(last, current);
  }

  lemma SharedFirst<D>(last: Entries<D>, current: Entries<D>)
    requires |last| == |current| == 5001 && last[0] == current[0] && last[1] != current[1]
             && last[5000] != current[5000]
    ensures E.Shared(last, current) == (1, 0) && !E.Exact(last, current, LIMIT)
  {
    assert E.PrefixLength(last, current, 0) == E.PrefixLength(last, current, 1) == 1
           && E.SuffixLength(last, current, 1, 0) == 0;
    assert E.TooLarge(5000, 5000, LIMIT);
  }

  lemma LastDiffers()
    ensures var last, current := Singles(Entries5001(1)), Singles(Entries5001(2));
            All(I.Composite(last, 5000, 5001)) != All(I.Composite(current, 5000, 5001))
  {
    LastEntry(1);
    LastEntry(2);
  }

  lemma LastEntry(v: int)
    ensures All(I.Composite(Singles(Entries5001(v)), 5000, 5001)) == [Item(ProllyTree.Value(Entry(5000, v)), [])]
  {
    var last, x := Singles(Entries5001(v)), Entries5001(v)[5000];
    assert I.Composite(last, 5000, 5001) == I.Composite(last, 5000, 5000) + ItemsOf(last[5000]) == [x];
    ValuesFlatten([x], 1);
  }
}
