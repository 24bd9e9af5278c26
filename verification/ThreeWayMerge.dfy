/** The merge itself: change by change, in one pass over what both sides changed. */
module ThreeWayMerge {
  import opened Options
  import opened OrderedDiff
  import opened MergeSpec
  import opened TopDownDiff
  import opened BestDiff
  import D = IndexedDiff
  import L = ListMerge

  // ---------- changes ----------

  /** Exactly the changes from the parent to one side, in key order, as a diff delivers them. */
  ghost predicate AreChanges(z: map<nat, Value>, x: map<nat, Value>, changes: seq<ValueChanged>) {
    && Increasing(changes)
    && (forall i ::
          0 <= i < |changes| ==> Fate(Lookup(z, changes[i].key), Lookup(x, changes[i].key))
                                 == Some(changes[i].changeType))
    && (forall k :: Lookup(z, k) != Lookup(x, k) ==> KeyAmong(changes, |changes|, k))
  }

  ghost predicate KeyAmong(changes: seq<ValueChanged>, n: nat, k: nat) {
    exists i :: 0 <= i < n && i < |changes| && changes[i].key == k
  }

  /** The diff of the trees of two maps is what changed between the maps. */
  lemma TreeChanges(st: Storage, z: map<nat, Value>, x: map<nat, Value>, xs: Entries<Value>, ys: Entries<Value>,
                    changes: seq<ValueChanged>)
    requires Represents(st, z, xs) && Represents(st, x, ys) && OrderedDiff.IsDiff(xs, ys, changes)
    ensures AreChanges(z, x, changes)
  {
    forall k ensures Fate(Find(xs, 0, k), Find(ys, 0, k)) == Fate(Lookup(z, k), Lookup(x, k)) {
    }
    hide Find, Represents;
    forall i | 0 <= i < |changes|
      ensures Fate(Lookup(z, changes[i].key), Lookup(x, changes[i].key)) == Some(changes[i].changeType) {
      assert ValueChanged(changes[i].changeType, changes[i].key) in changes;
    }
    forall k | Lookup(z, k) != Lookup(x, k) ensures KeyAmong(changes, |changes|, k) {
      var t := Fate(Lookup(z, k), Lookup(x, k)).value;
      assert ValueChanged(t, k) in changes;
    }
  }

  /** The two ways to diff ordered collections: from left to right, or racing that against the diff from the top. */
  datatype Strategy = LeftRight | Best

  /** Diffing two maps this way finds everything. */
  ghost predicate Finds(st: Storage, how: Strategy, z: map<nat, Value>, x: map<nat, Value>) {
    how.Best? && x != z ==>
      Countable(st.mapTree(z)) && Countable(st.mapTree(x)) && SeesAll(st.mapTree(z), st.mapTree(x))
  }

  /** Diffs the trees of two maps, in a race with anything ready at any time. */
  method DiffMaps(st: Storage, how: Strategy, z: map<nat, Value>, x: map<nat, Value>)
    returns (changes: seq<ValueChanged>)
    requires Works(st) && Finds(st, how, z, x)
    ensures AreChanges(z, x, changes)
  {
    hide SeesAll, Countable;
    if x == z {
      return [];
    }
    match how {
      case LeftRight =>
        changes := OrderedSequenceDiffLeftRight(st.mapTree(z), st.mapTree(x));
      case Best =>
        var lrReady: set<nat> := *;
        var r := OrderedSequenceDiffBest(st.mapTree(z), st.mapTree(x), lrReady);
        changes := r.value;
    }
    TreeChanges(st, z, x, EntriesOf(st.mapTree(z)), EntriesOf(st.mapTree(x)), changes);
  }

  ghost predicate Ascending(keys: seq<nat>) {
    forall i, j :: 0 <= i < j < |keys| ==> keys[i] < keys[j]
  }

  /** The keys of a map in order. */
  method SortedKeys(m: map<nat, Value>) returns (sorted: seq<nat>)
    ensures KeysOf(m, sorted)
  {
    sorted := [];
    var rest := m.Keys;
    while rest != {}
      invariant Ascending(sorted) && forall k :: k in m <==> k in sorted || k in rest
      invariant forall k :: k in sorted ==> k !in rest
      decreases |rest|
    {
      var k :| k in rest;
      sorted := InsertKey(sorted, k);
      rest := rest - {k};
    }
  }

  method InsertKey(sorted: seq<nat>, k: nat) returns (sorted': seq<nat>)
    requires Ascending(sorted) && k !in sorted
    ensures Ascending(sorted') && forall x :: x in sorted' <==> x in sorted || x == k
  {
    var n: nat := |sorted|;
    while n > 0 && sorted[n - 1] > k
      invariant n <= |sorted| && forall i :: n <= i < |sorted| ==> sorted[i] > k
    {
      n := n - 1;
    }
    assert n > 0 ==> sorted[n - 1] in sorted;
    sorted' := sorted[..n] + [k] + sorted[n..];
    assert sorted == sorted[..n] + sorted[n..];
    InsertedKey(sorted, k, n, sorted');
  }

  lemma InsertedKey(sorted: seq<nat>, k: nat, n: nat, sorted': seq<nat>)
    requires Ascending(sorted) && n <= |sorted| && (forall i :: n <= i < |sorted| ==> sorted[i] > k)
             && (n > 0 ==> sorted[n - 1] < k)
    requires sorted' == sorted[..n] + [k] + sorted[n..]
    ensures Ascending(sorted')
  {
    forall i, j | 0 <= i < j < |sorted'| ensures sorted'[i] < sorted'[j] {
      var i', j' := if i < n then i else i - 1, if j < n then j else j - 1;
      assert i != n ==> sorted'[i] == sorted[i'];
      assert j != n ==> sorted'[j] == sorted[j'];
      assert i < n - 1 ==> sorted[i] < sorted[n - 1];
    }
  }

  /** The keys before `i` and `j` have been compared, and come before those that have not. */
  ghost predicate Compared(z: map<nat, Value>, x: map<nat, Value>, fs1: seq<nat>, fs2: seq<nat>, i: nat, j: nat,
                           changes: seq<ValueChanged>) {
    && i <= |fs1| && j <= |fs2| && Increasing(changes)
    && (forall n ::
          0 <= n < |changes| ==> Fate(Lookup(z, changes[n].key), Lookup(x, changes[n].key))
                                 == Some(changes[n].changeType))
    && (forall n :: 0 <= n < |changes| ==> (i < |fs1| ==> changes[n].key < fs1[i])
                                           && (j < |fs2| ==> changes[n].key < fs2[j]))
    && (forall n :: 0 <= n < i ==> Settled(z, x, changes, fs1[n]) && (j < |fs2| ==> fs1[n] < fs2[j]))
    && (forall n :: 0 <= n < j ==> Settled(z, x, changes, fs2[n]) && (i < |fs1| ==> fs2[n] < fs1[i]))
  }

  ghost predicate Settled(z: map<nat, Value>, x: map<nat, Value>, changes: seq<ValueChanged>, k: nat) {
    Lookup(z, k) != Lookup(x, k) ==> KeyAmong(changes, |changes|, k)
  }

  lemma SettledMore(z: map<nat, Value>, x: map<nat, Value>, changes: seq<ValueChanged>, c: ValueChanged, k: nat)
    requires Settled(z, x, changes, k) || k == c.key
    ensures Settled(z, x, changes + [c], k)
  {
    var more := changes + [c];
    if k == c.key {
      assert more[|changes|].key == k;
    } else if Lookup(z, k) != Lookup(x, k) {
      var i :| 0 <= i < |changes| && changes[i].key == k;
      assert more[i].key == k;
    }
  }

  lemma ChangesMore(changes: seq<ValueChanged>, c: ValueChanged)
    requires Increasing(changes) && forall n :: 0 <= n < |changes| ==> changes[n].key < c.key
    ensures Increasing(changes + [c])
  {
  }

  /**
   One change more, which comes after all others: the keys before `i` and `j` stay settled, and its own key becomes so.
   */
  lemma ChangeMore(z: map<nat, Value>, x: map<nat, Value>, fs1: seq<nat>, fs2: seq<nat>, i: nat, j: nat,
                   changes: seq<ValueChanged>, c: ValueChanged)
    requires Compared(z, x, fs1, fs2, i, j, changes) && Fate(Lookup(z, c.key), Lookup(x, c.key)) == Some(c.changeType)
    requires forall n :: 0 <= n < |changes| ==> changes[n].key < c.key
    ensures Increasing(changes + [c])
    ensures forall n :: 0 <= n < |changes| + 1 ==>
                var d := (changes + [c])[n]; Fate(Lookup(z, d.key), Lookup(x, d.key)) == Some(d.changeType)
    ensures forall n :: 0 <= n < i ==> Settled(z, x, changes + [c], fs1[n])
    ensures forall n :: 0 <= n < j ==> Settled(z, x, changes + [c], fs2[n])
    ensures Settled(z, x, changes + [c], c.key)
  {
    ChangesMore(changes, c);
    forall n | 0 <= n < i ensures Settled(z, x, changes + [c], fs1[n]) {
      SettledMore(z, x, changes, c, fs1[n]);
    }
    forall n | 0 <= n < j ensures Settled(z, x, changes + [c], fs2[n]) {
      SettledMore(z, x, changes, c, fs2[n]);
    }
    SettledMore(z, x, changes, c, c.key);
    hide Settled, Increasing, Fate, Lookup;
  }

  /** A key that only the new map has. */
  lemma CompareFirst(z: map<nat, Value>, x: map<nat, Value>, fs1: seq<nat>, fs2: seq<nat>, i: nat, j: nat,
                     changes: seq<ValueChanged>)
    requires KeysOf(x, fs1) && KeysOf(z, fs2) && Compared(z, x, fs1, fs2, i, j, changes) && i < |fs1|
             && (j < |fs2| ==> fs1[i] < fs2[j])
    ensures Compared(z, x, fs1, fs2, i + 1, j, changes + [ValueChanged(Added, fs1[i])])
  {
    NotThere(z, fs2, j, fs1[i]);
    HasKey(x, fs1, i);
    ChangeMore(z, x, fs1, fs2, i, j, changes, ValueChanged(Added, fs1[i]));
    hide Settled, Increasing, Fate, Lookup;
  }

  /** A key that only the old map has. */
  lemma CompareSecond(z: map<nat, Value>, x: map<nat, Value>, fs1: seq<nat>, fs2: seq<nat>, i: nat, j: nat,
                      changes: seq<ValueChanged>)
    requires KeysOf(x, fs1) && KeysOf(z, fs2) && Compared(z, x, fs1, fs2, i, j, changes) && j < |fs2|
             && (i < |fs1| ==> fs2[j] < fs1[i])
    ensures Compared(z, x, fs1, fs2, i, j + 1, changes + [ValueChanged(Removed, fs2[j])])
  {
    NotThere(x, fs1, i, fs2[j]);
    HasKey(z, fs2, j);
    ChangeMore(z, x, fs1, fs2, i, j, changes, ValueChanged(Removed, fs2[j]));
    hide Settled, Increasing, Fate, Lookup;
  }

  /** A key that both have, with different values. */
  lemma CompareDifferent(z: map<nat, Value>, x: map<nat, Value>, fs1: seq<nat>, fs2: seq<nat>, i: nat, j: nat,
                         changes: seq<ValueChanged>)
    requires KeysOf(x, fs1) && KeysOf(z, fs2) && Compared(z, x, fs1, fs2, i, j, changes) && i < |fs1| && j < |fs2|
             && fs1[i] == fs2[j]
    requires fs1[i] in x && fs1[i] in z && x[fs1[i]] != z[fs1[i]]
    ensures Compared(z, x, fs1, fs2, i + 1, j + 1, changes + [ValueChanged(Modified, fs1[i])])
  {
    ChangeMore(z, x, fs1, fs2, i, j, changes, ValueChanged(Modified, fs1[i]));
    hide Settled, Increasing, Fate, Lookup;
  }

  /** A key that both have, with the same value. */
  lemma CompareSame(z: map<nat, Value>, x: map<nat, Value>, fs1: seq<nat>, fs2: seq<nat>, i: nat, j: nat,
                    changes: seq<ValueChanged>)
    requires KeysOf(x, fs1) && KeysOf(z, fs2) && Compared(z, x, fs1, fs2, i, j, changes) && i < |fs1| && j < |fs2|
             && fs1[i] == fs2[j]
    requires fs1[i] in x && fs1[i] in z && x[fs1[i]] == z[fs1[i]]
    ensures Compared(z, x, fs1, fs2, i + 1, j + 1, changes)
  {
    assert Settled(z, x, changes, fs1[i]);
    hide Settled, Increasing, Fate;
  }

  ghost predicate KeysOf(m: map<nat, Value>, keys: seq<nat>) {
    Ascending(keys) && forall k :: k in keys <==> k in m
  }

  lemma NoChanges(z: map<nat, Value>)
    ensures AreChanges(z, z, [])
  {
  }

  lemma HasKey(m: map<nat, Value>, keys: seq<nat>, n: nat)
    requires KeysOf(m, keys) && n < |keys|
    ensures keys[n] in m
  {
  }

  lemma NoneCompared(z: map<nat, Value>, x: map<nat, Value>, fs1: seq<nat>, fs2: seq<nat>)
    ensures Compared(z, x, fs1, fs2, 0, 0, [])
  {
  }

  /** A key between two keys of a map is not there. */
  lemma NotThere(m: map<nat, Value>, keys: seq<nat>, j: nat, k: nat)
    requires KeysOf(m, keys) && j <= |keys| && (j < |keys| ==> k < keys[j]) && forall n :: 0 <= n < j ==> keys[n] < k
    ensures k !in m
  {
    forall n | 0 <= n < |keys| ensures keys[n] != k {
      assert n > j ==> keys[j] < keys[n];
    }
  }

  lemma AllCompared(z: map<nat, Value>, x: map<nat, Value>, fs1: seq<nat>, fs2: seq<nat>, changes: seq<ValueChanged>)
    requires KeysOf(x, fs1) && KeysOf(z, fs2) && Compared(z, x, fs1, fs2, |fs1|, |fs2|, changes)
    ensures AreChanges(z, x, changes)
  {
    forall k | Lookup(z, k) != Lookup(x, k) ensures KeyAmong(changes, |changes|, k) {
      assert k in fs1 || k in fs2;
      assert Settled(z, x, changes, k);
    }
  }

  /** Diffs the fields of two structs, walking through both in the order of their names. */
  method DiffStructs(z: map<nat, Value>, x: map<nat, Value>) returns (changes: seq<ValueChanged>)
    ensures AreChanges(z, x, changes)
  {
    hide *;
    if x == z {
      NoChanges(z);
      return [];
    }
    var fs1 := SortedKeys(x);
    var fs2 := SortedKeys(z);
    changes := [];
    var i: nat, j: nat := 0, 0;
    NoneCompared(z, x, fs1, fs2);
    while i < |fs1| && j < |fs2|
      invariant i <= |fs1| && j <= |fs2| && Compared(z, x, fs1, fs2, i, j, changes)
      decreases |fs1| - i + |fs2| - j
    {
      if fs1[i] == fs2[j] {
        HasKey(x, fs1, i);
        HasKey(z, fs2, j);
        if x[fs1[i]] != z[fs2[j]] {
          CompareDifferent(z, x, fs1, fs2, i, j, changes);
          changes := changes + [ValueChanged(Modified, fs1[i])];
        } else {
          CompareSame(z, x, fs1, fs2, i, j, changes);
        }
        i, j := i + 1, j + 1;
      } else if fs1[i] < fs2[j] {
        CompareFirst(z, x, fs1, fs2, i, j, changes);
        changes, i := changes + [ValueChanged(Added, fs1[i])], i + 1;
      } else {
        CompareSecond(z, x, fs1, fs2, i, j, changes);
        changes, j := changes + [ValueChanged(Removed, fs2[j])], j + 1;
      }
    }
    while i < |fs1|
      invariant i <= |fs1| && j <= |fs2| && (i < |fs1| ==> j == |fs2|) && Compared(z, x, fs1, fs2, i, j, changes)
    {
      CompareFirst(z, x, fs1, fs2, i, j, changes);
      changes, i := changes + [ValueChanged(Added, fs1[i])], i + 1;
    }
    while j < |fs2|
      invariant j <= |fs2| && Compared(z, x, fs1, fs2, i, j, changes)
    {
      CompareSecond(z, x, fs1, fs2, i, j, changes);
      changes, j := changes + [ValueChanged(Removed, fs2[j])], j + 1;
    }
    AllCompared(z, x, fs1, fs2, changes);
  }

  // ---------- the loop ----------

  /** The changes dealt with come before those that are not, on both sides. */
  ghost predicate Interleaved(aC: seq<ValueChanged>, bC: seq<ValueChanged>, i: nat, j: nat) {
    && i <= |aC| && j <= |bC|
    && (j < |bC| ==> forall m :: 0 <= m < i ==> aC[m].key < bC[j].key)
    && (i < |aC| ==> forall m :: 0 <= m < j ==> bC[m].key < aC[i].key)
  }

  ghost predicate Dealt(aC: seq<ValueChanged>, bC: seq<ValueChanged>, i: nat, j: nat, k: nat) {
    KeyAmong(aC, i, k) || KeyAmong(bC, j, k)
  }

  /** The keys dealt with are as their merge says, and the others as in the parent. */
  ghost predicate Applied(st: Storage, resolve: Resolver, a: Value, b: Value, z: map<nat, Value>, aC: seq<ValueChanged>,
                          bC: seq<ValueChanged>, i: nat, j: nat, merged: map<nat, Value>)
  {
    forall k :: KeyDone(st, resolve, a, b, z, merged, k, Dealt(aC, bC, i, j, k))
  }

  ghost predicate KeyDone(st: Storage, resolve: Resolver, a: Value, b: Value, z: map<nat, Value>, merged: map<nat,
                          Value>, k: nat, dealt: bool)
  {
    if dealt then MergeKey(st, resolve, a, b, z, k) == Merged(Lookup(merged, k)) else Lookup(merged, k) == Lookup(z, k)
  }

  function Apply(m: map<nat, Value>, k: nat, v: Option<Value>): map<nat, Value> {
    if v.Some? then m[k := v.value] else m - {k}
  }

  lemma ApplyLookup(m: map<nat, Value>, k: nat, v: Option<Value>, k': nat)
    ensures Lookup(Apply(m, k, v), k') == if k' == k then v else Lookup(m, k')
  {
  }

  lemma AmongNext(changes: seq<ValueChanged>, n: nat, k: nat)
    requires n < |changes|
    ensures KeyAmong(changes, n + 1, k) <==> KeyAmong(changes, n, k) || changes[n].key == k
  {
    if KeyAmong(changes, n + 1, k) && changes[n].key != k {
      var i :| 0 <= i < n + 1 && i < |changes| && changes[i].key == k;
      assert i < n;
    }
  }

  /** A key that is not among the changes is as in the parent. */
  lemma NotChanged(z: map<nat, Value>, x: map<nat, Value>, changes: seq<ValueChanged>, k: nat)
    requires AreChanges(z, x, changes) && !KeyAmong(changes, |changes|, k)
    ensures Lookup(x, k) == Lookup(z, k)
  {
  }

  /**
   A change whose key comes before the next one of the other side, and after those dealt with, is only of this side.
   */
  lemma OnlyHere(aC: seq<ValueChanged>, bC: seq<ValueChanged>, i: nat, j: nat)
    requires Increasing(bC) && Interleaved(aC, bC, i, j) && i < |aC| && (j < |bC| ==> aC[i].key < bC[j].key)
    ensures !KeyAmong(bC, |bC|, aC[i].key)
  {
    forall m | 0 <= m < |bC| ensures bC[m].key != aC[i].key {
      if j < m {
        assert bC[j].key < bC[m].key;
      }
    }
  }

  /** Dealing with one key that neither list of changes had dealt with. */
  lemma ApplyOne(st: Storage, resolve: Resolver, a: Value, b: Value, z: map<nat, Value>, aC: seq<ValueChanged>,
                 bC: seq<ValueChanged>, i: nat, j: nat, merged: map<nat, Value>,
                 i': nat, j': nat, k: nat, v: Option<Value>)
    requires Applied(st, resolve, a, b, z, aC, bC, i, j, merged) && MergeKey(st, resolve, a, b, z, k) == Merged(v)
    requires forall x :: Dealt(aC, bC, i', j', x) <==> Dealt(aC, bC, i, j, x) || x == k
    ensures Applied(st, resolve, a, b, z, aC, bC, i', j', Apply(merged, k, v))
  {
    hide MergeKey, Dealt;
    forall x ensures KeyDone(st, resolve, a, b, z, Apply(merged, k, v), x, Dealt(aC, bC, i', j', x)) {
      ApplyLookup(merged, k, v, x);
      assert KeyDone(st, resolve, a, b, z, merged, x, Dealt(aC, bC, i, j, x));
    }
  }

  /** A change of the first side only. */
  lemma TakeFirst(st: Storage, resolve: Resolver, a: Value, b: Value, z: map<nat, Value>, aC: seq<ValueChanged>,
                  bC: seq<ValueChanged>, i: nat, j: nat, merged: map<nat, Value>)
    requires AreChanges(z, Parts(a), aC) && AreChanges(z, Parts(b), bC)
    requires Interleaved(aC, bC, i, j) && Applied(st, resolve, a, b, z, aC, bC, i, j, merged) && i < |aC|
             && (j < |bC| ==> aC[i].key < bC[j].key)
    ensures Interleaved(aC, bC, i + 1, j) && Applied(st, resolve, a, b, z, aC, bC, i + 1, j,
                                                     Apply(merged, aC[i].key, Lookup(Parts(a), aC[i].key)))
  {
    var k := aC[i].key;
    OnlyHere(aC, bC, i, j);
    NotChanged(z, Parts(b), bC, k);
    forall x ensures Dealt(aC, bC, i + 1, j, x) <==> Dealt(aC, bC, i, j, x) || x == k {
      AmongNext(aC, i, x);
    }
    ApplyOne(st, resolve, a, b, z, aC, bC, i, j, merged, i + 1, j, k, Lookup(Parts(a), k));
  }

  /** A change of the second side only. */
  lemma TakeSecond(st: Storage, resolve: Resolver, a: Value, b: Value, z: map<nat, Value>, aC: seq<ValueChanged>,
                   bC: seq<ValueChanged>, i: nat, j: nat, merged: map<nat, Value>)
    requires AreChanges(z, Parts(a), aC) && AreChanges(z, Parts(b), bC)
    requires Interleaved(aC, bC, i, j) && Applied(st, resolve, a, b, z, aC, bC, i, j, merged) && j < |bC|
             && (i < |aC| ==> bC[j].key < aC[i].key)
    ensures Interleaved(aC, bC, i, j + 1) && Applied(st, resolve, a, b, z, aC, bC, i, j + 1,
                                                     Apply(merged, bC[j].key, Lookup(Parts(b), bC[j].key)))
  {
    var k := bC[j].key;
    OnlyHere(bC, aC, j, i);
    NotChanged(z, Parts(a), aC, k);
    forall x ensures Dealt(aC, bC, i, j + 1, x) <==> Dealt(aC, bC, i, j, x) || x == k {
      AmongNext(bC, j, x);
    }
    ApplyOne(st, resolve, a, b, z, aC, bC, i, j, merged, i, j + 1, k, Lookup(Parts(b), k));
  }

  /** The same key changed on both sides. */
  lemma TakeBoth(st: Storage, resolve: Resolver, a: Value, b: Value, z: map<nat, Value>, aC: seq<ValueChanged>,
                 bC: seq<ValueChanged>, i: nat, j: nat, merged: map<nat, Value>, v: Option<Value>)
    requires AreChanges(z, Parts(a), aC) && AreChanges(z, Parts(b), bC)
    requires Interleaved(aC, bC, i, j) && Applied(st, resolve, a, b, z, aC, bC, i, j, merged) && i < |aC| && j < |bC|
             && aC[i].key == bC[j].key
    requires MergeKey(st, resolve, a, b, z, aC[i].key) == Merged(v)
    ensures Interleaved(aC, bC, i + 1, j + 1)
            && Applied(st, resolve, a, b, z, aC, bC, i + 1, j + 1, Apply(merged, aC[i].key, v))
  {
    var k := aC[i].key;
    forall x ensures Dealt(aC, bC, i + 1, j + 1, x) <==> Dealt(aC, bC, i, j, x) || x == k {
      AmongNext(aC, i, x);
      AmongNext(bC, j, x);
    }
    ApplyOne(st, resolve, a, b, z, aC, bC, i, j, merged, i + 1, j + 1, k, v);
  }

  /** A key that neither side changed merges to what it was. */
  lemma UntouchedKey(st: Storage, resolve: Resolver, a: Value, b: Value, z: map<nat, Value>, k: nat)
    requires Lookup(Parts(a), k) == Lookup(z, k) && Lookup(Parts(b), k) == Lookup(z, k)
    ensures MergeKey(st, resolve, a, b, z, k) == Merged(Lookup(z, k))
  {
  }

  /** When all changes have been dealt with, every key is as its merge says. */
  lemma EachApplied(st: Storage, resolve: Resolver, a: Value, b: Value, z: map<nat, Value>, aC: seq<ValueChanged>,
                    bC: seq<ValueChanged>, merged: map<nat, Value>, k: nat)
    requires AreChanges(z, Parts(a), aC) && AreChanges(z, Parts(b), bC)
    requires Applied(st, resolve, a, b, z, aC, bC, |aC|, |bC|, merged)
    ensures MergeKey(st, resolve, a, b, z, k) == Merged(Lookup(merged, k))
  {
    hide MergeKey, AreChanges, KeyAmong, Parts, Lookup;
    assert KeyDone(st, resolve, a, b, z, merged, k, Dealt(aC, bC, |aC|, |bC|, k));
    if !Dealt(aC, bC, |aC|, |bC|, k) {
      NotChanged(z, Parts(a), aC, k);
      NotChanged(z, Parts(b), bC, k);
      UntouchedKey(st, resolve, a, b, z, k);
    }
  }

  lemma AllApplied(st: Storage, resolve: Resolver, a: Value, b: Value, z: map<nat, Value>, aC: seq<ValueChanged>,
                   bC: seq<ValueChanged>, merged: map<nat, Value>)
    requires AreChanges(z, Parts(a), aC) && AreChanges(z, Parts(b), bC)
    requires Applied(st, resolve, a, b, z, aC, bC, |aC|, |bC|, merged)
    ensures !AnyConflict(st, resolve, a, b, z) && merged == MergedParts(st, resolve, a, b, z)
  {
    forall k: nat ensures MergeKey(st, resolve, a, b, z, k) == Merged(Lookup(merged, k)) {
      EachApplied(st, resolve, a, b, z, aC, bC, merged, k);
    }
    hide AreChanges, MergeKey, MergedParts, Lookup, Parts, Applied;
    NoConflict(st, resolve, a, b, z);
    forall k: nat ensures Lookup(merged, k) == Lookup(MergedParts(st, resolve, a, b, z), k) {
      KeyByKey(st, resolve, a, b, z, k);
    }
    SameLookups(merged, MergedParts(st, resolve, a, b, z));
  }

  // ---------- the methods ----------

  /** Two values of a key that have to be merged in turn. */
  predicate Clashing(x: Value, y: Value, p: Option<Value>) {
    Some(x) != p && Some(y) != p && x != y && !Unmergeable(x, y)
  }

  /** Every diff of two maps or sets that the merge runs finds everything; from left to right it always does. */
  ghost predicate Seen(st: Storage, how: Strategy, a: Value, b: Value, p: Option<Value>)
    decreases a
  {
    match (a, b)
    case (MapValue(x), MapValue(y)) =>
      (p.Some? ==> p.value.MapValue?) ==>
        var z := if p.Some? then p.value.entries else map[];
        && Finds(st, how, z, x) && Finds(st, how, z, y)
        && forall k :: k in x && k in y && Clashing(x[k], y[k], Lookup(z, k)) ==>
               Seen(st, how, x[k], y[k], Lookup(z, k))
    case (RefValue(x), RefValue(y)) =>
      (p.Some? ==> p.value.RefValue?) ==> Seen(st, how, x, y, if p.Some? then Some(p.value.target) else None)
    case (SetValue(x), SetValue(y)) =>
      (p.Some? ==> p.value.SetValue?) ==>
        var z := if p.Some? then p.value.elements else {};
        Finds(st, how, AsMap(z), AsMap(x)) && Finds(st, how, AsMap(z), AsMap(y))
    case (StructValue(n, x), StructValue(m, y)) =>
      n == m && (p.Some? ==> p.value.StructValue?) ==>
        var z := if p.Some? then p.value.fields else map[];
        forall k :: k in x && k in y && Clashing(x[k], y[k], Lookup(z, k)) ==> Seen(st, how, x[k], y[k], Lookup(z, k))
    case _ => true
  }

  ghost predicate PartsSeen(st: Storage, how: Strategy, a: Value, b: Value, z: map<nat, Value>) {
    var x, y := Parts(a), Parts(b);
    forall k :: k in x && k in y && Clashing(x[k], y[k], Lookup(z, k)) ==> Seen(st, how, x[k], y[k], Lookup(z, k))
  }

  /** A set as the merge sees it: each element is its own key and value. */
  function AsMap(s: set<nat>): map<nat, Value> {
    map k | k in s :: Primitive(k)
  }

  /** From left to right nothing more is asked of the trees. */
  lemma {:induction false} LeftRightSees(st: Storage, a: Value, b: Value, p: Option<Value>)
    ensures Seen(st, LeftRight, a, b, p)
    decreases a
  {
    match (a, b) {
      case (MapValue(x), MapValue(y)) =>
        var z := if p.Some? && p.value.MapValue? then p.value.entries else map[];
        forall k | k in x && k in y ensures Seen(st, LeftRight, x[k], y[k], Lookup(z, k)) {
          LeftRightSees(st, x[k], y[k], Lookup(z, k));
        }
      case (RefValue(x), RefValue(y)) =>
        LeftRightSees(st, x, y, if p.Some? && p.value.RefValue? then Some(p.value.target) else None);
      case (StructValue(_, x), StructValue(_, y)) =>
        var z := if p.Some? && p.value.StructValue? then p.value.fields else map[];
        forall k | k in x && k in y ensures Seen(st, LeftRight, x[k], y[k], Lookup(z, k)) {
          LeftRightSees(st, x[k], y[k], Lookup(z, k));
        }
      case _ =>
    }
  }

  /** Everything that could be merged in turn is part of `whole`. */
  ghost predicate PartOf(a: Value, whole: Value) {
    whole == a || (forall k :: k in Parts(a) ==> Parts(a)[k].Primitive?)
  }

  lemma PartBelow(a: Value, whole: Value, k: nat)
    requires PartOf(a, whole) && k in Parts(a) && !Parts(a)[k].Primitive?
    ensures whole decreases to Parts(a)[k]
  {
    var v := if a.MapValue? then a.entries[k] else a.fields[k];
    assert Parts(a)[k] == v;
  }

  lemma ClashAt(st: Storage, how: Strategy, a: Value, b: Value, z: map<nat, Value>, k: nat)
    requires PartsSeen(st, how, a, b, z) && SmallParts(a) && SmallParts(b) && SmallMap(z)
    requires k in Parts(a) && k in Parts(b) && Clashing(Parts(a)[k], Parts(b)[k], Lookup(z, k))
    ensures Seen(st, how, Parts(a)[k], Parts(b)[k], Lookup(z, k))
    ensures Small(Parts(a)[k]) && Small(Parts(b)[k]) && (k in z ==> Small(z[k]))
  {
    hide Seen, Small;
  }

  /** What both sides' changes of one key become. */
  method MergeChanges(st: Storage, resolve: Resolver, how: Strategy, a: Value, b: Value, z: map<nat, Value>,
                      aChange: ValueChanged,
                      bChange: ValueChanged, ghost whole: Value)
    returns (r: Outcome<Option<Value>>)
    requires PartsSeen(st, how, a, b, z)
    requires Works(st) && SmallParts(a) && SmallParts(b) && SmallMap(z) && aChange.key == bChange.key
             && PartOf(a, whole)
    requires Fate(Lookup(z, aChange.key), Lookup(Parts(a), aChange.key)) == Some(aChange.changeType)
    requires Fate(Lookup(z, bChange.key), Lookup(Parts(b), bChange.key)) == Some(bChange.changeType)
    ensures r == MergeKey(st, resolve, a, b, z, aChange.key)
    decreases whole, 0
  {
    var k := aChange.key;
    var aValue, bValue := Lookup(Parts(a), k), Lookup(Parts(b), k);
    hide Works, MergeValues, SmallParts, SmallMap, PartsSeen, PartOf;
    if aChange.changeType == bChange.changeType {
      if aChange.changeType == Removed || aValue == bValue {
        return Merged(aValue);
      }
      if !Unmergeable(aValue.value, bValue.value) {
        PartBelow(a, whole, k);
        ClashAt(st, how, a, b, z, k);
        var merged := ThreeWay(st, resolve, how, aValue.value, bValue.value, Lookup(z, k));
        match merged {
          case Merged(v) => return Merged(Some(v));
          case MergeConflict => return MergeConflict;
        }
      }
    }
    var choice := resolve.Resolve(aChange.changeType, bChange.changeType, aValue, bValue);
    return if choice.Some? then Merged(choice.value) else MergeConflict;
  }

  ghost predicate SmallMap(m: map<nat, Value>) {
    forall k :: k in m ==> Small(m[k])
  }

  ghost predicate SmallParts(a: Value) {
    SmallMap(Parts(a))
  }

  /** Deals with a key that both sides change. */
  method NextOfBoth(st: Storage, resolve: Resolver, how: Strategy, a: Value, b: Value, z: map<nat, Value>,
                    aC: seq<ValueChanged>,
                    bC: seq<ValueChanged>, ghost whole: Value, i: nat, j: nat, merged: map<nat, Value>)
    returns (r: Outcome<map<nat, Value>>)
    requires PartsSeen(st, how, a, b, z)
    requires Works(st) && SmallParts(a) && SmallParts(b) && SmallMap(z) && PartOf(a, whole)
    requires AreChanges(z, Parts(a), aC) && AreChanges(z, Parts(b), bC)
    requires Interleaved(aC, bC, i, j) && Applied(st, resolve, a, b, z, aC, bC, i, j, merged)
    requires i < |aC| && j < |bC| && aC[i].key == bC[j].key
    ensures r.MergeConflict? ==> AnyConflict(st, resolve, a, b, z)
    ensures r.Merged? ==> Interleaved(aC, bC, i + 1, j + 1)
                          && Applied(st, resolve, a, b, z, aC, bC, i + 1, j + 1, r.value)
    decreases whole, 1
  {
    hide *;
    ChangeAt(z, Parts(a), aC, i);
    ChangeAt(z, Parts(b), bC, j);
    var change := MergeChanges(st, resolve, how, a, b, z, aC[i], bC[j], whole);
    if change.MergeConflict? {
      ConflictAt(st, resolve, a, b, z, aC[i].key);
      return MergeConflict;
    }
    TakeBoth(st, resolve, a, b, z, aC, bC, i, j, merged, change.value);
    return Merged(Apply(merged, aC[i].key, change.value));
  }

  /** Deals with the next change: of the first side, of the second, or of both if they change the same key. */
  method NextChange(st: Storage, resolve: Resolver, how: Strategy, a: Value, b: Value, z: map<nat, Value>,
                    aC: seq<ValueChanged>,
                    bC: seq<ValueChanged>, ghost whole: Value, i: nat, j: nat, merged: map<nat, Value>)
    returns (r: Outcome<map<nat, Value>>, i': nat, j': nat)
    requires PartsSeen(st, how, a, b, z)
    requires Works(st) && SmallParts(a) && SmallParts(b) && SmallMap(z) && PartOf(a, whole)
    requires AreChanges(z, Parts(a), aC) && AreChanges(z, Parts(b), bC)
    requires Interleaved(aC, bC, i, j) && Applied(st, resolve, a, b, z, aC, bC, i, j, merged) && i <= |aC| && j <= |bC|
             && i + j < |aC| + |bC|
    ensures r.MergeConflict? ==> AnyConflict(st, resolve, a, b, z)
    ensures r.Merged? ==> Interleaved(aC, bC, i', j') && Applied(st, resolve, a, b, z, aC, bC, i', j', r.value)
    ensures i <= i' <= |aC| && j <= j' <= |bC| && i + j < i' + j'
    decreases whole, 2
  {
    hide *;
    if i < |aC| && (j == |bC| || aC[i].key < bC[j].key) {
      TakeFirst(st, resolve, a, b, z, aC, bC, i, j, merged);
      return Merged(Apply(merged, aC[i].key, Lookup(Parts(a), aC[i].key))), i + 1, j;
    } else if j < |bC| && (i == |aC| || bC[j].key < aC[i].key) {
      TakeSecond(st, resolve, a, b, z, aC, bC, i, j, merged);
      return Merged(Apply(merged, bC[j].key, Lookup(Parts(b), bC[j].key))), i, j + 1;
    } else {
      r := NextOfBoth(st, resolve, how, a, b, z, aC, bC, whole, i, j, merged);
      i', j' := i + 1, j + 1;
    }
  }

  /** Walks through the changes of both sides in key order. */
  method ThreeWayOrderedSequenceMerge(st: Storage, resolve: Resolver, how: Strategy, a: Value, b: Value, z: map<nat,
                                      Value>,
                                      aC: seq<ValueChanged>, bC: seq<ValueChanged>, ghost whole: Value)
    returns (r: Outcome<map<nat, Value>>)
    requires PartsSeen(st, how, a, b, z)
    requires Works(st) && SmallParts(a) && SmallParts(b) && SmallMap(z) && PartOf(a, whole)
    requires AreChanges(z, Parts(a), aC) && AreChanges(z, Parts(b), bC)
    ensures r.MergeConflict? <==> AnyConflict(st, resolve, a, b, z)
    ensures r.Merged? ==> r.value == MergedParts(st, resolve, a, b, z)
    decreases whole, 3
  {
    hide *;
    var i: nat, j: nat := 0, 0;
    NoneApplied(st, resolve, a, b, z, aC, bC);
    r := Merged(z);
    while i < |aC| || j < |bC|
      invariant i <= |aC| && j <= |bC| && r.Merged? && Interleaved(aC, bC, i, j)
                && Applied(st, resolve, a, b, z, aC, bC, i, j, r.value)
      decreases |aC| - i + |bC| - j
    {
      r, i, j := NextChange(st, resolve, how, a, b, z, aC, bC, whole, i, j, r.value);
      if r.MergeConflict? {
        return;
      }
    }
    AllApplied(st, resolve, a, b, z, aC, bC, r.value);
  }

  lemma ChangeAt(z: map<nat, Value>, x: map<nat, Value>, changes: seq<ValueChanged>, n: nat)
    requires AreChanges(z, x, changes) && n < |changes|
    ensures Fate(Lookup(z, changes[n].key), Lookup(x, changes[n].key)) == Some(changes[n].changeType)
  {
  }

  lemma NoneApplied(st: Storage, resolve: Resolver, a: Value, b: Value, z: map<nat, Value>, aC: seq<ValueChanged>,
                    bC: seq<ValueChanged>)
    ensures Interleaved(aC, bC, 0, 0) && Applied(st, resolve, a, b, z, aC, bC, 0, 0, z)
  {
  }

  lemma {:induction false} SetMerge(st: Storage, resolve: Resolver, x: set<nat>, y: set<nat>, z: set<nat>)
    ensures var a, b := MapValue(AsMap(x)), MapValue(AsMap(y));
            !AnyConflict(st, resolve, a, b, AsMap(z))
              && MergedParts(st, resolve, a, b, AsMap(z)).Keys == MergedElements(x, y, z)
  {
    var a, b, p := MapValue(AsMap(x)), MapValue(AsMap(y)), AsMap(z);
    forall k: nat
      ensures MergeKey(st, resolve, a, b, p, k)
      == Merged(if MergeMember(k in x, k in y, k in z) then Some(Primitive(k)) else None) {
    }
    hide MergeKey;
    NoConflict(st, resolve, a, b, p);
    forall k: nat ensures k in MergedParts(st, resolve, a, b, p).Keys <==> k in MergedElements(x, y, z) {
      KeyByKey(st, resolve, a, b, p, k);
      assert MergeMember(k in x, k in y, k in z) ==> k in x + y;
    }
  }

  method MergeMaps(st: Storage, resolve: Resolver, how: Strategy, a: Value, b: Value, z: map<nat, Value>)
    returns (r: Outcome<map<nat, Value>>)
    requires Works(st) && a.MapValue? && b.MapValue? && Small(a) && Small(b) && SmallMap(z)
    requires Finds(st, how, z, a.entries) && Finds(st, how, z, b.entries) && PartsSeen(st, how, a, b, z)
    ensures r.MergeConflict? <==> AnyConflict(st, resolve, a, b, z)
    ensures r.Merged? ==> r.value == MergedParts(st, resolve, a, b, z)
    decreases a, 4
  {
    hide Works;
    var aC := DiffMaps(st, how, z, a.entries);
    var bC := DiffMaps(st, how, z, b.entries);
    r := ThreeWayOrderedSequenceMerge(st, resolve, how, a, b, z, aC, bC, a);
  }

  method MergeStructs(st: Storage, resolve: Resolver, how: Strategy, a: Value, b: Value, z: map<nat, Value>)
    returns (r: Outcome<map<nat, Value>>)
    requires Works(st) && a.StructValue? && b.StructValue? && Small(a) && Small(b) && SmallMap(z)
    requires PartsSeen(st, how, a, b, z)
    ensures r.MergeConflict? <==> AnyConflict(st, resolve, a, b, z)
    ensures r.Merged? ==> r.value == MergedParts(st, resolve, a, b, z)
    decreases a, 4
  {
    hide Works;
    var aC := DiffStructs(z, a.fields);
    var bC := DiffStructs(z, b.fields);
    r := ThreeWayOrderedSequenceMerge(st, resolve, how, a, b, z, aC, bC, a);
  }

  method MergeSets(st: Storage, resolve: Resolver, how: Strategy, x: set<nat>, y: set<nat>, z: set<nat>,
                   ghost whole: Value)
    returns (r: set<nat>)
    requires Works(st) && Finds(st, how, AsMap(z), AsMap(x)) && Finds(st, how, AsMap(z), AsMap(y))
    ensures r == MergedElements(x, y, z)
    decreases whole, 4
  {
    hide Works;
    var a, b := MapValue(AsMap(x)), MapValue(AsMap(y));
    SetMerge(st, resolve, x, y, z);
    var aC := DiffMaps(st, how, AsMap(z), AsMap(x));
    var bC := DiffMaps(st, how, AsMap(z), AsMap(y));
    var m := ThreeWayOrderedSequenceMerge(st, resolve, how, a, b, AsMap(z), aC, bC, whole);
    r := m.value.Keys;
  }

  /** Merges the trees of two lists. */
  method MergeListTrees(st: Storage, a: seq<Value>, b: seq<Value>, p: seq<Value>) returns (r: Outcome<seq<Value>>)
    requires Works(st) && |a| < LIST_LIMIT && |b| < LIST_LIMIT && |p| < LIST_LIMIT
    ensures r == MergeLists(st, a, b, p)
  {
    Stored(st, a);
    Stored(st, b);
    Stored(st, p);
    hide Works, ItemsFor, D.Valid, ValuesOf, L.Conflict, L.IsMerge;
    var m := L.ThreeWayListMerge(st.listTree(a), st.listTree(b), st.listTree(p));
    if m.MergeConflict? {
      return MergeConflict;
    }
    MergedBy(st, a, b, p, m.list);
    return Merged(ValuesOf(m.list));
  }

  /** The merge of two values: exactly what the changes of both sides come to, or a conflict. */
  method ThreeWay(st: Storage, resolve: Resolver, how: Strategy, a: Value, b: Value, p: Option<Value>)
    returns (r: Outcome<Value>)
    requires Works(st) && Small(a) && Small(b) && (p.Some? ==> Small(p.value)) && Seen(st, how, a, b, p)
    ensures r == MergeValues(st, resolve, a, b, p)
    decreases a, 5
  {
    hide Works, AnyConflict, MergedParts, MergedElements, MergeLists;
    match (a, b) {
      case (ListValue(x), ListValue(y)) =>
        if p.None? || p.value.ListValue? {
          var m := MergeListTrees(st, x, y, if p.Some? then p.value.items else []);
          return if m.MergeConflict? then MergeConflict else Merged(ListValue(m.value));
        }
      case (MapValue(_), MapValue(_)) =>
        if p.None? || p.value.MapValue? {
          var m := MergeMaps(st, resolve, how, a, b, if p.Some? then p.value.entries else map[]);
          return if m.MergeConflict? then MergeConflict else Merged(MapValue(m.value));
        }
      case (RefValue(x), RefValue(y)) =>
        if p.None? || p.value.RefValue? {
          var m := ThreeWay(st, resolve, how, x, y, if p.Some? then Some(p.value.target) else None);
          return if m.MergeConflict? then MergeConflict else Merged(RefValue(m.value));
        }
      case (SetValue(x), SetValue(y)) =>
        if p.None? || p.value.SetValue? {
          var m := MergeSets(st, resolve, how, x, y, if p.Some? then p.value.elements else {}, a);
          return Merged(SetValue(m));
        }
      case (StructValue(n, _), StructValue(m, _)) =>
        if n == m && (p.None? || p.value.StructValue?) {
          var f := MergeStructs(st, resolve, how, a, b, if p.Some? then p.value.fields else map[]);
          return if f.MergeConflict? then MergeConflict
                 else Merged(StructValue(if p.Some? then p.value.name else n, f.value));
        }
      case _ =>
    }
    return MergeConflict;
  }
}
