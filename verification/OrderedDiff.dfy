/** Diffing two ordered collections from left to right, whatever the shapes of their trees. */
module OrderedDiff {
  import opened Options
  import opened Chunking
  import opened ProllyTree
  import opened TreeCursors
  import opened FastForward

  /** A map entry; keys stand for their place in the order of all keys. */
  datatype Entry<D> = Entry(key: nat, data: D)

  type Entries<D> = Level<Entry<D>>

  datatype ChangeType = Added | Removed | Modified

  datatype ValueChanged = ValueChanged(changeType: ChangeType, key: nat)

  function Key<D>(item: Item<Node<Entry<D>>>): nat {
    if item.value.Value? then item.value.value.key else 0
  }

  ghost predicate Sorted<D>(xs: Entries<D>) {
    forall i, k :: 0 <= i < k < |xs| ==> Key(xs[i]) < Key(xs[k])
  }

  // ---------- what a diff has to say ----------

  /** The entry for `k` among those from `i` on. */
  function Find<D>(xs: Entries<D>, i: nat, k: nat): Option<Item<Node<Entry<D>>>>
    requires i <= |xs|
    decreases |xs| - i
  {
    if i == |xs| then None else if Key(xs[i]) == k then Some(xs[i]) else Find(xs, i + 1, k)
  }

  /** What happened to a key whose entry was `x` and is `y`. */
  function Fate<T(==)>(x: Option<T>, y: Option<T>): Option<ChangeType> {
    match (x, y)
    case (None, None) => None
    case (None, Some(_)) => Some(Added)
    case (Some(_), None) => Some(Removed)
    case (Some(e), Some(f)) => if e == f then None else Some(Modified)
  }

  ghost predicate Increasing(changes: seq<ValueChanged>) {
    forall i, k :: 0 <= i < k < |changes| ==> changes[i].key < changes[k].key
  }

  /** The changes are exactly those of the keys that differ, each with what happened to it, in key order. */
  ghost predicate IsDiff<D>(xs: Entries<D>, ys: Entries<D>, changes: seq<ValueChanged>) {
    && Increasing(changes)
    && forall t, k :: ValueChanged(t, k) in changes <==> Fate(Find(xs, 0, k), Find(ys, 0, k)) == Some(t)
  }

  // ---------- the diff of two sorted sequences ----------

  /** The changes from `xs[i..]` to `ys[j..]`. */
  ghost function DiffFrom<D>(xs: Entries<D>, ys: Entries<D>, i: nat, j: nat): seq<ValueChanged>
    requires i <= |xs| && j <= |ys|
    decreases |xs| - i + |ys| - j
  {
    if i == |xs| && j == |ys| then []
    else if i == |xs| then [ValueChanged(Added, Key(ys[j]))] + DiffFrom(xs, ys, i, j + 1)
    else if j == |ys| then [ValueChanged(Removed, Key(xs[i]))] + DiffFrom(xs, ys, i + 1, j)
    else if xs[i] == ys[j] then DiffFrom(xs, ys, i + 1, j + 1)
    else if Key(ys[j]) < Key(xs[i]) then [ValueChanged(Added, Key(ys[j]))] + DiffFrom(xs, ys, i, j + 1)
    else if Key(xs[i]) < Key(ys[j]) then [ValueChanged(Removed, Key(xs[i]))] + DiffFrom(xs, ys, i + 1, j)
    else [ValueChanged(Modified, Key(xs[i]))] + DiffFrom(xs, ys, i + 1, j + 1)
  }

  lemma {:induction false} NotBelow<D>(xs: Entries<D>, i: nat, k: nat)
    requires Sorted(xs) && i <= |xs| && (i < |xs| ==> k < Key(xs[i]))
    ensures Find(xs, i, k) == None
    decreases |xs| - i
  {
    if i < |xs| {
      NotBelow(xs, i + 1, k);
    }
  }

  lemma {:induction false} Says<D>(xs: Entries<D>, ys: Entries<D>, i: nat, j: nat, t: ChangeType, k: nat)
    requires Sorted(xs) && Sorted(ys) && i <= |xs| && j <= |ys|
    ensures ValueChanged(t, k) in DiffFrom(xs, ys, i, j) <==> Fate(Find(xs, i, k), Find(ys, j, k)) == Some(t)
    decreases |xs| - i + |ys| - j
  {
    if i < |xs| && (j == |ys| || Key(xs[i]) <= Key(ys[j])) {
      NotBelow(xs, i + 1, Key(xs[i]));
    }
    if j < |ys| && (i == |xs| || Key(ys[j]) <= Key(xs[i])) {
      NotBelow(ys, j + 1, Key(ys[j]));
    }
    if i == |xs| && j == |ys| {
    } else if i == |xs| || (j < |ys| && Key(ys[j]) < Key(xs[i])) {
      Says(xs, ys, i, j + 1, t, k);
      NotBelow(xs, i, Key(ys[j]));
    } else if j == |ys| || Key(xs[i]) < Key(ys[j]) {
      Says(xs, ys, i + 1, j, t, k);
      NotBelow(ys, j, Key(xs[i]));
    } else {
      Says(xs, ys, i + 1, j + 1, t, k);
    }
  }

  lemma {:induction false} Above<D>(xs: Entries<D>, ys: Entries<D>, i: nat, j: nat, low: int)
    requires Sorted(xs) && Sorted(ys) && i <= |xs| && j <= |ys| && (i < |xs| ==> low < Key(xs[i]))
             && (j < |ys| ==> low < Key(ys[j]))
    ensures forall n :: 0 <= n < |DiffFrom(xs, ys, i, j)| ==> low < DiffFrom(xs, ys, i, j)[n].key
    decreases |xs| - i + |ys| - j
  {
    if i < |xs| {
      Above(xs, ys, i + 1, j, low);
    }
    if j < |ys| {
      Above(xs, ys, i, j + 1, low);
    }
    if i < |xs| && j < |ys| {
      Above(xs, ys, i + 1, j + 1, low);
    }
  }

  lemma {:induction false} InOrder<D>(xs: Entries<D>, ys: Entries<D>, i: nat, j: nat)
    requires Sorted(xs) && Sorted(ys) && i <= |xs| && j <= |ys|
    ensures Increasing(DiffFrom(xs, ys, i, j))
    decreases |xs| - i + |ys| - j
  {
    if i == |xs| && j == |ys| {
      return;
    }
    hide Increasing;
    if i == |xs| || (j < |ys| && Key(ys[j]) < Key(xs[i])) {
      InOrder(xs, ys, i, j + 1);
      Above(xs, ys, i, j + 1, Key(ys[j]));
      Cons(ValueChanged(Added, Key(ys[j])), DiffFrom(xs, ys, i, j + 1));
    } else if j == |ys| || Key(xs[i]) < Key(ys[j]) {
      InOrder(xs, ys, i + 1, j);
      Above(xs, ys, i + 1, j, Key(xs[i]));
      Cons(ValueChanged(Removed, Key(xs[i])), DiffFrom(xs, ys, i + 1, j));
    } else {
      InOrder(xs, ys, i + 1, j + 1);
      Above(xs, ys, i + 1, j + 1, Key(xs[i]));
      Cons(ValueChanged(Modified, Key(xs[i])), DiffFrom(xs, ys, i + 1, j + 1));
    }
  }

  lemma Cons(c: ValueChanged, rest: seq<ValueChanged>)
    requires Increasing(rest) && forall n :: 0 <= n < |rest| ==> c.key < rest[n].key
    ensures Increasing([c] + rest)
  {
  }

  /** Equal keys with equal entries are no change, however many there are. */
  lemma {:induction false} EqualRun<D>(xs: Entries<D>, ys: Entries<D>, i: nat, j: nat, n: nat)
    requires Alike(xs, i, ys, j, n)
    ensures DiffFrom(xs, ys, i, j) == DiffFrom(xs, ys, i + n, j + n)
    decreases n
  {
    if n > 0 {
      assert xs[i] == ys[i - i + j];
      EqualRun(xs, ys, i + 1, j + 1, n - 1);
    }
  }

  lemma DiffIsExact<D>(xs: Entries<D>, ys: Entries<D>)
    requires Sorted(xs) && Sorted(ys)
    ensures IsDiff(xs, ys, DiffFrom(xs, ys, 0, 0))
  {
    InOrder(xs, ys, 0, 0);
    forall t, k
      ensures ValueChanged(t, k) in DiffFrom(xs, ys, 0, 0) <==> Fate(Find(xs, 0, k), Find(ys, 0, k)) == Some(t) {
      Says(xs, ys, 0, 0, t, k);
    }
  }

  /** One of the entries has this key. */
  ghost predicate HasKey<D>(xs: Entries<D>, k: nat) {
    exists i :: 0 <= i < |xs| && Key(xs[i]) == k
  }

  lemma {:induction false} FindExactly<D>(xs: Entries<D>, i: nat, k: nat)
    requires i <= |xs|
    ensures Find(xs, i, k).Some? <==> exists j :: i <= j < |xs| && Key(xs[j]) == k
    ensures Find(xs, i, k).Some? ==> Find(xs, i, k).value in xs && Key(Find(xs, i, k).value) == k
    decreases |xs| - i
  {
    if i < |xs| {
      FindExactly(xs, i + 1, k);
    }
  }

  /** A diff says of every key whether it was added, removed or modified, and nothing of the others. */
  lemma DiffMeans<D>(xs: Entries<D>, ys: Entries<D>, changes: seq<ValueChanged>, k: nat)
    requires Sorted(xs) && Sorted(ys) && IsDiff(xs, ys, changes)
    ensures ValueChanged(Added, k) in changes <==> !HasKey(xs, k) && HasKey(ys, k)
    ensures ValueChanged(Removed, k) in changes <==> HasKey(xs, k) && !HasKey(ys, k)
    ensures ValueChanged(Modified, k) in changes <==>
              exists x, y :: x in xs && y in ys && Key(x) == Key(y) == k && x != y
  {
    FindExactly(xs, 0, k);
    FindExactly(ys, 0, k);
    forall x | x in xs && Key(x) == k ensures Find(xs, 0, k) == Some(x) {
      OneEntry(xs, x, Find(xs, 0, k).value);
    }
    forall y | y in ys && Key(y) == k ensures Find(ys, 0, k) == Some(y) {
      OneEntry(ys, y, Find(ys, 0, k).value);
    }
    if HasKey(xs, k) && HasKey(ys, k) {
      assert Find(xs, 0, k).value in xs && Find(ys, 0, k).value in ys;
    }
  }

  lemma OneEntry<D>(xs: Entries<D>, x: Item<Node<Entry<D>>>, y: Item<Node<Entry<D>>>)
    requires Sorted(xs) && x in xs && y in xs && Key(x) == Key(y)
    ensures x == y
  {
  }

  // ---------- the cursors ----------

  /** A collection: its root and how deep its tree is, with the entries in key order. */
  datatype Collection<D> = Collection(root: Entries<D>, height: nat)

  ghost function EntriesOf<D>(c: Collection<D>): Entries<D> {
    Leaves(c.root, |c.root|)
  }

  ghost predicate Ordered<D>(c: Collection<D>) {
    HasDepth(c.root, c.height) && (c.root == [] ==> c.height == 0) && Sorted(EntriesOf(c))
  }

  /** A cursor over the entries `xs`, at one of them or at the end. */
  ghost predicate Over<D>(c: Cursor<Entry<D>>, xs: Entries<D>)
    reads c
  {
    && c.Valid(0) && |c.frames| == c.h + 1 && |c.at| == c.h + 2 && c.at[0] <= |xs|
    && xs == ItemsAt(c.root, c.h, 0) && Sorted(xs)
  }

  method NewCursor<D>(c: Collection<D>) returns (cur: Cursor<Entry<D>>)
    requires Ordered(c)
    ensures fresh(cur) && Over(cur, EntriesOf(c)) && cur.at[0] == 0
  {
    cur := new Cursor(c.root, c.height);
    Bottom(c.root, c.height);
    PlacedHere(cur.root, cur.h, cur.frames, cur.at, 0);
  }

  /** Whether the cursor is at an entry. */
  method IsValid<D>(cur: Cursor<Entry<D>>, ghost xs: Entries<D>) returns (valid: bool)
    requires Over(cur, xs)
    ensures valid == (cur.at[0] < |xs|)
    ensures valid ==> Ready(cur, 0) && cur.frames[0].idx < |cur.frames[0].items| && Current(cur, 0) == xs[cur.at[0]]
  {
    PlacedHere(cur.root, cur.h, cur.frames, cur.at, 0);
    valid := cur.frames[0].idx < |cur.frames[0].items|;
  }

  method Advance<D>(cur: Cursor<Entry<D>>, ghost xs: Entries<D>)
    requires Over(cur, xs) && cur.at[0] < |xs|
    modifies cur
    ensures Over(cur, xs) && cur.at[0] == old(cur.at[0]) + 1
  {
    hide Placed, HasDepth;
    var ok := cur.AdvanceMaybeAllowPastEnd(0, true);
  }

  /** Moves both cursors past what they have in common. */
  method SkipEqual<D(==)>(a: Cursor<Entry<D>>, b: Cursor<Entry<D>>, ghost xs: Entries<D>, ghost ys: Entries<D>)
    returns (ghost n: nat)
    requires a != b && Over(a, xs) && Over(b, ys) && a.at[0] < |xs| && b.at[0] < |ys|
    modifies a, b
    ensures Over(a, xs) && Over(b, ys) && a.at[0] == old(a.at[0]) + n && b.at[0] == old(b.at[0]) + n
    ensures DiffFrom(xs, ys, a.at[0], b.at[0]) == DiffFrom(xs, ys, old(a.at[0]), old(b.at[0]))
    ensures a.at[0] < |xs| && b.at[0] < |ys| ==> xs[a.at[0]] != ys[b.at[0]]
  {
    hide Placed, HasDepth, DiffFrom;
    var aHasMore, bHasMore;
    aHasMore, bHasMore, n := DoFastForward(0, true, a, b);
    EqualRun(xs, ys, old(a.at[0]), old(b.at[0]), n);
  }

  /** What has been sent, together with what is still to come, is the whole diff. */
  ghost predicate Sent<D>(xs: Entries<D>, ys: Entries<D>, i: nat, j: nat, changes: seq<ValueChanged>) {
    i <= |xs| && j <= |ys| && changes + DiffFrom(xs, ys, i, j) == DiffFrom(xs, ys, 0, 0)
  }

  lemma SendOne<D>(xs: Entries<D>, ys: Entries<D>, i: nat, j: nat, changes: seq<ValueChanged>, c: ValueChanged, i': nat,
                   j': nat)
    requires Sent(xs, ys, i, j, changes) && i' <= |xs| && j' <= |ys|
    requires DiffFrom(xs, ys, i, j) == [c] + DiffFrom(xs, ys, i', j')
    ensures Sent(xs, ys, i', j', changes + [c])
  {
    assert changes + ([c] + DiffFrom(xs, ys, i', j')) == changes + [c] + DiffFrom(xs, ys, i', j');
  }

  lemma SendNothing<D>(xs: Entries<D>, ys: Entries<D>, i: nat, j: nat, changes: seq<ValueChanged>, i': nat, j': nat)
    requires Sent(xs, ys, i, j, changes) && i' <= |xs| && j' <= |ys|
             && DiffFrom(xs, ys, i, j) == DiffFrom(xs, ys, i', j')
    ensures Sent(xs, ys, i', j', changes)
  {
  }

  /** Sends the difference that both cursors are at. */
  method SendDifference<D(==)>(a: Cursor<Entry<D>>, b: Cursor<Entry<D>>, ghost xs: Entries<D>, ghost ys: Entries<D>,
                               changes: seq<ValueChanged>)
    returns (changes': seq<ValueChanged>)
    requires a != b && Over(a, xs) && Over(b, ys) && a.at[0] < |xs| && b.at[0] < |ys| && xs[a.at[0]] != ys[b.at[0]]
    requires Sent(xs, ys, a.at[0], b.at[0], changes)
    modifies a, b
    ensures Over(a, xs) && Over(b, ys) && Sent(xs, ys, a.at[0], b.at[0], changes')
    ensures old(a.at[0]) <= a.at[0] && old(b.at[0]) <= b.at[0] && old(a.at[0] + b.at[0]) < a.at[0] + b.at[0]
  {
    hide Placed, HasDepth, Sorted;
    ghost var i, j := a.at[0], b.at[0];
    var lastValid := IsValid(a, xs);
    var currentValid := IsValid(b, ys);
    var lastKey, currentKey := Key(Current(a, 0)), Key(Current(b, 0));
    var change;
    if currentKey < lastKey {
      change := ValueChanged(Added, currentKey);
      Advance(b, ys);
    } else if lastKey < currentKey {
      change := ValueChanged(Removed, lastKey);
      Advance(a, xs);
    } else {
      change := ValueChanged(Modified, lastKey);
      Advance(a, xs);
      Advance(b, ys);
    }
    SendOne(xs, ys, i, j, changes, change, a.at[0], b.at[0]);
    changes' := changes + [change];
  }

  /** Sends differences until the cursors are at equal entries, or one is at the end. */
  method SendDifferences<D(==)>(a: Cursor<Entry<D>>, b: Cursor<Entry<D>>, ghost xs: Entries<D>, ghost ys: Entries<D>,
                                changes: seq<ValueChanged>)
    returns (changes': seq<ValueChanged>)
    requires a != b && Over(a, xs) && Over(b, ys) && Sent(xs, ys, a.at[0], b.at[0], changes)
    modifies a, b
    ensures Over(a, xs) && Over(b, ys) && Sent(xs, ys, a.at[0], b.at[0], changes')
    ensures old(a.at[0]) <= a.at[0] && old(b.at[0]) <= b.at[0]
    ensures old(a.at[0]) < |xs| && old(b.at[0]) < |ys| && xs[old(a.at[0])] != ys[old(b.at[0])] ==>
              old(a.at[0] + b.at[0]) < a.at[0] + b.at[0]
  {
    hide Placed, HasDepth, Sorted, Sent;
    ghost var i, j := a.at[0], b.at[0];
    changes' := changes;
    var lastValid := IsValid(a, xs);
    var currentValid := IsValid(b, ys);
    while lastValid && currentValid && Current(a, 0) != Current(b, 0)
      invariant Over(a, xs) && Over(b, ys) && Sent(xs, ys, a.at[0], b.at[0], changes') && i <= a.at[0] && j <= b.at[0]
      invariant lastValid == (a.at[0] < |xs|) && currentValid == (b.at[0] < |ys|)
      invariant lastValid ==> Ready(a, 0) && a.frames[0].idx < |a.frames[0].items| && Current(a, 0) == xs[a.at[0]]
      invariant currentValid ==> Ready(b, 0) && b.frames[0].idx < |b.frames[0].items| && Current(b, 0) == ys[b.at[0]]
      invariant (a.at[0] == i && b.at[0] == j) || i + j < a.at[0] + b.at[0]
      decreases |xs| + |ys| - a.at[0] - b.at[0]
    {
      changes' := SendDifference(a, b, xs, ys, changes');
      lastValid := IsValid(a, xs);
      currentValid := IsValid(b, ys);
    }
  }

  /** Sends what is left of one side, when the other is at its end. */
  method SendRest<D>(cur: Cursor<Entry<D>>, ghost zs: Entries<D>, ghost xs: Entries<D>, ghost ys: Entries<D>,
                     ghost i: nat, t: ChangeType, changes: seq<ValueChanged>)
    returns (changes': seq<ValueChanged>)
    requires Over(cur, zs) && (t == Removed || t == Added)
    requires t == Removed ==> zs == xs && (i == |ys| || cur.at[0] == |xs|) && Sent(xs, ys, cur.at[0], i, changes)
    requires t == Added ==> zs == ys && i == |xs| && Sent(xs, ys, i, cur.at[0], changes)
    modifies cur
    ensures t == Removed ==> Sent(xs, ys, |xs|, i, changes')
    ensures t == Added ==> Sent(xs, ys, i, |ys|, changes')
  {
    hide Placed, HasDepth, Sorted;
    changes' := changes;
    var valid := IsValid(cur, zs);
    while valid
      invariant Over(cur, zs) && valid == (cur.at[0] < |zs|)
      invariant valid ==> cur.frames[0].idx < |cur.frames[0].items| && Current(cur, 0) == zs[cur.at[0]]
      invariant t == Removed ==> (i == |ys| || cur.at[0] == |xs|) && Sent(xs, ys, cur.at[0], i, changes')
      invariant t == Added ==> Sent(xs, ys, i, cur.at[0], changes')
      decreases |zs| - cur.at[0]
    {
      ghost var p := cur.at[0];
      var change := ValueChanged(t, Key(Current(cur, 0)));
      Advance(cur, zs);
      if t == Removed {
        SendOne(xs, ys, p, i, changes', change, p + 1, i);
      } else {
        SendOne(xs, ys, i, p, changes', change, i, p + 1);
      }
      changes' := changes' + [change];
      valid := IsValid(cur, zs);
    }
  }

  /** The left-right diff of any two ordered trees is exactly the diff of their entries. */
  method OrderedSequenceDiffLeftRight<D(==)>(last: Collection<D>, current: Collection<D>)
    returns (changes: seq<ValueChanged>)
    requires Ordered(last) && Ordered(current)
    ensures IsDiff(EntriesOf(last), EntriesOf(current), changes)
  {
    ghost var xs, ys := EntriesOf(last), EntriesOf(current);
    var a := NewCursor(last);
    var b := NewCursor(current);
    hide Placed, HasDepth, Sorted, DiffFrom, IsDiff;
    changes := SendCommon(a, b, xs, ys);
    changes := SendRest(a, xs, xs, ys, b.at[0], Removed, changes);
    changes := SendRest(b, ys, xs, ys, |xs|, Added, changes);
    AllSent(xs, ys, changes);
  }

  lemma AllSent<D>(xs: Entries<D>, ys: Entries<D>, changes: seq<ValueChanged>)
    requires Sorted(xs) && Sorted(ys) && Sent(xs, ys, |xs|, |ys|, changes)
    ensures IsDiff(xs, ys, changes)
  {
    DiffIsExact(xs, ys);
    assert changes + [] == changes;
  }

  /** Moves past what is equal, and sends the differences that follow. */
  method Round<D(==)>(a: Cursor<Entry<D>>, b: Cursor<Entry<D>>, ghost xs: Entries<D>, ghost ys: Entries<D>,
                      changes: seq<ValueChanged>)
    returns (changes': seq<ValueChanged>)
    requires a != b && Over(a, xs) && Over(b, ys) && a.at[0] < |xs| && b.at[0] < |ys|
             && Sent(xs, ys, a.at[0], b.at[0], changes)
    modifies a, b
    ensures Over(a, xs) && Over(b, ys) && Sent(xs, ys, a.at[0], b.at[0], changes')
    ensures old(a.at[0] + b.at[0]) < a.at[0] + b.at[0]
  {
    hide Placed, HasDepth, Sorted, DiffFrom, Sent;
    ghost var i, j := a.at[0], b.at[0];
    ghost var n := SkipEqual(a, b, xs, ys);
    SendNothing(xs, ys, i, j, changes, i + n, j + n);
    changes' := SendDifferences(a, b, xs, ys, changes);
  }

  lemma NothingYet<D>(xs: Entries<D>, ys: Entries<D>)
    ensures Sent(xs, ys, 0, 0, [])
  {
    assert [] + DiffFrom(xs, ys, 0, 0) == DiffFrom(xs, ys, 0, 0);
  }

  method SendCommon<D(==)>(a: Cursor<Entry<D>>, b: Cursor<Entry<D>>, ghost xs: Entries<D>, ghost ys: Entries<D>)
    returns (changes: seq<ValueChanged>)
    requires a != b && Over(a, xs) && Over(b, ys) && a.at[0] == b.at[0] == 0
    modifies a, b
    ensures Over(a, xs) && Over(b, ys) && Sent(xs, ys, a.at[0], b.at[0], changes)
            && (a.at[0] == |xs| || b.at[0] == |ys|)
  {
    hide Placed, HasDepth, Sorted, DiffFrom, Sent;
    changes := [];
    NothingYet(xs, ys);
    var lastValid := IsValid(a, xs);
    var currentValid := IsValid(b, ys);
    while lastValid && currentValid
      invariant Over(a, xs) && Over(b, ys) && Sent(xs, ys, a.at[0], b.at[0], changes)
      invariant lastValid == (a.at[0] < |xs|) && currentValid == (b.at[0] < |ys|)
      decreases |xs| + |ys| - a.at[0] - b.at[0]
    {
      changes := Round(a, b, xs, ys, changes);
      lastValid := IsValid(a, xs);
      currentValid := IsValid(b, ys);
    }
  }
}
