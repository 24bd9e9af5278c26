/** Diffs of sorted entries in parts: put together, and with entries left out. */
module DiffParts {
  import opened Options
  import opened OrderedDiff

  // ---------- diffs of concatenations ----------

  ghost function Changes<D>(xs: Entries<D>, ys: Entries<D>): seq<ValueChanged> {
    DiffFrom(xs, ys, 0, 0)
  }

  /** Every key of the one is below every key of the other. */
  ghost predicate Below<D>(xs: Entries<D>, ys: Entries<D>) {
    forall i, j :: 0 <= i < |xs| && 0 <= j < |ys| ==> Key(xs[i]) < Key(ys[j])
  }

  lemma SortedParts<D>(xs: Entries<D>, r: Entries<D>)
    requires Sorted(xs + r)
    ensures Sorted(xs) && Sorted(r) && Below(xs, r)
  {
    var all := xs + r;
    forall i, j | 0 <= i < |xs| && 0 <= j < |r| ensures Key(xs[i]) < Key(r[j]) {
      assert Key(all[i]) < Key(all[|xs| + j]);
    }
    forall i, j | 0 <= i < j < |r| ensures Key(r[i]) < Key(r[j]) {
      assert Key(all[|xs| + i]) < Key(all[|xs| + j]);
    }
    forall i, j | 0 <= i < j < |xs| ensures Key(xs[i]) < Key(xs[j]) {
      assert Key(all[i]) < Key(all[j]);
    }
  }

  /** What is sent first for `xs[i..]` and `ys[j..]`, and how far it gets in both. */
  ghost function First<D>(xs: Entries<D>, ys: Entries<D>, i: nat, j: nat): (r: (seq<ValueChanged>, nat, nat))
    requires i <= |xs| && j <= |ys| && i + j < |xs| + |ys|
    ensures i <= r.1 <= |xs| && j <= r.2 <= |ys| && i + j < r.1 + r.2
  {
    if i == |xs| || (j < |ys| && Key(ys[j]) < Key(xs[i])) then ([ValueChanged(Added, Key(ys[j]))], i, j + 1)
    else if j == |ys| || Key(xs[i]) < Key(ys[j]) then ([ValueChanged(Removed, Key(xs[i]))], i + 1, j)
    else (if xs[i] == ys[j] then [] else [ValueChanged(Modified, Key(xs[i]))], i + 1, j + 1)
  }

  lemma FirstSent<D>(xs: Entries<D>, ys: Entries<D>, i: nat, j: nat)
    requires i <= |xs| && j <= |ys| && i + j < |xs| + |ys|
    ensures var (c, i', j') := First(xs, ys, i, j); DiffFrom(xs, ys, i, j) == c + DiffFrom(xs, ys, i', j')
  {
  }

  lemma FirstShifted<D>(xs: Entries<D>, r: Entries<D>, ys: Entries<D>, a: Entries<D>, i: nat, j: nat)
    requires i <= |r| && j <= |a| && i + j < |r| + |a|
    ensures var (c, i', j') := First(r, a, i, j); First(xs + r, ys + a, |xs| + i, |ys| + j) == (c, |xs| + i', |ys| + j')
  {
    assert i < |r| ==> (xs + r)[|xs| + i] == r[i];
    assert j < |a| ==> (ys + a)[|ys| + j] == a[j];
  }

  lemma {:induction false} Shifted<D>(xs: Entries<D>, r: Entries<D>, ys: Entries<D>, a: Entries<D>, i: nat, j: nat)
    requires i <= |r| && j <= |a|
    ensures DiffFrom(xs + r, ys + a, |xs| + i, |ys| + j) == DiffFrom(r, a, i, j)
    decreases |r| - i + |a| - j
  {
    hide *;
    if i + j == |r| + |a| {
      NoneLeft(xs + r, ys + a);
      NoneLeft(r, a);
    } else {
      FirstSent(xs + r, ys + a, |xs| + i, |ys| + j);
      FirstSent(r, a, i, j);
      FirstShifted(xs, r, ys, a, i, j);
      Shifted(xs, r, ys, a, First(r, a, i, j).1, First(r, a, i, j).2);
    }
  }

  lemma NoneLeft<D>(xs: Entries<D>, ys: Entries<D>)
    ensures DiffFrom(xs, ys, |xs|, |ys|) == []
  {
  }

  /** While one of the first parts has something left, it comes first. */
  lemma FirstOfFirst<D>(xs: Entries<D>, r: Entries<D>, ys: Entries<D>, a: Entries<D>, i: nat, j: nat)
    requires Below(xs, a) && Below(ys, r) && i <= |xs| && j <= |ys| && i + j < |xs| + |ys|
    ensures First(xs + r, ys + a, i, j) == First(xs, ys, i, j)
  {
    assert i < |xs| ==> (xs + r)[i] == xs[i];
    assert j < |ys| ==> (ys + a)[j] == ys[j];
    assert r != [] ==> (xs + r)[|xs|] == r[0];
    assert a != [] ==> (ys + a)[|ys|] == a[0];
  }

  lemma {:induction false} JoinAt<D>(xs: Entries<D>, r: Entries<D>, ys: Entries<D>, a: Entries<D>, i: nat, j: nat)
    requires Below(xs, a) && Below(ys, r) && i <= |xs| && j <= |ys|
    ensures DiffFrom(xs + r, ys + a, i, j) == DiffFrom(xs, ys, i, j) + DiffFrom(r, a, 0, 0)
    decreases |xs| - i + |ys| - j
  {
    hide *;
    if i + j == |xs| + |ys| {
      NoneLeft(xs, ys);
      Shifted(xs, r, ys, a, 0, 0);
    } else {
      FirstSent(xs + r, ys + a, i, j);
      FirstSent(xs, ys, i, j);
      FirstOfFirst(xs, r, ys, a, i, j);
      var f := First(xs, ys, i, j);
      JoinAt(xs, r, ys, a, f.1, f.2);
      Assoc(f.0, DiffFrom(xs, ys, f.1, f.2), DiffFrom(r, a, 0, 0));
    }
  }

  lemma Assoc<T>(a: seq<T>, b: seq<T>, c: seq<T>)
    ensures a + (b + c) == a + b + c
  {
  }

  lemma {:induction false} NoneAlike<D>(xs: Entries<D>, i: nat)
    requires i <= |xs|
    ensures DiffFrom(xs, xs, i, i) == []
    decreases |xs| - i
  {
    if i < |xs| {
      NoneAlike(xs, i + 1);
    }
  }

  /** What both have behind everything else is no change. */
  lemma CommonTail<D>(xs: Entries<D>, ys: Entries<D>, t: Entries<D>)
    requires Below(xs, t) && Below(ys, t)
    ensures Changes(xs + t, ys + t) == Changes(xs, ys)
  {
    JoinAt(xs, t, ys, t, 0, 0);
    NoneAlike(t, 0);
  }

  /** Behind a common run, which separates it from the rest, the diff starts anew. */
  lemma Separated<D>(xs: Entries<D>, ys: Entries<D>, t: Entries<D>, r: Entries<D>, a: Entries<D>)
    requires Sorted(xs + t + r) && Sorted(ys + t + a) && (t == [] ==> xs == [] && ys == [])
    ensures Changes(xs + t + r, ys + t + a) == Changes(xs, ys) + Changes(r, a)
  {
    SortedParts(xs + t, r);
    SortedParts(ys + t, a);
    SortedParts(xs, t);
    SortedParts(ys, t);
    CommonTail(xs, ys, t);
    if t != [] {
      LastOf(xs, t, ys, a);
      LastOf(ys, t, xs, r);
    }
    JoinAt(xs + t, r, ys + t, a, 0, 0);
  }

  lemma LastOf<D>(xs: Entries<D>, t: Entries<D>, ys: Entries<D>, a: Entries<D>)
    requires Sorted(xs + t) && t != [] && Below(ys + t, a)
    ensures Below(xs + t, a)
  {
    var all, n := xs + t, |xs| + |t| - 1;
    assert all[n] == (ys + t)[|ys| + |t| - 1];
    forall i, j | 0 <= i < |all| && 0 <= j < |a| ensures Key(all[i]) < Key(a[j]) {
      assert i < n ==> Key(all[i]) < Key(all[n]);
      assert Key((ys + t)[|ys| + |t| - 1]) < Key(a[j]);
    }
  }

  // ---------- the diff is unique ----------

  /** Two diffs of the same entries are the same. */
  lemma {:induction false} DiffUnique<D>(xs: Entries<D>, ys: Entries<D>, c: seq<ValueChanged>, d: seq<ValueChanged>)
    requires IsDiff(xs, ys, c) && IsDiff(xs, ys, d)
    ensures c == d
  {
    forall x: ValueChanged ensures x in c <==> x in d {
      assert x == ValueChanged(x.changeType, x.key);
    }
    hide IsDiff;
    SameSorted(c, d);
  }

  lemma {:induction false} SameSorted(c: seq<ValueChanged>, d: seq<ValueChanged>)
    requires Increasing(c) && Increasing(d) && forall x :: x in c <==> x in d
    ensures c == d
  {
    SameEmpty(c, d);
    SameEmpty(d, c);
    if c != [] {
      SameFirst(c, d);
      SameRest(c, d);
      SameSorted(c[1..], d[1..]);
      assert c == [c[0]] + c[1..] && d == [d[0]] + d[1..];
    }
  }

  lemma SameEmpty(c: seq<ValueChanged>, d: seq<ValueChanged>)
    requires forall x :: x in c ==> x in d
    ensures d == [] ==> c == []
  {
    if c != [] {
      assert c[0] in c;
    }
  }

  lemma SameFirst(c: seq<ValueChanged>, d: seq<ValueChanged>)
    requires Increasing(c) && Increasing(d) && c != [] && d != [] && forall x :: x in c <==> x in d
    ensures c[0] == d[0]
  {
    assert c[0] in c && d[0] in d;
    var i :| 0 <= i < |d| && d[i] == c[0];
    var j :| 0 <= j < |c| && c[j] == d[0];
    assert d[0].key <= d[i].key && c[0].key <= c[j].key;
  }

  lemma SameRest(c: seq<ValueChanged>, d: seq<ValueChanged>)
    requires Increasing(c) && Increasing(d) && c != [] && d != [] && c[0] == d[0] && forall x :: x in c <==> x in d
    ensures Increasing(c[1..]) && Increasing(d[1..]) && forall x :: x in c[1..] <==> x in d[1..]
  {
    forall x ensures x in c[1..] ==> x in d[1..] {
      InRest(c, d, x);
    }
    forall x ensures x in d[1..] ==> x in c[1..] {
      InRest(d, c, x);
    }
  }

  lemma InRest(c: seq<ValueChanged>, d: seq<ValueChanged>, x: ValueChanged)
    requires Increasing(c) && c != [] && d != [] && c[0] == d[0] && forall x :: x in c <==> x in d
    ensures x in c[1..] ==> x in d[1..]
  {
    if x in c[1..] {
      var i :| 0 <= i < |c[1..]| && c[1..][i] == x;
      assert c[i + 1] == x && c[0].key < x.key && x in c;
      var j :| 0 <= j < |d| && d[j] == x;
      assert j > 0 && d[1..][j - 1] == x;
    }
  }

  // ---------- leaving out entries ----------

  lemma {:induction false} FindBoth<D>(xs: Entries<D>, r: Entries<D>, i: nat, k: nat)
    requires i <= |xs|
    ensures Find(xs + r, i, k) == if Find(xs, i, k).Some? then Find(xs, i, k) else Find(r, 0, k)
    decreases |xs| - i
  {
    if i < |xs| {
      assert (xs + r)[i] == xs[i];
      FindBoth(xs, r, i + 1, k);
    } else {
      FindShifted(xs, r, 0, k);
    }
  }

  lemma {:induction false} FindShifted<D>(xs: Entries<D>, r: Entries<D>, i: nat, k: nat)
    requires i <= |r|
    ensures Find(xs + r, |xs| + i, k) == Find(r, i, k)
    decreases |r| - i
  {
    if i < |r| {
      assert (xs + r)[|xs| + i] == r[i];
      FindShifted(xs, r, i + 1, k);
    }
  }

  lemma {:induction false} NotFound<D>(xs: Entries<D>, r: Entries<D>, i: nat, k: nat)
    requires Below(xs, r) && Find(r, 0, k).Some? && i <= |xs|
    ensures Find(xs, i, k) == None
    decreases |xs| - i
  {
    if i < |xs| {
      NotFound(xs, r, i + 1, k);
      var n := FoundAt(r, 0, k);
      assert Key(xs[i]) < Key(r[n]);
    }
  }

  lemma {:induction false} FoundAt<D>(r: Entries<D>, i: nat, k: nat) returns (n: nat)
    requires i <= |r| && Find(r, i, k).Some?
    ensures n < |r| && Key(r[n]) == k
    decreases |r| - i
  {
    n := i;
    if Key(r[i]) != k {
      n := FoundAt(r, i + 1, k);
    }
  }

  lemma {:induction false} NoChange<D>(r: Entries<D>, a: Entries<D>, i: nat)
    requires i <= |r| && i <= |a| && DiffFrom(r, a, i, i) == []
    ensures r[i..] == a[i..]
    decreases |r| - i
  {
    if i < |r| || i < |a| {
      FirstSent(r, a, i, i);
      assert r[i] == a[i];
      NoChange(r, a, i + 1);
      assert r[i..] == [r[i]] + r[i + 1..] && a[i..] == [a[i]] + a[i + 1..];
    }
  }

  lemma NoChanges<D>(r: Entries<D>, a: Entries<D>)
    requires Changes(r, a) == []
    ensures r == a
  {
    NoChange(r, a, 0);
    assert r[0..] == r && a[0..] == a;
  }

  /** The entries are those of two parts, which have no key in common. */
  ghost predicate Split<D>(xs: Entries<D>, kept: Entries<D>, out: Entries<D>) {
    && Sorted(xs) && Sorted(kept) && Sorted(out)
    && forall k :: Parted(Find(xs, 0, k), Find(kept, 0, k), Find(out, 0, k))
  }

  ghost predicate Parted<T>(x: Option<T>, kept: Option<T>, out: Option<T>) {
    x == (if kept.Some? then kept else out) && (kept.None? || out.None?)
  }

  /** A key is left out of the diff of the kept parts exactly if it is left out of both sides with the same entry. */
  lemma FateKept<T>(x: Option<T>, kept: Option<T>, out: Option<T>, y: Option<T>, kept': Option<T>, out': Option<T>)
    requires Parted(x, kept, out) && Parted(y, kept', out')
    ensures Fate(kept, kept') == Fate(x, y) <==> out == out'
  {
  }

  /** Leaving entries out of both sides leaves the diff as it is exactly if they are the same. */
  lemma {:induction false} SplitExactly<D>(xs: Entries<D>, kept: Entries<D>, out: Entries<D>,
                                           ys: Entries<D>, kept': Entries<D>, out': Entries<D>)
    requires Split(xs, kept, out) && Split(ys, kept', out')
    ensures Changes(kept, kept') == Changes(xs, ys) <==> out == out'
  {
    forall k: nat
      ensures Fate(Find(kept, 0, k), Find(kept', 0, k)) == Fate(Find(xs, 0, k), Find(ys, 0, k)) <==>
              Find(out, 0, k) == Find(out', 0, k) {
      FateKept(Find(xs, 0, k), Find(kept, 0, k), Find(out, 0, k), Find(ys, 0, k), Find(kept', 0, k), Find(out', 0, k));
    }
    DiffIsExact(kept, kept');
    DiffIsExact(xs, ys);
    hide Split, Find, DiffFrom;
    if out == out' {
      hide Fate;
      assert IsDiff(xs, ys, Changes(kept, kept'));
      DiffUnique(xs, ys, Changes(kept, kept'), Changes(xs, ys));
    } else {
      var k := DifferAt(out, out');
      SameFate(kept, kept', xs, ys, k);
    }
  }

  /** Equal diffs say the same of every key. */
  lemma SameFate<D>(xs: Entries<D>, ys: Entries<D>, xs': Entries<D>, ys': Entries<D>, k: nat)
    requires IsDiff(xs, ys, Changes(xs, ys)) && IsDiff(xs', ys', Changes(xs', ys'))
    ensures Changes(xs, ys) == Changes(xs', ys') ==>
              Fate(Find(xs, 0, k), Find(ys, 0, k)) == Fate(Find(xs', 0, k), Find(ys', 0, k))
  {
    hide Find, Fate, DiffFrom;
    var f, g := Fate(Find(xs, 0, k), Find(ys, 0, k)), Fate(Find(xs', 0, k), Find(ys', 0, k));
    assert f.Some? ==> ValueChanged(f.value, k) in Changes(xs, ys);
    assert g.Some? ==> ValueChanged(g.value, k) in Changes(xs', ys');
  }

  lemma DifferAt<D>(r: Entries<D>, a: Entries<D>) returns (k: nat)
    requires Sorted(r) && Sorted(a) && r != a
    ensures Find(r, 0, k) != Find(a, 0, k)
  {
    k := 0;
    if Changes(r, a) == [] {
      NoChanges(r, a);
    } else {
      var c := Changes(r, a)[0];
      k := c.key;
      assert ValueChanged(c.changeType, c.key) in Changes(r, a);
      Says(r, a, 0, 0, c.changeType, c.key);
    }
  }

  lemma SplitAll<D>(xs: Entries<D>)
    requires Sorted(xs)
    ensures Split(xs, xs, []) && Split(xs, [], xs)
  {
  }

  lemma SplitNone<D>(kept: Entries<D>, out: Entries<D>)
    requires Split([], kept, out)
    ensures kept == [] && out == []
  {
    assert kept != [] ==> Find(kept, 0, Key(kept[0])).Some?;
    assert out != [] ==> Find(out, 0, Key(out[0])).Some?;
  }

  /** What comes after everything else can be split on its own. */
  lemma SplitMore<D>(xs: Entries<D>, kept: Entries<D>, out: Entries<D>,
                     more: Entries<D>, kept': Entries<D>, out': Entries<D>)
    requires Split(xs, kept, out) && Split(more, kept', out') && Sorted(xs + more)
    ensures Split(xs + more, kept + kept', out + out')
  {
    SortedParts(xs, more);
    PartsBelow(xs, kept, out, more, kept', out');
    SortedJoin(kept, kept');
    SortedJoin(out, out');
    forall k: nat ensures Parted(Find(xs + more, 0, k), Find(kept + kept', 0, k), Find(out + out', 0, k)) {
      FindBoth(xs, more, 0, k);
      FindBoth(kept, kept', 0, k);
      FindBoth(out, out', 0, k);
      assert Parted(Find(xs, 0, k), Find(kept, 0, k), Find(out, 0, k));
      assert Parted(Find(more, 0, k), Find(kept', 0, k), Find(out', 0, k));
      if Find(more, 0, k).Some? {
        NotFound(xs, more, 0, k);
      }
    }
  }

  lemma SortedJoin<D>(xs: Entries<D>, ys: Entries<D>)
    requires Sorted(xs) && Sorted(ys) && Below(xs, ys)
    ensures Sorted(xs + ys)
  {
  }

  lemma PartsBelow<D>(xs: Entries<D>, kept: Entries<D>, out: Entries<D>,
                      more: Entries<D>, kept': Entries<D>, out': Entries<D>)
    requires Split(xs, kept, out) && Split(more, kept', out') && Below(xs, more)
    ensures Below(kept, kept') && Below(out, out')
  {
    forall i, j | 0 <= i < |kept| && 0 <= j < |kept'| ensures Key(kept[i]) < Key(kept'[j]) {
      FoundFor(kept, i, 0);
      FoundFor(kept', j, 0);
      KeysBelow(xs, more, Key(kept[i]), Key(kept'[j]));
    }
    forall i, j | 0 <= i < |out| && 0 <= j < |out'| ensures Key(out[i]) < Key(out'[j]) {
      FoundFor(out, i, 0);
      FoundFor(out', j, 0);
      KeysBelow(xs, more, Key(out[i]), Key(out'[j]));
    }
  }

  lemma {:induction false} FoundFor<D>(xs: Entries<D>, i: nat, n: nat)
    requires n <= i < |xs|
    ensures Find(xs, n, Key(xs[i])).Some?
    decreases i - n
  {
    if n < i {
      FoundFor(xs, i, n + 1);
    }
  }

  lemma KeysBelow<D>(xs: Entries<D>, ys: Entries<D>, k: nat, l: nat)
    requires Below(xs, ys) && Find(xs, 0, k).Some? && Find(ys, 0, l).Some?
    ensures k < l
  {
    var i := FoundAt(xs, 0, k);
    var j := FoundAt(ys, 0, l);
  }

  /** Leaving out the last parts of both sides leaves the diff as it is exactly if they are the same. */
  lemma {:induction false} HeadsExactly<D>(xs: Entries<D>, r: Entries<D>, ys: Entries<D>, a: Entries<D>)
    requires Sorted(xs + r) && Sorted(ys + a)
    ensures Changes(xs, ys) == Changes(xs + r, ys + a) <==> r == a
  {
    HeadSplit(xs, r);
    HeadSplit(ys, a);
    SplitExactly(xs + r, xs, r, ys + a, ys, a);
  }

  lemma HeadSplit<D>(xs: Entries<D>, r: Entries<D>)
    requires Sorted(xs + r)
    ensures Split(xs + r, xs, r)
  {
    SortedParts(xs, r);
    SplitAll(xs);
    SplitAll(r);
    SplitMore(xs, xs, [], r, [], r);
    assert xs + [] == xs && [] + r == r;
  }
}
