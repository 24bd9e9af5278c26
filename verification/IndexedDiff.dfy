/** Diffing two lists through their trees, one level at a time. */
module IndexedDiff {
  import opened Chunking
  import opened ProllyTree
  import opened Splices
  import opened EditDistance

  /** A level that is uniformly `h` deep and whose tuples count their values. */
  ghost predicate Tree<V>(items: Level<V>, h: nat) {
    HasDepth(items, h) && Counted(items, h)
  }

  /** How many values are under the first `k` items. */
  ghost function Under<V>(items: Level<V>, k: nat): nat
    requires k <= |items|
  {
    |Leaves(items, k)|
  }

  /** The position of the first value under item `k`, for a level whose values start at `o`. */
  ghost function Pos<V>(o: nat, items: Level<V>, k: nat): nat
    requires k <= |items|
  {
    o + Under(items, k)
  }

  /** The values of a level are those of `all` from `o` on. */
  ghost predicate PartAt<V>(all: Level<V>, o: nat, items: Level<V>) {
    Pos(o, items, |items|) <= |all| && all[o..Pos(o, items, |items|)] == Leaves(items, |items|)
  }

  // ---------- composite children ----------

  /** The items of the chunks from `a` to `b`, one after the other. */
  function Composite<V>(items: Level<V>, a: nat, b: nat): Level<V>
    requires a <= b <= |items|
  {
    if a == b then [] else Composite(items, a, b - 1) + ItemsOf(items[b - 1])
  }

  method GetCompositeChildSequence<V>(items: Level<V>, start: nat, length: nat) returns (metaItems: Level<V>)
    requires start + length <= |items|
    ensures metaItems == Composite(items, start, start + length)
  {
    metaItems := [];
    for i := start to start + length
      invariant metaItems == Composite(items, start, i)
    {
      metaItems := metaItems + ItemsOf(items[i]);
    }
  }

  method CumulativeNumberOfLeaves<V>(items: Level<V>, idx: nat) returns (n: nat)
    requires idx < |items|
    ensures n == LeafSum(items, idx + 1)
  {
    n := 0;
    for i := 0 to idx + 1
      invariant n == LeafSum(items, i)
    {
      n := n + LeafCount(items[i]);
    }
  }

  /** The position, among the values, of the first one under item `index`. */
  method LeavesBefore<V>(items: Level<V>, index: nat, ghost h: nat) returns (n: nat)
    requires Tree(items, h) && index <= |items|
    ensures n == Under(items, index)
  {
    n := 0;
    if index > 0 {
      n := CumulativeNumberOfLeaves(items, index - 1);
      LeafSumIsCount(items, h, index);
    }
  }

  lemma {:induction false} CompositeNone<V>(items: Level<V>, a: nat)
    requires a <= |items|
    ensures Composite(items, a, a) == [] && Leaves(Composite(items, a, a), 0) == []
            && Leaves(items, a) + [] == Leaves(items, a)
  {
  }

  lemma {:induction false} CompositeNext<V>(items: Level<V>, a: nat, b: nat)
    requires a < b <= |items|
    ensures Composite(items, a, b) == Composite(items, a, b - 1) + ItemsOf(items[b - 1])
    ensures Leaves(items, b) == Leaves(items, b - 1) + LeavesOf(items[b - 1])
  {
  }

  /** A level below another: as deep as it should be, counted if that is, and with the same values. */
  lemma {:induction false} CompositeLeaves<V>(items: Level<V>, h: nat, a: nat, b: nat)
    requires HasDepth(items, h) && h > 0 && a <= b <= |items|
    ensures HasDepth(Composite(items, a, b), h - 1) && (Counted(items, h) ==> Counted(Composite(items, a, b), h - 1))
    ensures Leaves(items, b) == Leaves(items, a) + Leaves(Composite(items, a, b), |Composite(items, a, b)|)
  {
    hide *;
    if a == b {
      CompositeNone(items, a);
      NoTree<V>(h - 1);
    } else {
      var init, more := Composite(items, a, b - 1), ItemsOf(items[b - 1]);
      CompositeNext(items, a, b);
      CompositeLeaves(items, h, a, b - 1);
      ChildTree(items, h, b - 1);
      TreeConcat(init, more, h - 1);
      LeavesConcat(init, more, |more|);
      Regroup(Leaves(items, a), Leaves(items, b - 1), Leaves(init, |init|), Leaves(more, |more|));
    }
  }

  lemma NoTree<V>(h: nat)
    ensures HasDepth<V>([], h) && Counted<V>([], h)
  {
  }

  lemma ChildTree<V>(items: Level<V>, h: nat, i: nat)
    requires HasDepth(items, h) && h > 0 && i < |items|
    ensures HasDepth(ItemsOf(items[i]), h - 1) && (Counted(items, h) ==> Counted(ItemsOf(items[i]), h - 1))
    ensures LeavesOf(items[i]) == Leaves(ItemsOf(items[i]), |ItemsOf(items[i])|)
  {
    assert items[i].value.Chunk?;
  }

  lemma TreeConcat<V>(xs: Level<V>, ys: Level<V>, h: nat)
    requires HasDepth(xs, h) && HasDepth(ys, h)
    ensures HasDepth(xs + ys, h) && (Counted(xs, h) && Counted(ys, h) ==> Counted(xs + ys, h))
  {
  }

  lemma {:induction false} LeavesGrow<V>(items: Level<V>, h: nat, a: nat, b: nat)
    requires HasDepth(items, h) && a <= b <= |items|
    ensures Under(items, a) + (b - a) <= Under(items, b)
    decreases h, 1, b
  {
    if a < b {
      LeavesGrow(items, h, a, b - 1);
      LeavesOfSome(items[b - 1], h, items, b - 1);
    }
  }

  lemma {:induction false} LeavesPrefix<V>(items: Level<V>, a: nat, b: nat)
    requires a <= b <= |items|
    ensures Leaves(items, a) <= Leaves(items, b)
  {
    if a < b {
      LeavesPrefix(items, a, b - 1);
    }
  }

  /** Items further on have their values further on. */
  lemma PosGrow<V>(all: Level<V>, o: nat, items: Level<V>, h: nat, a: nat, b: nat)
    requires Tree(items, h) && PartAt(all, o, items) && a <= b <= |items|
    ensures o <= Pos(o, items, a) && Pos(o, items, a) + (b - a) <= Pos(o, items, b) <= |all|
  {
    LeavesGrow(items, h, a, b);
    LeavesGrow(items, h, b, |items|);
  }

  lemma {:induction false} LeavesOfSome<V>(item: Item<Node<V>>, h: nat, items: Level<V>, i: nat)
    requires HasDepth(items, h) && i < |items| && item == items[i]
    ensures LeavesOf(item) != []
    decreases h, 0
  {
    if h > 0 {
      var c := item.value.items;
      LeavesGrow(c, h - 1, 0, |c|);
    } else {
      assert items[i].value.Value?;
    }
  }

  /** The values of the composite children of a level are those between the positions that the counts give. */
  lemma CompositePart<V>(all: Level<V>, o: nat, items: Level<V>, h: nat, a: nat, b: nat)
    requires Tree(items, h) && h > 0 && a <= b <= |items| && PartAt(all, o, items)
    ensures var c := Composite(items, a, b);
            && Tree(c, h - 1) && PartAt(all, Pos(o, items, a), c) && Under(c, |c|) == Under(items, b) - Under(items, a)
  {
    var c := Composite(items, a, b);
    CompositeLeaves(items, h, a, b);
    LeavesPrefix(items, b, |items|);
    SliceOf(all, o, Leaves(items, |items|), Leaves(items, b), Leaves(items, a), Leaves(c, |c|));
  }

  lemma SliceOf<T>(all: seq<T>, o: nat, l: seq<T>, k: seq<T>, x: seq<T>, y: seq<T>)
    requires o + |l| <= |all| && all[o..o + |l|] == l && k <= l && k == x + y
    ensures all[o + |x|..o + |x| + |y|] == y
  {
    forall i | 0 <= i < |y| ensures all[o + |x| + i] == y[i] {
      assert all[o + |x| + i] == all[o..o + |l|][|x| + i] == k[|x| + i];
    }
  }

  // ---------- splices of a diff ----------

  /** Where splice `k` of a diff stands: what the splices before it lead up to, and what is kept between. */
  lemma SpliceAt<T>(p: seq<T>, c: seq<T>, sp: seq<Splice>, k: nat) returns (i: nat, j: nat, j': nat)
    requires IsDiff(p, c, sp) && k < |sp|
    ensures Stands(p, c, sp[..k], sp[k], i, j, j') && (k > 0 ==> i < sp[k].at)
    ensures End(sp[..k + 1]) == sp[k].at + sp[k].removed && Shift(sp[..k + 1]) == j' + sp[k].added - End(sp[..k + 1])
  {
    FitPrefix(p, c, sp, k + 1);
    assert sp[..k + 1] == sp[..k] + [sp[k]];
    i, j, j' := StandsNext(p, c, sp[..k], sp[k], Built(p, c, sp), p[End(sp)..]);
  }

  ghost predicate Stands<T>(p: seq<T>, c: seq<T>, init: seq<Splice>, s: Splice, i: nat, j: nat, j': nat) {
    && i == End(init) && j == i + Shift(init) && i <= s.at && j' == j + (s.at - i)
    && s.at + s.removed <= |p| && j' + s.added <= |c| && s.removed + s.added > 0
    && s.from == (if s.added > 0 then j' else 0)
    && forall n :: i <= n < s.at ==> p[n] == c[n - i + j]
  }

  lemma StandsNext<T>(p: seq<T>, c: seq<T>, init: seq<Splice>, s: Splice, all: seq<T>, rest: seq<T>)
    returns (i: nat, j: nat, j': nat)
    requires Fit(p, c, init + [s]) && Gapped(init + [s]) && Aligned(init + [s])
    requires Built(p, c, init + [s]) <= all && all + rest == c
    ensures Stands(p, c, init, s, i, j, j') && (init != [] ==> i < s.at)
    ensures End(init + [s]) == s.at + s.removed && Shift(init + [s]) == j' + s.added - End(init + [s])
  {
    hide Gapped, Aligned, Fit, Built, End, Shift;
    Snoc(p, c, init, s);
    SnocAligned(init, s);
    BuiltLength(p, c, init);
    i, j := End(init), End(init) + Shift(init);
    j' := j + (s.at - i);
    Between(p, c, Built(p, c, init), p[i..s.at], c[s.from..s.from + s.added], all, rest, i);
  }

  lemma Between<T>(p: seq<T>, c: seq<T>, b: seq<T>, kept: seq<T>, added: seq<T>, all: seq<T>, rest: seq<T>, i: nat)
    requires b + kept + added <= all && all + rest == c && i + |kept| <= |p| && kept == p[i..i + |kept|]
    ensures |b| + |kept| + |added| <= |c|
    ensures forall n :: i <= n < i + |kept| ==> p[n] == c[n - i + |b|]
  {
    PrefixOf(b, kept, added, all, rest, c);
    forall n | i <= n < i + |kept| ensures p[n] == c[n - i + |b|] {
      assert p[n] == kept[n - i] == c[|b|..|b| + |kept|][n - i];
    }
  }

  lemma PrefixOf<T>(b: seq<T>, kept: seq<T>, added: seq<T>, all: seq<T>, rest: seq<T>, c: seq<T>)
    requires b + kept + added <= all && all + rest == c
    ensures |b| + |kept| + |added| <= |c| && c[|b|..|b| + |kept|] == kept
  {
    assert all == c[..|all|];
    assert b + kept + added == all[..|b| + |kept| + |added|];
    assert (b + kept + added)[|b|..|b| + |kept|] == kept;
  }

  /** What is kept after the last splice of a diff. */
  lemma AfterLast<T>(p: seq<T>, c: seq<T>, sp: seq<Splice>) returns (i: nat, j: nat)
    requires IsDiff(p, c, sp)
    ensures i == End(sp) <= |p| && j == i + Shift(sp) && |p| - i == |c| - j && j <= |c|
    ensures forall n :: i <= n < |p| ==> p[n] == c[n - i + j]
  {
    FitEnd(p, c, sp);
    BuiltLength(p, c, sp);
    i, j := End(sp), End(sp) + Shift(sp);
    forall n | i <= n < |p| ensures p[n] == c[n - i + j] {
      assert (Built(p, c, sp) + p[i..])[n - i + j] == p[i..][n - i];
    }
  }

  // ---------- one splice ----------

  /** The splices sent so far turn the first `i` values of `p` into the first `j` values of `c`. */
  ghost predicate Sent<T>(p: seq<T>, c: seq<T>, sent: seq<Splice>, i: nat, j: nat) {
    Turns(p, c, sent, i, j) && Gapped(sent) && Aligned(sent)
  }

  /** Sending a splice whose elements come next. */
  lemma SendNext<T>(p: seq<T>, c: seq<T>, sent: seq<Splice>, s: Splice, j: nat)
    requires Sent(p, c, sent, s.at, j) && (sent == [] || End(sent) < s.at) && s.removed + s.added > 0
    requires s.at + s.removed <= |p| && j + s.added <= |c| && s.from == if s.added > 0 then j else 0
    ensures Sent(p, c, sent + [s], s.at + s.removed, j + s.added)
  {
    TurnsLength(p, c, sent, s.at, j);
    Add(p, c, sent, s, j);
    Snoc(p, c, sent, s);
    SnocAligned(sent, s);
  }

  /** The values under `n` items from `i` on. */
  ghost function Range<V>(items: Level<V>, i: nat, n: nat): Level<V>
    requires i + n <= |items|
  {
    if n == 0 then [] else Range(items, i, n - 1) + LeavesOf(items[i + n - 1])
  }

  lemma {:induction false} RangeSplit<V>(items: Level<V>, i: nat, n: nat)
    requires i + n <= |items|
    ensures Leaves(items, i + n) == Leaves(items, i) + Range(items, i, n)
  {
    if n > 0 {
      RangeSplit(items, i, n - 1);
      assert i + n - 1 == i + (n - 1);
      assert Leaves(items, i) + (Range(items, i, n - 1) + LeavesOf(items[i + n - 1]))
          == Leaves(items, i) + Range(items, i, n - 1) + LeavesOf(items[i + n - 1]);
    }
  }

  /** Items that are kept have the same values. */
  lemma {:induction false} RangeSame<V>(xs: Level<V>, ys: Level<V>, i: nat, j: nat, n: nat)
    requires i + n <= |xs| && j + n <= |ys|
    requires forall k :: i <= k < i + n ==> xs[k] == ys[k - i + j]
    ensures Range(xs, i, n) == Range(ys, j, n)
  {
    if n > 0 {
      RangeSame(xs, ys, i, j, n - 1);
      assert xs[i + n - 1] == ys[i + n - 1 - i + j];
    }
  }

  lemma RangePart<V>(all: Level<V>, o: nat, items: Level<V>, h: nat, i: nat, i': nat) returns (l: Level<V>)
    requires Tree(items, h) && PartAt(all, o, items) && i <= i' <= |items|
    ensures l == Range(items, i, i' - i) && Pos(o, items, i') == Pos(o, items, i) + |l| <= |all|
    ensures all[Pos(o, items, i)..Pos(o, items, i) + |l|] == l
  {
    l := Range(items, i, i' - i);
    RangeSplit(items, i, i' - i);
    LeavesPrefix(items, i', |items|);
    SliceOf(all, o, Leaves(items, |items|), Leaves(items, i'), Leaves(items, i), l);
  }

  lemma KeepSlice<T>(p: seq<T>, c: seq<T>, sent: seq<Splice>, a: nat, b: nat, l: seq<T>)
    requires Sent(p, c, sent, a, b) && a + |l| <= |p| && b + |l| <= |c| && p[a..a + |l|] == l && c[b..b + |l|] == l
    ensures Sent(p, c, sent, a + |l|, b + |l|)
  {
    forall k | a <= k < a + |l| ensures p[k] == c[k - a + b] {
      assert p[k] == p[a..a + |l|][k - a] && c[k - a + b] == c[b..b + |l|][k - a];
    }
    KeepRun(p, c, sent, a, b, |l|);
  }

  /** Keeping items of both levels keeps their values. */
  lemma KeepItems<V>(p: Level<V>, c: Level<V>, sent: seq<Splice>, lo: nat, co: nat, xs: Level<V>, ys: Level<V>, h: nat,
                     i: nat, j: nat, i': nat, j': nat)
    requires Tree(xs, h) && Tree(ys, h) && PartAt(p, lo, xs) && PartAt(c, co, ys)
    requires i <= i' <= |xs| && j <= j' <= |ys| && i' - i == j' - j
             && forall k :: i <= k < i' ==> xs[k] == ys[k - i + j]
    requires Sent(p, c, sent, Pos(lo, xs, i), Pos(co, ys, j))
    ensures Sent(p, c, sent, Pos(lo, xs, i'), Pos(co, ys, j'))
  {
    hide Tree, PartAt, Under, Range;
    RangeSame(xs, ys, i, j, i' - i);
    var l := RangePart(p, lo, xs, h, i, i');
    var m := RangePart(c, co, ys, h, j, j');
    KeepSlice(p, c, sent, Pos(lo, xs, i), Pos(co, ys, j), l);
  }

  /** Splice `s` of a level comes next: everything before it, in both levels, has been dealt with. */
  ghost predicate Next<V>(p: Level<V>, c: Level<V>, sent: seq<Splice>, lo: nat, co: nat, xs: Level<V>, ys: Level<V>,
                          s: Splice, j: nat) {
    && Within(xs, ys, s) && s.removed + s.added > 0 && j + s.added <= |ys| && s.from == (if s.added > 0 then j else 0)
    && Sent(p, c, sent, Pos(lo, xs, s.at), Pos(co, ys, j)) && (sent == [] || End(sent) < Pos(lo, xs, s.at))
  }

  ghost predicate Within<V>(xs: Level<V>, ys: Level<V>, s: Splice) {
    s.at + s.removed <= |xs| && s.from + s.added <= |ys|
  }

  /** Splice `s` of a level has been dealt with. */
  ghost predicate After<V>(p: Level<V>, c: Level<V>, sent: seq<Splice>, lo: nat, co: nat, xs: Level<V>, ys: Level<V>,
                           s: Splice, j: nat) {
    && Within(xs, ys, s) && j + s.added <= |ys|
    && Sent(p, c, sent, Pos(lo, xs, s.at + s.removed), Pos(co, ys, j + s.added))
  }

  /** The splice of the values that a splice of whole items stands for. */
  lemma LiftSplice<V>(p: Level<V>, c: Level<V>, sent: seq<Splice>, lo: nat, co: nat, xs: Level<V>, ys: Level<V>, h: nat,
                      s: Splice, j: nat, t: Splice)
    requires Tree(xs, h) && Tree(ys, h) && PartAt(p, lo, xs) && PartAt(c, co, ys)
             && Next(p, c, sent, lo, co, xs, ys, s, j)
    requires t.at == Pos(lo, xs, s.at) && t.at + t.removed == Pos(lo, xs, s.at + s.removed)
    requires Pos(co, ys, j) + t.added == Pos(co, ys, j + s.added) && t.from == if t.added > 0 then Pos(co, ys, j) else 0
    ensures After(p, c, sent + [t], lo, co, xs, ys, s, j)
  {
    PosGrow(p, lo, xs, h, s.at, s.at + s.removed);
    PosGrow(c, co, ys, h, j, j + s.added);
    SendNext(p, c, sent, t, Pos(co, ys, j));
  }

  lemma {:induction false} LeafUnder<V>(items: Level<V>, k: nat)
    requires HasDepth(items, 0) && k <= |items|
    ensures Under(items, k) == k
  {
    ValuesFlatten(items, k);
  }

  /** At the leaves a splice is only moved to where the leaves are. */
  method LeafSplice<V>(ghost p: Level<V>, ghost c: Level<V>, sent: seq<Splice>, last: Level<V>, lastOffset: nat,
                       current: Level<V>, currentOffset: nat, splice: Splice, ghost j: nat)
    returns (sent': seq<Splice>)
    requires Tree(last, 0) && Tree(current, 0) && PartAt(p, lastOffset, last) && PartAt(c, currentOffset, current)
    ensures sent' == sent + [LeafSent(lastOffset, currentOffset, splice)]
    ensures Next(p, c, sent, lastOffset, currentOffset, last, current, splice, j) ==>
              After(p, c, sent', lastOffset, currentOffset, last, current, splice, j)
  {
    var t := splice.(at := splice.at + lastOffset);
    if t.added > 0 {
      t := t.(from := t.from + currentOffset);
    }
    sent' := sent + [t];
    if Next(p, c, sent, lastOffset, currentOffset, last, current, splice, j) {
      LeafUnder(last, splice.at);
      LeafUnder(last, splice.at + splice.removed);
      LeafUnder(current, j);
      LeafUnder(current, j + splice.added);
      LiftSplice(p, c, sent, lastOffset, currentOffset, last, current, 0, splice, j, t);
    }
  }

  lemma NextFrom<V>(p: Level<V>, c: Level<V>, sent: seq<Splice>, lo: nat, co: nat, xs: Level<V>, ys: Level<V>,
                    s: Splice, j: nat)
    requires Next(p, c, sent, lo, co, xs, ys, s, j)
    ensures j + s.added <= |ys| && s.from == if s.added > 0 then j else 0
  {
  }

  /** Whole subtrees removed, or whole subtrees added. */
  method SubtreeSplice<V>(ghost p: Level<V>, ghost c: Level<V>, sent: seq<Splice>, last: Level<V>, lastOffset: nat,
                          current: Level<V>, currentOffset: nat, ghost h: nat, splice: Splice, ghost j: nat)
    returns (sent': seq<Splice>)
    requires Tree(last, h) && Tree(current, h) && PartAt(p, lastOffset, last) && PartAt(c, currentOffset, current)
    requires Within(last, current, splice)
    ensures sent' == sent + [SubtreeSent(last, lastOffset, current, currentOffset, splice)]
    ensures Next(p, c, sent, lastOffset, currentOffset, last, current, splice, j) ==>
              After(p, c, sent', lastOffset, currentOffset, last, current, splice, j)
  {
    hide Tree, PartAt, Next, After, Under;
    var beginRemoveIndex := LeavesBefore(last, splice.at, h);
    var endRemoveIndex := LeavesBefore(last, splice.at + splice.removed, h);
    var beginAddIndex := LeavesBefore(current, splice.from, h);
    var endAddIndex := LeavesBefore(current, splice.from + splice.added, h);
    PosGrow(p, lastOffset, last, h, splice.at, splice.at + splice.removed);
    PosGrow(c, currentOffset, current, h, splice.from, splice.from + splice.added);
    var t := Splice(lastOffset + beginRemoveIndex, endRemoveIndex - beginRemoveIndex, endAddIndex - beginAddIndex,
                    splice.from);
    if t.added > 0 {
      t := t.(from := currentOffset + beginAddIndex);
    }
    sent' := sent + [t];
    if Next(p, c, sent, lastOffset, currentOffset, last, current, splice, j) {
      NextFrom(p, c, sent, lastOffset, currentOffset, last, current, splice, j);
      LiftSplice(p, c, sent, lastOffset, currentOffset, last, current, h, splice, j, t);
    }
  }

  // ---------- which splices are sent ----------

  ghost function Monus(a: nat, b: nat): nat {
    if a >= b then a - b else 0
  }

  /** The splice of the values for one of the leaves. */
  ghost function LeafSent(lastOffset: nat, currentOffset: nat, s: Splice): Splice {
    s.(at := s.at + lastOffset, from := if s.added > 0 then s.from + currentOffset else s.from)
  }

  /** The splice of the values for whole subtrees. */
  ghost function SubtreeSent<V>(last: Level<V>, lastOffset: nat, current: Level<V>, currentOffset: nat,
                                s: Splice): Splice
    requires Within(last, current, s)
  {
    var added := Monus(Under(current, s.from + s.added), Under(current, s.from));
    Splice(Pos(lastOffset, last, s.at), Monus(Under(last, s.at + s.removed), Under(last, s.at)), added,
           if added > 0 then Pos(currentOffset, current, s.from) else s.from)
  }

  /** The splices sent for two sequences: the same two sequences always give the same splices. */
  ghost function Diffed<V>(last: Level<V>, lastHeight: nat, lastOffset: nat, current: Level<V>, currentHeight: nat,
                           currentOffset: nat, limit: nat): seq<Splice>
    decreases lastHeight + currentHeight, 1, 0
  {
    if lastHeight > currentHeight then
      Diffed(Composite(last, 0, |last|), lastHeight - 1, lastOffset, current, currentHeight, currentOffset, limit)
    else if currentHeight > lastHeight then
      Diffed(last, lastHeight, lastOffset, Composite(current, 0, |current|), currentHeight - 1, currentOffset, limit)
    else
      var splices := SpliceList(last, current, limit);
      DiffedUpTo(last, lastHeight, lastOffset, current, currentOffset, limit, splices, |splices|)
  }

  ghost function DiffedUpTo<V>(last: Level<V>, height: nat, lastOffset: nat, current: Level<V>, currentOffset: nat,
                               limit: nat, splices: seq<Splice>, k: nat): seq<Splice>
    requires k <= |splices|
    decreases height + height, 0, k
  {
    if k == 0 then []
    else
      DiffedUpTo(last, height, lastOffset, current, currentOffset, limit, splices, k - 1) +
      DiffedOne(last, height, lastOffset, current, currentOffset, limit, splices[k - 1])
  }

  ghost function DiffedOne<V>(last: Level<V>, height: nat, lastOffset: nat, current: Level<V>, currentOffset: nat,
                              limit: nat, s: Splice): seq<Splice>
    decreases height + height, 0, 0
  {
    if !Within(last, current, s) then []
    else if height == 0 then [LeafSent(lastOffset, currentOffset, s)]
    else if s.removed == 0 || s.added == 0 then [SubtreeSent(last, lastOffset, current, currentOffset, s)]
    else
      Diffed(Composite(last, s.at, s.at + s.removed), height - 1, Pos(lastOffset, last, s.at),
             Composite(current, s.from, s.from + s.added), height - 1, Pos(currentOffset, current, s.from), limit)
  }

  // ---------- the limit ----------

  /** No level that the diff compares exceeds the matrix limit, unless its two sides share no prefix. */
  ghost predicate AllWithin<V>(last: Level<V>, lastHeight: nat, current: Level<V>, currentHeight: nat, limit: nat)
    decreases lastHeight + currentHeight, 1
  {
    if lastHeight > currentHeight then AllWithin(Composite(last, 0, |last|), lastHeight - 1, current, currentHeight,
                                                 limit)
    else if currentHeight > lastHeight then AllWithin(last, lastHeight, Composite(current, 0, |current|),
                                                      currentHeight - 1, limit)
    else
      && Exact(last, current, limit)
      && forall s :: s in SpliceList(last, current, limit) ==> BelowWithin(last, lastHeight, current, s, limit)
  }

  ghost predicate BelowWithin<V>(last: Level<V>, height: nat, current: Level<V>, s: Splice, limit: nat)
    decreases height + height, 0
  {
    height > 0 && s.removed > 0 && s.added > 0 && Within(last, current, s) ==>
      AllWithin(Composite(last, s.at, s.at + s.removed), height - 1, Composite(current, s.from, s.from + s.added),
                height - 1, limit)
  }

  lemma Product(a: nat, b: nat, c: nat, d: nat)
    requires a <= c && b <= d
    ensures a * b <= c * d
  {
    assert a * b <= a * d <= c * d;
  }

  /** A limit of the product of the numbers of values is always enough. */
  lemma {:induction false} SmallIsWithin<V>(last: Level<V>, lastHeight: nat, current: Level<V>, currentHeight: nat,
                                            limit: nat)
    requires Tree(last, lastHeight) && Tree(current, currentHeight)
    requires Under(last, |last|) * Under(current, |current|) <= limit
    ensures AllWithin(last, lastHeight, current, currentHeight, limit)
    decreases lastHeight + currentHeight, 1
  {
    hide Tree, Under, BelowWithin, Large, Shared, SpliceList;
    if lastHeight > currentHeight {
      ChildSmaller(last, lastHeight, 0, |last|);
      Product(Under(Composite(last, 0, |last|), |Composite(last, 0, |last|)|), Under(current, |current|),
              Under(last, |last|), Under(current, |current|));
      SmallIsWithin(Composite(last, 0, |last|), lastHeight - 1, current, currentHeight, limit);
    } else if currentHeight > lastHeight {
      ChildSmaller(current, currentHeight, 0, |current|);
      Product(Under(last, |last|), Under(Composite(current, 0, |current|), |Composite(current, 0, |current|)|),
              Under(last, |last|), Under(current, |current|));
      SmallIsWithin(last, lastHeight, Composite(current, 0, |current|), currentHeight - 1, limit);
    } else {
      NotLarge(last, lastHeight, current, limit);
      forall s | s in SpliceList(last, current, limit) ensures BelowWithin(last, lastHeight, current, s, limit) {
        SmallBelow(last, lastHeight, current, s, limit);
      }
    }
  }

  lemma {:induction false} SmallBelow<V>(last: Level<V>, height: nat, current: Level<V>, s: Splice, limit: nat)
    requires Tree(last, height) && Tree(current, height) && Under(last, |last|) * Under(current, |current|) <= limit
    ensures BelowWithin(last, height, current, s, limit)
    decreases height + height, 0
  {
    hide Tree, AllWithin, Under;
    if height > 0 && s.removed > 0 && s.added > 0 && Within(last, current, s) {
      var lastChild, currentChild := Composite(last, s.at, s.at + s.removed),
        Composite(current, s.from, s.from + s.added);
      ChildSmaller(last, height, s.at, s.at + s.removed);
      ChildSmaller(current, height, s.from, s.from + s.added);
      Product(Under(lastChild, |lastChild|), Under(currentChild, |currentChild|), Under(last, |last|),
              Under(current, |current|));
      SmallIsWithin(lastChild, height - 1, currentChild, height - 1, limit);
    }
  }

  lemma ChildSmaller<V>(items: Level<V>, h: nat, a: nat, b: nat)
    requires Tree(items, h) && h > 0 && a <= b <= |items|
    ensures var c := Composite(items, a, b); Tree(c, h - 1) && Under(c, |c|) <= Under(items, |items|)
  {
    CompositeLeaves(items, h, a, b);
    LeavesGrow(items, h, b, |items|);
  }

  lemma NotLarge<V>(last: Level<V>, h: nat, current: Level<V>, limit: nat)
    requires Tree(last, h) && Tree(current, h) && Under(last, |last|) * Under(current, |current|) <= limit
    ensures !Large(last, current, limit)
  {
    LeavesGrow(last, h, 0, |last|);
    LeavesGrow(current, h, 0, |current|);
    hide Tree;
    var (prefix, suffix) := Shared(last, current);
    SmallMatrix(|last| - prefix - suffix, |current| - prefix - suffix, Under(last, |last|), Under(current, |current|),
                limit);
  }

  lemma SmallMatrix(a: nat, b: nat, c: nat, d: nat, limit: nat)
    requires a <= c && b <= d && c * d <= limit
    ensures !TooLarge(a, b, limit)
  {
    Product(a, b, c, d);
  }

  // ---------- all levels ----------

  /** Both sequences are at their offsets in the whole, and small enough for 64-bit positions. */
  ghost predicate Setting<V>(p: Level<V>, c: Level<V>, last: Level<V>, lastHeight: nat, lastOffset: nat,
                             current: Level<V>, currentHeight: nat, currentOffset: nat) {
    && Tree(last, lastHeight) && Tree(current, currentHeight) && PartAt(p, lastOffset, last)
       && PartAt(c, currentOffset, current)
    && |p| < SPLICE_UNASSIGNED && |c| < SPLICE_UNASSIGNED
  }

  /** Everything before the two sequences has been dealt with. */
  ghost predicate Ready<V>(p: Level<V>, c: Level<V>, sent: seq<Splice>, lastOffset: nat, currentOffset: nat) {
    Sent(p, c, sent, lastOffset, currentOffset) && (sent == [] || End(sent) < lastOffset)
  }

  /**
   Sends the splices that lead from `last` to `current`, in the coordinates of the values, provided no level
   exceeds the matrix limit, unless its two sides share no prefix.
   */
  method IndexedSequenceDiff<V(==)>(ghost p: Level<V>, ghost c: Level<V>, sent: seq<Splice>, last: Level<V>,
                                    lastHeight: nat, lastOffset: nat,
                                    current: Level<V>, currentHeight: nat, currentOffset: nat, maxSpliceMatrixSize: nat)
    returns (sent': seq<Splice>)
    requires Setting(p, c, last, lastHeight, lastOffset, current, currentHeight, currentOffset)
    ensures sent' == sent + Diffed(last, lastHeight, lastOffset, current, currentHeight, currentOffset,
                                   maxSpliceMatrixSize)
    ensures Ready(p, c, sent, lastOffset, currentOffset)
            && AllWithin(last, lastHeight, current, currentHeight, maxSpliceMatrixSize) ==>
              Sent(p, c, sent', Pos(lastOffset, last, |last|), Pos(currentOffset, current, |current|))
    decreases lastHeight + currentHeight, 2
  {
    hide Ready, Sent, Tree, PartAt;
    if lastHeight > currentHeight {
      var lastChild := GetCompositeChildSequence(last, 0, |last|);
      AllBelow(p, lastOffset, last, lastHeight);
      sent' := IndexedSequenceDiff(p, c, sent, lastChild, lastHeight - 1, lastOffset, current, currentHeight,
                                   currentOffset,
                                   maxSpliceMatrixSize);
      return;
    }
    if currentHeight > lastHeight {
      var currentChild := GetCompositeChildSequence(current, 0, |current|);
      AllBelow(c, currentOffset, current, currentHeight);
      sent' := IndexedSequenceDiff(p, c, sent, last, lastHeight, lastOffset, currentChild, currentHeight - 1,
                                   currentOffset,
                                   maxSpliceMatrixSize);
      return;
    }
    SmallLevel(p, c, last, lastHeight, lastOffset, current, currentOffset);
    var initialSplices := CalcSplices(last, current, maxSpliceMatrixSize);
    FitEach(last, current, initialSplices);
    sent' := SendAll(p, c, sent, last, lastHeight, lastOffset, current, currentOffset, maxSpliceMatrixSize,
                     initialSplices);
  }

  lemma AllBelow<V>(all: Level<V>, o: nat, items: Level<V>, h: nat)
    requires Tree(items, h) && h > 0 && PartAt(all, o, items)
    ensures var c := Composite(items, 0, |items|);
            Tree(c, h - 1) && PartAt(all, o, c) && Pos(o, c, |c|) == Pos(o, items, |items|)
  {
    CompositePart(all, o, items, h, 0, |items|);
  }

  lemma SmallLevel<V>(p: Level<V>, c: Level<V>, last: Level<V>, h: nat, lastOffset: nat, current: Level<V>,
                      currentOffset: nat)
    requires Setting(p, c, last, h, lastOffset, current, h, currentOffset)
    ensures |last| < SPLICE_UNASSIGNED && |current| < SPLICE_UNASSIGNED
  {
    LeavesGrow(last, h, 0, |last|);
    LeavesGrow(current, h, 0, |current|);
  }

  lemma {:induction false} FitEach<T>(p: seq<T>, c: seq<T>, sp: seq<Splice>)
    requires Fit(p, c, sp)
    ensures forall k :: 0 <= k < |sp| ==> sp[k].at + sp[k].removed <= |p| && sp[k].from + sp[k].added <= |c|
  {
    if sp != [] {
      FitEach(p, c, sp[..|sp| - 1]);
    }
  }

  /** The first `k` splices of a level have been dealt with. */
  ghost predicate Through<V>(p: Level<V>, c: Level<V>, sent: seq<Splice>, last: Level<V>, lastOffset: nat,
                             current: Level<V>, currentOffset: nat, splices: seq<Splice>, k: nat, i: nat, j: nat) {
    && k <= |splices| && i <= |last| && j <= |current| && i == End(splices[..k]) && j == i + Shift(splices[..k])
    && Sent(p, c, sent, Pos(lastOffset, last, i), Pos(currentOffset, current, j))
    && (k == 0 ==> sent == [] || End(sent) < lastOffset)
  }

  lemma Begin<V>(p: Level<V>, c: Level<V>, sent: seq<Splice>, last: Level<V>, lastOffset: nat,
                 current: Level<V>, currentOffset: nat, splices: seq<Splice>)
    requires Ready(p, c, sent, lastOffset, currentOffset)
    ensures Through(p, c, sent, last, lastOffset, current, currentOffset, splices, 0, 0, 0)
  {
  }

  lemma EndsBy<T>(p: seq<T>, c: seq<T>, sent: seq<Splice>, i: nat, j: nat)
    requires Sent(p, c, sent, i, j)
    ensures End(sent) <= i
  {
  }

  /** What lies between a splice and the one before it is kept. */
  lemma Approach<V>(p: Level<V>, c: Level<V>, sent: seq<Splice>, last: Level<V>, height: nat, lastOffset: nat,
                    current: Level<V>, currentOffset: nat, splices: seq<Splice>, k: nat, i: nat, j: nat)
    returns (j': nat)
    requires Setting(p, c, last, height, lastOffset, current, height, currentOffset) && IsDiff(last, current, splices)
             && k < |splices|
    requires Through(p, c, sent, last, lastOffset, current, currentOffset, splices, k, i, j)
             && Within(last, current, splices[k])
    ensures Next(p, c, sent, lastOffset, currentOffset, last, current, splices[k], j')
    ensures End(splices[..k + 1]) == splices[k].at + splices[k].removed
    ensures Shift(splices[..k + 1]) == j' + splices[k].added - End(splices[..k + 1])
  {
    EndsBy(p, c, sent, Pos(lastOffset, last, i), Pos(currentOffset, current, j));
    hide Sent, Tree, PartAt, Under, Pos, IsDiff, End, Shift;
    var i0, j0;
    i0, j0, j' := SpliceAt(last, current, splices, k);
    KeepItems(p, c, sent, lastOffset, currentOffset, last, current, height, i, j, splices[k].at, j');
    PosGrow(p, lastOffset, last, height, i, splices[k].at);
  }

  /** What follows the last splice is kept. */
  lemma Finish<V>(p: Level<V>, c: Level<V>, sent: seq<Splice>, last: Level<V>, height: nat, lastOffset: nat,
                  current: Level<V>, currentOffset: nat, splices: seq<Splice>, i: nat, j: nat)
    requires Setting(p, c, last, height, lastOffset, current, height, currentOffset) && IsDiff(last, current, splices)
    requires Through(p, c, sent, last, lastOffset, current, currentOffset, splices, |splices|, i, j)
    ensures Sent(p, c, sent, Pos(lastOffset, last, |last|), Pos(currentOffset, current, |current|))
  {
    hide Sent, Tree, PartAt, Under, Pos, IsDiff, End, Shift;
    assert splices[..|splices|] == splices;
    var i0, j0 := AfterLast(last, current, splices);
    KeepItems(p, c, sent, lastOffset, currentOffset, last, current, height, i, j, |last|, |current|);
  }

  lemma Regroup<X>(sent: seq<X>, before: seq<X>, x: seq<X>, y: seq<X>)
    requires before == sent + x
    ensures before + y == sent + (x + y)
  {
  }

  /** Sends all the splices of a level. */
  method SendAll<V(==)>(ghost p: Level<V>, ghost c: Level<V>, sent: seq<Splice>, last: Level<V>, height: nat,
                        lastOffset: nat,
                        current: Level<V>, currentOffset: nat, maxSpliceMatrixSize: nat, splices: seq<Splice>)
    returns (sent': seq<Splice>)
    requires Setting(p, c, last, height, lastOffset, current, height, currentOffset)
    requires forall k :: 0 <= k < |splices| ==> Within(last, current, splices[k])
    ensures sent' == sent + DiffedUpTo(last, height, lastOffset, current, currentOffset, maxSpliceMatrixSize, splices,
                                       |splices|)
    ensures Ready(p, c, sent, lastOffset, currentOffset) && IsDiff(last, current, splices)
              && (forall s :: s in splices ==> BelowWithin(last, height, current, s, maxSpliceMatrixSize)) ==>
              Sent(p, c, sent', Pos(lastOffset, last, |last|), Pos(currentOffset, current, |current|))
    decreases 2 * height, 1
  {
    hide Sent, Tree, PartAt, Under, Pos, IsDiff, BelowWithin, DiffedOne;
    sent' := sent;
    ghost var i: nat, j: nat := 0, 0;
    ghost var ok := && Ready(p, c, sent, lastOffset, currentOffset) && IsDiff(last, current, splices)
                    && forall s :: s in splices ==> BelowWithin(last, height, current, s, maxSpliceMatrixSize);
    if ok {
      Begin(p, c, sent, last, lastOffset, current, currentOffset, splices);
    }
    for k := 0 to |splices|
      invariant sent' == sent + DiffedUpTo(last, height, lastOffset, current, currentOffset, maxSpliceMatrixSize,
                                           splices, k)
      invariant ok ==> Through(p, c, sent', last, lastOffset, current, currentOffset, splices, k, i, j)
    {
      ghost var before := sent';
      ghost var j' := splices[k].from;
      if ok {
        j' := Approach(p, c, sent', last, height, lastOffset, current, currentOffset, splices, k, i, j);
      }
      sent' := SendOne(p, c, sent', last, height, lastOffset, current, currentOffset, maxSpliceMatrixSize, splices[k],
                       j');
      i, j := splices[k].at + splices[k].removed, j' + splices[k].added;
      Regroup(sent, before, DiffedUpTo(last, height, lastOffset, current, currentOffset, maxSpliceMatrixSize, splices,
                                       k),
                  DiffedOne(last, height, lastOffset, current, currentOffset, maxSpliceMatrixSize, splices[k]));
    }
    if ok {
      Finish(p, c, sent', last, height, lastOffset, current, currentOffset, splices, i, j);
    }
  }

  /** Sends one splice of a level, as it is or as the splices of the levels below it. */
  method SendOne<V(==)>(ghost p: Level<V>, ghost c: Level<V>, sent: seq<Splice>, last: Level<V>, height: nat,
                        lastOffset: nat,
                        current: Level<V>, currentOffset: nat, maxSpliceMatrixSize: nat, splice: Splice, ghost j: nat)
    returns (sent': seq<Splice>)
    requires Setting(p, c, last, height, lastOffset, current, height, currentOffset) && Within(last, current, splice)
    ensures sent' == sent + DiffedOne(last, height, lastOffset, current, currentOffset, maxSpliceMatrixSize, splice)
    ensures Next(p, c, sent, lastOffset, currentOffset, last, current, splice, j)
            && BelowWithin(last, height, current, splice, maxSpliceMatrixSize) ==>
              After(p, c, sent', lastOffset, currentOffset, last, current, splice, j)
    decreases 2 * height, 0
  {
    hide Next, After, Tree, PartAt, BelowWithin, Diffed, LeafSent, SubtreeSent;
    if height == 0 {
      sent' := LeafSplice(p, c, sent, last, lastOffset, current, currentOffset, splice, j);
    } else if splice.removed == 0 || splice.added == 0 {
      sent' := SubtreeSplice(p, c, sent, last, lastOffset, current, currentOffset, height, splice, j);
    } else {
      sent' := SendBelow(p, c, sent, last, height, lastOffset, current, currentOffset, maxSpliceMatrixSize, splice, j);
    }
  }

  /** Subtrees on both sides of a splice: compares what is under them. */
  method SendBelow<V(==)>(ghost p: Level<V>, ghost c: Level<V>, sent: seq<Splice>, last: Level<V>, height: nat,
                          lastOffset: nat,
                          current: Level<V>, currentOffset: nat, maxSpliceMatrixSize: nat, splice: Splice, ghost j: nat)
    returns (sent': seq<Splice>)
    requires Setting(p, c, last, height, lastOffset, current, height, currentOffset) && Within(last, current, splice)
    requires splice.removed > 0 && splice.added > 0 && height > 0
    ensures sent' == sent + DiffedOne(last, height, lastOffset, current, currentOffset, maxSpliceMatrixSize, splice)
    ensures Next(p, c, sent, lastOffset, currentOffset, last, current, splice, j)
            && BelowWithin(last, height, current, splice, maxSpliceMatrixSize) ==>
              After(p, c, sent', lastOffset, currentOffset, last, current, splice, j)
    decreases 2 * height - 1
  {
    hide Sent, Tree, PartAt, Under, AllWithin, Diffed;
    var lastChild := GetCompositeChildSequence(last, splice.at, splice.removed);
    var currentChild := GetCompositeChildSequence(current, splice.from, splice.added);
    var lastBefore := LeavesBefore(last, splice.at, height);
    var currentBefore := LeavesBefore(current, splice.from, height);
    Below(p, lastOffset, last, height, splice.at, splice.at + splice.removed);
    Below(c, currentOffset, current, height, splice.from, splice.from + splice.added);
    sent' := IndexedSequenceDiff(p, c, sent, lastChild, height - 1, lastOffset + lastBefore, currentChild, height - 1,
                                 currentOffset + currentBefore, maxSpliceMatrixSize);
  }

  lemma Below<V>(all: Level<V>, o: nat, items: Level<V>, h: nat, a: nat, b: nat)
    requires Tree(items, h) && h > 0 && a <= b <= |items| && PartAt(all, o, items)
    ensures var c := Composite(items, a, b);
            Tree(c, h - 1) && PartAt(all, Pos(o, items, a), c) && Pos(Pos(o, items, a), c, |c|) == Pos(o, items, b)
  {
    CompositePart(all, o, items, h, a, b);
  }

  // ---------- lists ----------

  /** A list: its root level, and how deep its tree is. */
  datatype List<V> = List(root: Level<V>, height: nat)

  /** The values of a list, in order. */
  function Values<V>(l: List<V>): Level<V> {
    Leaves(l.root, |l.root|)
  }

  ghost predicate Valid<V>(l: List<V>) {
    Tree(l.root, l.height) && (l.root == [] ==> l.height == 0) && |Values(l)| < SPLICE_UNASSIGNED
  }

  method Len<V>(l: List<V>) returns (n: nat)
    requires Valid(l)
    ensures n == |Values(l)| && (n == 0 ==> l == List([], 0))
  {
    n := LeavesBefore(l.root, |l.root|, l.height);
    LeavesGrow(l.root, l.height, 0, |l.root|);
  }

  /** A single splice between the two ends. */
  lemma AllReplaced<T>(p: seq<T>, c: seq<T>, s: Splice)
    requires s == Splice(0, |p|, |c|, 0) && |p| + |c| > 0
    ensures IsDiff(p, c, [s])
  {
    NothingSent(p, c);
    hide Sent, IsDiff;
    SendNext(p, c, [], s, 0);
    assert [] + [s] == [s];
    AllSent(p, c, [s]);
  }

  lemma Whole<V>(l: List<V>)
    requires Valid(l)
    ensures PartAt(Values(l), 0, l.root) && Pos(0, l.root, |l.root|) == |Values(l)|
  {
    assert Values(l)[0..|Values(l)|] == Values(l);
  }

  /** The splices that the diff of two lists gives. */
  ghost function ListDiff<V>(last: List<V>, l: List<V>, limit: nat): seq<Splice> {
    if l == last then []
    else if Values(l) == [] || Values(last) == [] then [Splice(0, |Values(last)|, |Values(l)|, 0)]
    else Diffed(last.root, last.height, 0, l.root, l.height, 0, limit)
  }

  /**
   The diff from `last` to a list, whatever the shapes of their trees, provided no level exceeds the limit, or shares
   no prefix where it does; a limit of the product of the two lengths is always enough.
   */
  method DiffWithLimit<V(==)>(l: List<V>, last: List<V>, maxSpliceMatrixSize: nat) returns (changes: seq<Splice>)
    requires Valid(l) && Valid(last)
    ensures changes == ListDiff(last, l, maxSpliceMatrixSize)
    ensures AllWithin(last.root, last.height, l.root, l.height, maxSpliceMatrixSize) ==>
              IsDiff(Values(last), Values(l), changes)
    ensures |Values(last)| * |Values(l)| <= maxSpliceMatrixSize ==> IsDiff(Values(last), Values(l), changes)
  {
    hide AllWithin, Diffed;
    if l == last {
      assert Values(last)[0..] == Values(l);
      return [];
    }
    var lLen := Len(l);
    var lastLen := Len(last);
    if lLen == 0 {
      AllReplaced(Values(last), Values(l), Splice(0, lastLen, 0, 0));
      return [Splice(0, lastLen, 0, 0)];
    }
    if lastLen == 0 {
      AllReplaced(Values(last), Values(l), Splice(0, 0, lLen, 0));
      return [Splice(0, 0, lLen, 0)];
    }
    changes := DiffTrees(l, last, maxSpliceMatrixSize);
    if |Values(last)| * |Values(l)| <= maxSpliceMatrixSize {
      SmallIsWithin(last.root, last.height, l.root, l.height, maxSpliceMatrixSize);
    }
  }

  method DiffTrees<V(==)>(l: List<V>, last: List<V>, maxSpliceMatrixSize: nat) returns (changes: seq<Splice>)
    requires Valid(l) && Valid(last)
    ensures changes == Diffed(last.root, last.height, 0, l.root, l.height, 0, maxSpliceMatrixSize)
    ensures AllWithin(last.root, last.height, l.root, l.height, maxSpliceMatrixSize) ==>
              IsDiff(Values(last), Values(l), changes)
  {
    hide Tree, PartAt, Sent, IsDiff, AllWithin, Diffed;
    Whole(l);
    Whole(last);
    NothingSent(Values(last), Values(l));
    changes := IndexedSequenceDiff(Values(last), Values(l), [], last.root, last.height, 0, l.root, l.height, 0,
                                   maxSpliceMatrixSize);
    if AllWithin(last.root, last.height, l.root, l.height, maxSpliceMatrixSize) {
      AllSent(Values(last), Values(l), changes);
    }
  }

  lemma NothingSent<T>(p: seq<T>, c: seq<T>)
    ensures Sent(p, c, [], 0, 0)
  {
  }

  lemma AllSent<T>(p: seq<T>, c: seq<T>, sent: seq<Splice>)
    requires Sent(p, c, sent, |p|, |c|)
    ensures IsDiff(p, c, sent)
  {
    TurnsAll(p, c, sent);
  }
}
