/** Merging two edits of a list: both sides' splices are applied to the parent in one pass. */
module ListMerge {
  import opened Splices
  import opened EditDistance
  import opened Chunking
  import opened ProllyTree
  import D = IndexedDiff
  import O = OrderlyDiff

  /** A splice together with the elements it adds. */
  datatype Change<T> = Change(at: nat, removed: nat, added: seq<T>)

  function ChangeOf<T>(c: seq<T>, s: Splice): Change<T>
    requires s.from + s.added <= |c|
  {
    Change(s.at, s.removed, c[s.from..s.from + s.added])
  }

  // ---------- substituting changes ----------

  function EndOf<T>(es: seq<Change<T>>): nat {
    if es == [] then 0 else es[|es| - 1].at + es[|es| - 1].removed
  }

  /** The changes are in order, do not overlap, and start at different positions within `n` elements. */
  ghost predicate Apart<T>(n: nat, es: seq<Change<T>>) {
    es == [] ||
    (var init, e := es[..|es| - 1], es[|es| - 1];
     Apart(n, init) && EndOf(init) <= e.at && e.at + e.removed <= n && (init != [] ==> init[|init| - 1].at < e.at))
  }

  lemma ApartEnd<T>(n: nat, es: seq<Change<T>>)
    requires Apart(n, es)
    ensures EndOf(es) <= n
  {
  }

  /** Everything up to the end of the last change, as the changes make it. */
  ghost function Rewritten<T>(parent: seq<T>, es: seq<Change<T>>): seq<T>
    requires Apart(|parent|, es)
  {
    if es == [] then []
    else
      var init, e := es[..|es| - 1], es[|es| - 1];
      Rewritten(parent, init) + parent[EndOf(init)..e.at] + e.added
  }

  /** The parent with every change substituted at its original position. */
  ghost function Substituted<T>(parent: seq<T>, es: seq<Change<T>>): seq<T>
    requires Apart(|parent|, es)
  {
    ApartEnd(|parent|, es);
    Rewritten(parent, es) + parent[EndOf(es)..]
  }

  lemma SnocChange<T>(parent: seq<T>, es: seq<Change<T>>, e: Change<T>)
    requires Apart(|parent|, es) && EndOf(es) <= e.at && e.at + e.removed <= |parent|
             && (es != [] ==> es[|es| - 1].at < e.at)
    ensures Apart(|parent|, es + [e]) && EndOf(es + [e]) == e.at + e.removed
    ensures Rewritten(parent, es + [e]) == Rewritten(parent, es) + parent[EndOf(es)..e.at] + e.added
  {
    assert (es + [e])[..|es|] == es;
  }

  /** Splicing one more change into the partly merged list, at its position moved by the difference in length so far. */
  lemma OneMore<T>(parent: seq<T>, es: seq<Change<T>>, e: Change<T>, at: nat)
    requires Apart(|parent|, es) && EndOf(es) <= e.at && e.at + e.removed <= |parent|
             && (es != [] ==> es[|es| - 1].at < e.at)
    requires at == |Rewritten(parent, es)| + (e.at - EndOf(es))
    ensures var merged := Substituted(parent, es);
            && Apart(|parent|, es + [e]) && at + e.removed <= |merged|
            && merged[..at] + e.added + merged[at + e.removed..] == Substituted(parent, es + [e])
  {
    hide Apart, Rewritten, EndOf;
    SnocChange(parent, es, e);
    Regroup(parent, Rewritten(parent, es), EndOf(es), e, at);
  }

  lemma Regroup<T>(parent: seq<T>, r: seq<T>, end: nat, e: Change<T>, at: nat)
    requires end <= e.at && e.at + e.removed <= |parent| && at == |r| + (e.at - end)
    ensures var merged := r + parent[end..];
            && at + e.removed <= |merged|
            && merged[..at] + e.added + merged[at + e.removed..] == r + parent[end..e.at] + e.added
               + parent[e.at + e.removed..]
  {
    var merged := r + parent[end..];
    assert merged[..at] == r + parent[end..e.at];
    assert merged[at + e.removed..] == parent[e.at + e.removed..];
  }

  // ---------- what a diff changes ----------

  /** The splices of a diff, by index: each changes something, and each starts after the end of those before it. */
  ghost predicate InOrder(n: nat, m: nat, sp: seq<Splice>) {
    && (forall i :: 0 <= i < |sp| ==> sp[i].at + sp[i].removed <= n && sp[i].from + sp[i].added <= m
                                      && sp[i].removed + sp[i].added > 0)
    && (forall i, j :: 0 <= i < j < |sp| ==> sp[i].at + sp[i].removed < sp[j].at)
  }

  lemma {:induction false} DiffInOrder<T>(p: seq<T>, c: seq<T>, sp: seq<Splice>)
    requires Fit(p, c, sp) && Gapped(sp)
    ensures InOrder(|p|, |c|, sp)
  {
    if sp != [] {
      var init := sp[..|sp| - 1];
      DiffInOrder(p, c, init);
      forall i | 0 <= i < |init| ensures sp[i].at + sp[i].removed < sp[|sp| - 1].at {
        assert sp[i] == init[i] && (i < |init| - 1 ==> init[i].at + init[i].removed < init[|init| - 1].at);
      }
    }
  }

  /** The changes of the first `k` splices. */
  ghost function Changes<T>(c: seq<T>, sp: seq<Splice>, k: nat): seq<Change<T>>
    requires k <= |sp| && Within(c, sp)
  {
    if k == 0 then [] else Changes(c, sp, k - 1) + [ChangeOf(c, sp[k - 1])]
  }

  ghost predicate Within<T>(c: seq<T>, sp: seq<Splice>) {
    forall i :: 0 <= i < |sp| ==> sp[i].from + sp[i].added <= |c|
  }

  ghost function Elements<T>(es: seq<Change<T>>): set<Change<T>> {
    set e | e in es
  }

  lemma ElementsSnoc<T>(es: seq<Change<T>>, e: Change<T>)
    ensures Elements(es + [e]) == Elements(es) + {e}
  {
  }

  /** What the first `k` splices change. */
  ghost function ChangeSet<T>(c: seq<T>, sp: seq<Splice>, k: nat): set<Change<T>>
    requires k <= |sp| && Within(c, sp)
  {
    if k == 0 then {} else ChangeSet(c, sp, k - 1) + {ChangeOf(c, sp[k - 1])}
  }

  /** The changes `es` do what the splices `sp` do. */
  ghost predicate Mirrors<T>(p: seq<T>, c: seq<T>, es: seq<Change<T>>, sp: seq<Splice>) {
    && Apart(|p|, es) && Fit(p, c, sp) && |es| == |sp| && EndOf(es) == End(sp) && Rewritten(p, es) == Built(p, c, sp)
    && (sp != [] ==> es[|es| - 1].at == sp[|sp| - 1].at)
  }

  lemma MirrorNext<T>(p: seq<T>, c: seq<T>, es: seq<Change<T>>, sp: seq<Splice>, s: Splice)
    requires Mirrors(p, c, es, sp) && Fit(p, c, sp + [s]) && (sp != [] ==> sp[|sp| - 1].at < s.at)
             && s.from + s.added <= |c|
    ensures Mirrors(p, c, es + [ChangeOf(c, s)], sp + [s])
  {
    Snoc(p, c, sp, s);
    SnocChange(p, es, ChangeOf(c, s));
  }

  /** The changes of a diff do what the diff does. */
  lemma {:induction false} ChangesMirror<T>(p: seq<T>, c: seq<T>, sp: seq<Splice>, k: nat)
    requires InOrder(|p|, |c|, sp) && Fit(p, c, sp) && Within(c, sp) && k <= |sp|
    ensures Mirrors(p, c, Changes(c, sp, k), sp[..k])
  {
    hide *;
    if k == 0 {
      NoneMirrored(p, c, sp);
    } else {
      ChangesMirror(p, c, sp, k - 1);
      FitPrefix(p, c, sp, k);
      LastBefore(|p|, |c|, sp, k);
      var init := sp[..k - 1];
      assert sp[..k] == init + [sp[k - 1]] && (k > 1 ==> init[k - 2] == sp[k - 2]);
      MirrorNext(p, c, Changes(c, sp, k - 1), init, sp[k - 1]);
      ChangesNext(c, sp, k);
    }
  }

  lemma NoneMirrored<T>(p: seq<T>, c: seq<T>, sp: seq<Splice>)
    requires Within(c, sp)
    ensures Mirrors(p, c, Changes(c, sp, 0), sp[..0])
  {
  }

  lemma ChangesNext<T>(c: seq<T>, sp: seq<Splice>, k: nat)
    requires Within(c, sp) && 0 < k <= |sp|
    ensures Changes(c, sp, k) == Changes(c, sp, k - 1) + [ChangeOf(c, sp[k - 1])]
  {
  }

  lemma {:induction false} ChangesElements<T>(c: seq<T>, sp: seq<Splice>, k: nat)
    requires Within(c, sp) && k <= |sp|
    ensures Elements(Changes(c, sp, k)) == ChangeSet(c, sp, k)
  {
    if k > 0 {
      ChangesElements(c, sp, k - 1);
      ElementsSnoc(Changes(c, sp, k - 1), ChangeOf(c, sp[k - 1]));
    }
  }

  lemma LastBefore(n: nat, m: nat, sp: seq<Splice>, k: nat)
    requires InOrder(n, m, sp) && 0 < k <= |sp|
    ensures k > 1 ==> sp[k - 2].at < sp[k - 1].at
    ensures sp[k - 1].from + sp[k - 1].added <= m
  {
    if k > 1 {
      assert sp[k - 2].at + sp[k - 2].removed < sp[k - 1].at;
    }
  }

  // ---------- overlaps ----------

  /** As 64-bit arithmetic computes it. */
  predicate Overlap(s1: Splice, s2: Splice) {
    var earlier, later := if s2.at < s1.at then s2 else s1, if s2.at < s1.at then s1 else s2;
    s1.at == s2.at || (earlier.at + earlier.removed) % TWO_64 > later.at
  }

  /** The same splice, adding the same elements. */
  ghost predicate SameChange<T>(a: seq<T>, b: seq<T>, s: Splice, t: Splice)
    requires s.from + s.added <= |a| && t.from + t.added <= |b|
  {
    s == t && a[s.from..s.from + s.added] == b[t.from..t.from + t.added]
  }

  /** Two splices that touch the same part of the parent and do not do the same to it. */
  ghost predicate Clash<T>(a: seq<T>, b: seq<T>, s: Splice, t: Splice)
    requires s.from + s.added <= |a| && t.from + t.added <= |b|
  {
    Overlap(s, t) && !SameChange(a, b, s, t)
  }

  ghost predicate Conflict<T>(a: seq<T>, b: seq<T>, aSp: seq<Splice>, bSp: seq<Splice>)
    requires Within(a, aSp) && Within(b, bSp)
  {
    exists k, l :: 0 <= k < |aSp| && 0 <= l < |bSp| && Clash(a, b, aSp[k], bSp[l])
  }

  /** No splice among the first `pa` or the first `pb` clashes with one of the other side. */
  ghost predicate Clear<T>(a: seq<T>, b: seq<T>, aSp: seq<Splice>, bSp: seq<Splice>, pa: nat, pb: nat)
    requires Within(a, aSp) && Within(b, bSp)
  {
    forall k, l :: 0 <= k < |aSp| && 0 <= l < |bSp| && (k < pa || l < pb) ==> !Clash(a, b, aSp[k], bSp[l])
  }

  // ---------- the merge of two sets of changes ----------

  /** The changes of both sides, in order. */
  ghost predicate Combines<T>(n: nat, a: seq<T>, b: seq<T>, aSp: seq<Splice>, bSp: seq<Splice>, es: seq<Change<T>>)
    requires Within(a, aSp) && Within(b, bSp)
  {
    Apart(n, es) && Elements(es) == ChangeSet(a, aSp, |aSp|) + ChangeSet(b, bSp, |bSp|)
  }

  /** `merged` is the parent with the changes of both sides substituted at their original positions. */
  ghost predicate IsMerge<T(!new)>(parent: seq<T>, a: seq<T>, b: seq<T>, aSp: seq<Splice>, bSp: seq<Splice>,
                                   merged: seq<T>)
    requires Within(a, aSp) && Within(b, bSp)
  {
    exists es :: Combines(|parent|, a, b, aSp, bSp, es) && merged == Substituted(parent, es)
  }

  lemma {:induction false} Increasing<T>(n: nat, es: seq<Change<T>>, i: nat)
    requires Apart(n, es) && i < |es| - 1
    ensures es[i].at < es[|es| - 1].at
  {
    var init := es[..|es| - 1];
    if i < |init| - 1 {
      Increasing(n, init, i);
    }
  }

  lemma NoElements<T>(es: seq<Change<T>>)
    ensures es == [] <==> Elements(es) == {}
  {
    if es != [] {
      assert es[0] in Elements(es);
    }
  }

  /** Changes that are apart are in a definite order. */
  lemma {:induction false} OrderUnique<T>(n: nat, es: seq<Change<T>>, es': seq<Change<T>>)
    requires Apart(n, es) && Apart(n, es') && Elements(es) == Elements(es')
    ensures es == es'
    decreases |es|
  {
    hide Apart, Elements;
    if es == [] || es' == [] {
      NoElements(es);
      NoElements(es');
    } else {
      var last := LastIn(n, es, es');
      var last' := LastIn(n, es', es);
      Without(n, es);
      Without(n, es');
      OrderUnique(n, es[..|es| - 1], es'[..|es'| - 1]);
      assert es == es[..|es| - 1] + [es[|es| - 1]] && es' == es'[..|es'| - 1] + [es'[|es'| - 1]];
    }
  }

  lemma LastIn<T>(n: nat, es: seq<Change<T>>, es': seq<Change<T>>) returns (i: nat)
    requires Apart(n, es) && Apart(n, es') && Elements(es) == Elements(es') && es != [] && es' != []
    ensures i < |es'| && es'[i] == es[|es| - 1] && es[|es| - 1].at <= es'[|es'| - 1].at
    ensures es[|es| - 1].at == es'[|es'| - 1].at ==> es[|es| - 1] == es'[|es'| - 1]
  {
    assert es[|es| - 1] in Elements(es');
    i :| 0 <= i < |es'| && es'[i] == es[|es| - 1];
    if i < |es'| - 1 {
      Increasing(n, es', i);
    }
  }

  lemma Without<T>(n: nat, es: seq<Change<T>>)
    requires Apart(n, es) && es != []
    ensures Apart(n, es[..|es| - 1]) && Elements(es[..|es| - 1]) == Elements(es) - {es[|es| - 1]}
  {
    var init, e := es[..|es| - 1], es[|es| - 1];
    assert es == init + [e];
    ElementsSnoc(init, e);
    if e in Elements(init) {
      var i :| 0 <= i < |init| && init[i] == e;
      Increasing(n, es, i);
    }
  }

  /** The changes of both sides determine the merged list. */
  lemma MergeUnique<T(!new)>(parent: seq<T>, a: seq<T>, b: seq<T>, aSp: seq<Splice>, bSp: seq<Splice>, m: seq<T>,
                             m': seq<T>)
    requires Within(a, aSp) && Within(b, bSp) && IsMerge(parent, a, b, aSp, bSp, m)
             && IsMerge(parent, a, b, aSp, bSp, m')
    ensures m == m'
  {
    var es :| Combines(|parent|, a, b, aSp, bSp, es) && m == Substituted(parent, es);
    var es' :| Combines(|parent|, a, b, aSp, bSp, es') && m' == Substituted(parent, es');
    OrderUnique(|parent|, es, es');
  }

  /** It does not matter which side is which. */
  lemma MergeSymmetric<T(!new)>(parent: seq<T>, a: seq<T>, b: seq<T>, aSp: seq<Splice>, bSp: seq<Splice>, m: seq<T>)
    requires Within(a, aSp) && Within(b, bSp) && IsMerge(parent, a, b, aSp, bSp, m)
    ensures IsMerge(parent, b, a, bSp, aSp, m)
  {
    var es :| Combines(|parent|, a, b, aSp, bSp, es) && m == Substituted(parent, es);
    assert Combines(|parent|, b, a, bSp, aSp, es);
  }

  lemma ClashSymmetric<T>(a: seq<T>, b: seq<T>, aSp: seq<Splice>, bSp: seq<Splice>)
    requires Within(a, aSp) && Within(b, bSp)
    ensures Conflict(a, b, aSp, bSp) == Conflict(b, a, bSp, aSp)
  {
    forall k, l | 0 <= k < |aSp| && 0 <= l < |bSp| ensures Clash(a, b, aSp[k], bSp[l]) == Clash(b, a, bSp[l], aSp[k]) {
    }
  }

  /** Substituting the changes of splices does what the splices do. */
  lemma SpliceChanges<T>(p: seq<T>, c: seq<T>, sp: seq<Splice>) returns (es: seq<Change<T>>)
    requires Orderly(|p|, |c|, sp)
    ensures InOrder(|p|, |c|, sp) && Apart(|p|, es) && Elements(es) == ChangeSet(c, sp, |sp|)
    ensures Fit(p, c, sp) && Substituted(p, es) == Patched(p, c, sp)
  {
    OrderlyFits(p, c, sp);
    DiffInOrder(p, c, sp);
    ChangesMirror(p, c, sp, |sp|);
    ChangesElements(c, sp, |sp|);
    assert sp[..|sp|] == sp;
    es := Changes(c, sp, |sp|);
  }

  /** Nothing changed on one side: the merge is what the splices of the other make of the parent. */
  lemma OneSideOnly<T(!new)>(parent: seq<T>, a: seq<T>, b: seq<T>, aSp: seq<Splice>)
    requires Orderly(|parent|, |a|, aSp)
    ensures Within(a, aSp) && !Conflict(a, b, aSp, [])
    ensures Fit(parent, a, aSp) && IsMerge(parent, a, b, aSp, [], Patched(parent, a, aSp))
  {
    var es := SpliceChanges(parent, a, aSp);
    assert ChangeSet(a, aSp, |aSp|) + ChangeSet(b, [], 0) == ChangeSet(a, aSp, |aSp|);
    assert Combines(|parent|, a, b, aSp, [], es);
  }

  lemma NoSelfConflict<T>(n: nat, a: seq<T>, sp: seq<Splice>)
    requires InOrder(n, |a|, sp) && n < SPLICE_UNASSIGNED && Within(a, sp)
    ensures !Conflict(a, a, sp, sp)
  {
    forall k, l | 0 <= k < |sp| && 0 <= l < |sp| ensures !Clash(a, a, sp[k], sp[l]) {
      if k != l {
        NoOverlap(n, sp[k], sp[l]);
      }
    }
  }

  /** The same changes on both sides: they are made once. */
  lemma BothSides<T(!new)>(parent: seq<T>, a: seq<T>, sp: seq<Splice>)
    requires Orderly(|parent|, |a|, sp) && |parent| < SPLICE_UNASSIGNED
    ensures Within(a, sp) && !Conflict(a, a, sp, sp)
    ensures Fit(parent, a, sp) && IsMerge(parent, a, a, sp, sp, Patched(parent, a, sp))
  {
    var es := SpliceChanges(parent, a, sp);
    NoSelfConflict(|parent|, a, sp);
    hide Conflict, InOrder, Orderly;
    assert ChangeSet(a, sp, |sp|) + ChangeSet(a, sp, |sp|) == ChangeSet(a, sp, |sp|);
    assert Combines(|parent|, a, a, sp, sp, es);
  }

  // ---------- the loop ----------

  /** Everything on one side from `k` on comes after the changes made so far. */
  ghost predicate Ahead<T>(es: seq<Change<T>>, sp: seq<Splice>, k: nat) {
    k < |sp| ==> EndOf(es) <= sp[k].at && (es != [] ==> es[|es| - 1].at < sp[k].at)
  }

  /** The first `pa` splices of one side and the first `pb` of the other have been applied, and none of them clashes. */
  ghost predicate Applied<T>(n: nat, a: seq<T>, b: seq<T>, aSp: seq<Splice>, bSp: seq<Splice>, pa: nat, pb: nat,
                             es: seq<Change<T>>) {
    && InOrder(n, |a|, aSp) && InOrder(n, |b|, bSp) && n < SPLICE_UNASSIGNED && pa <= |aSp| && pb <= |bSp|
    && Apart(n, es) && Elements(es) == ChangeSet(a, aSp, pa) + ChangeSet(b, bSp, pb)
    && Ahead(es, aSp, pa) && Ahead(es, bSp, pb) && Clear(a, b, aSp, bSp, pa, pb)
  }

  /** Among splices of one parent, no overlap means that one ends before the other starts. */
  lemma NoOverlap(n: nat, s: Splice, t: Splice)
    requires s.at + s.removed <= n && t.at + t.removed <= n && n < SPLICE_UNASSIGNED
    ensures !Overlap(s, t) <==> (s.at < t.at && s.at + s.removed <= t.at) || (t.at < s.at && t.at + t.removed <= s.at)
  {
  }

  lemma NotClashing<T>(n: nat, a: seq<T>, b: seq<T>, aSp: seq<Splice>, bSp: seq<Splice>, pa: nat, pb: nat)
    requires InOrder(n, |a|, aSp) && InOrder(n, |b|, bSp) && n < SPLICE_UNASSIGNED && pa < |aSp|
             && Clear(a, b, aSp, bSp, pa, pb)
    requires pb < |bSp| ==> aSp[pa].at < bSp[pb].at && aSp[pa].at + aSp[pa].removed <= bSp[pb].at
    ensures Clear(a, b, aSp, bSp, pa + 1, pb)
  {
    forall k, l | 0 <= k < |aSp| && 0 <= l < |bSp| && (k < pa + 1 || l < pb) ensures !Clash(a, b, aSp[k], bSp[l]) {
      if k == pa && l >= pb {
        assert l > pb ==> bSp[pb].at + bSp[pb].removed < bSp[l].at;
        NoOverlap(n, aSp[k], bSp[l]);
      }
    }
  }

  /** A splice that starts first and ends before the other side's next one. */
  lemma TakeFirst<T>(parent: seq<T>, a: seq<T>, b: seq<T>, aSp: seq<Splice>, bSp: seq<Splice>, pa: nat, pb: nat,
                     es: seq<Change<T>>)
    requires Applied(|parent|, a, b, aSp, bSp, pa, pb, es) && pa < |aSp|
    requires pb < |bSp| ==> aSp[pa].at < bSp[pb].at && aSp[pa].at + aSp[pa].removed <= bSp[pb].at
    ensures Applied(|parent|, a, b, aSp, bSp, pa + 1, pb, es + [ChangeOf(a, aSp[pa])])
  {
    var e := ChangeOf(a, aSp[pa]);
    NotClashing(|parent|, a, b, aSp, bSp, pa, pb);
    SnocChange(parent, es, e);
    ElementsSnoc(es, e);
    assert pa + 1 < |aSp| ==> aSp[pa].at + aSp[pa].removed < aSp[pa + 1].at;
    UnionFirst(Elements(es), ChangeSet(a, aSp, pa), ChangeSet(b, bSp, pb), e);
  }

  lemma UnionFirst<X>(u: set<X>, x: set<X>, y: set<X>, e: X)
    requires u == x + y
    ensures u + {e} == x + {e} + y && u + {e} == x + (y + {e})
  {
  }

  lemma Swapped<T>(n: nat, a: seq<T>, b: seq<T>, aSp: seq<Splice>, bSp: seq<Splice>, pa: nat, pb: nat,
                   es: seq<Change<T>>)
    requires Applied(n, a, b, aSp, bSp, pa, pb, es)
    ensures Applied(n, b, a, bSp, aSp, pb, pa, es)
  {
    hide Apart, Ahead, ChangeSet, Elements, InOrder, Clear;
    ClearSwapped(n, a, b, aSp, bSp, pa, pb);
  }

  lemma ClearSwapped<T>(n: nat, a: seq<T>, b: seq<T>, aSp: seq<Splice>, bSp: seq<Splice>, pa: nat, pb: nat)
    requires InOrder(n, |a|, aSp) && InOrder(n, |b|, bSp) && Clear(a, b, aSp, bSp, pa, pb)
    ensures Clear(b, a, bSp, aSp, pb, pa)
  {
    forall k, l | 0 <= k < |bSp| && 0 <= l < |aSp| && (k < pb || l < pa)
      ensures bSp[k].from + bSp[k].added <= |b| && aSp[l].from + aSp[l].added <= |a| && !Clash(b, a, bSp[k], aSp[l]) {
      assert !Clash(a, b, aSp[l], bSp[k]);
    }
  }

  /** The same splice on both sides. */
  lemma TakeBoth<T>(parent: seq<T>, a: seq<T>, b: seq<T>, aSp: seq<Splice>, bSp: seq<Splice>, pa: nat, pb: nat,
                    es: seq<Change<T>>)
    requires Applied(|parent|, a, b, aSp, bSp, pa, pb, es) && pa < |aSp| && pb < |bSp|
             && SameChange(a, b, aSp[pa], bSp[pb])
    ensures Applied(|parent|, a, b, aSp, bSp, pa + 1, pb + 1, es + [ChangeOf(a, aSp[pa])])
  {
    var e := ChangeOf(a, aSp[pa]);
    ClearBoth(|parent|, a, b, aSp, bSp, pa, pb);
    SnocChange(parent, es, e);
    ElementsSnoc(es, e);
    assert pa + 1 < |aSp| ==> aSp[pa].at + aSp[pa].removed < aSp[pa + 1].at;
    assert pb + 1 < |bSp| ==> bSp[pb].at + bSp[pb].removed < bSp[pb + 1].at;
    UnionFirst(Elements(es), ChangeSet(a, aSp, pa), ChangeSet(b, bSp, pb), e);
  }

  lemma ClearBoth<T>(n: nat, a: seq<T>, b: seq<T>, aSp: seq<Splice>, bSp: seq<Splice>, pa: nat, pb: nat)
    requires InOrder(n, |a|, aSp) && InOrder(n, |b|, bSp) && n < SPLICE_UNASSIGNED && pa < |aSp| && pb < |bSp|
    requires Clear(a, b, aSp, bSp, pa, pb) && SameChange(a, b, aSp[pa], bSp[pb])
    ensures Clear(a, b, aSp, bSp, pa + 1, pb + 1)
  {
    forall k, l | 0 <= k < |aSp| && 0 <= l < |bSp| && (k < pa + 1 || l < pb + 1) ensures !Clash(a, b, aSp[k], bSp[l]) {
      if k >= pa && l >= pb && (k > pa || l > pb) {
        assert l > pb ==> bSp[pb].at + bSp[pb].removed < bSp[l].at;
        assert k > pa ==> aSp[pa].at + aSp[pa].removed < aSp[k].at;
        NoOverlap(n, aSp[k], bSp[l]);
      }
    }
  }

  /** Splices that do not clash can all be made, in one order. */
  lemma {:induction false} Combined<T(!new)>(parent: seq<T>, a: seq<T>, b: seq<T>, aSp: seq<Splice>, bSp: seq<Splice>,
                                             pa: nat, pb: nat, es: seq<Change<T>>) returns (all: seq<Change<T>>)
    requires Applied(|parent|, a, b, aSp, bSp, pa, pb, es) && Within(a, aSp) && Within(b, bSp)
             && !Conflict(a, b, aSp, bSp)
    ensures Applied(|parent|, a, b, aSp, bSp, |aSp|, |bSp|, all)
    decreases |aSp| - pa + |bSp| - pb
  {
    hide Apart, Elements, ChangeSet, Ahead, Clear;
    all := es;
    if pa < |aSp| && pb < |bSp| {
      assert !Clash(a, b, aSp[pa], bSp[pb]);
      NoOverlap(|parent|, aSp[pa], bSp[pb]);
      hide Overlap, InOrder, Within, Conflict;
      if Overlap(aSp[pa], bSp[pb]) {
        TakeBoth(parent, a, b, aSp, bSp, pa, pb, es);
        all := Combined(parent, a, b, aSp, bSp, pa + 1, pb + 1, es + [ChangeOf(a, aSp[pa])]);
      } else if aSp[pa].at < bSp[pb].at {
        TakeFirst(parent, a, b, aSp, bSp, pa, pb, es);
        all := Combined(parent, a, b, aSp, bSp, pa + 1, pb, es + [ChangeOf(a, aSp[pa])]);
      } else {
        TakeSecond(parent, a, b, aSp, bSp, pa, pb, es);
        all := Combined(parent, a, b, aSp, bSp, pa, pb + 1, es + [ChangeOf(b, bSp[pb])]);
      }
    } else if pa < |aSp| {
      hide InOrder, Within, Conflict;
      TakeFirst(parent, a, b, aSp, bSp, pa, pb, es);
      all := Combined(parent, a, b, aSp, bSp, pa + 1, pb, es + [ChangeOf(a, aSp[pa])]);
    } else if pb < |bSp| {
      hide InOrder, Within, Conflict;
      TakeSecond(parent, a, b, aSp, bSp, pa, pb, es);
      all := Combined(parent, a, b, aSp, bSp, pa, pb + 1, es + [ChangeOf(b, bSp[pb])]);
    }
  }

  /** There is a merged list whenever no two splices clash. */
  lemma {:induction false} MergeExists<T(!new)>(parent: seq<T>, a: seq<T>, b: seq<T>, aSp: seq<Splice>,
                                                bSp: seq<Splice>)
    returns (merged: seq<T>)
    requires Orderly(|parent|, |a|, aSp) && Orderly(|parent|, |b|, bSp) && |parent| + |a| + |b| < SPLICE_UNASSIGNED
    ensures Within(a, aSp) && Within(b, bSp)
    ensures !Conflict(a, b, aSp, bSp) ==> IsMerge(parent, a, b, aSp, bSp, merged)
  {
    Start(parent, a, b, aSp, bSp);
    hide Orderly, Conflict, InOrder, Sizes;
    merged := parent;
    if !Conflict(a, b, aSp, bSp) {
      var es := Combined(parent, a, b, aSp, bSp, 0, 0, []);
      merged := Substituted(parent, es);
      assert Combines(|parent|, a, b, aSp, bSp, es);
    }
  }

  /** Both sides make the same change, but take what it adds from different places. */
  ghost predicate SameFromElsewhere<T>(a: seq<T>, b: seq<T>, aSp: seq<Splice>, bSp: seq<Splice>)
    requires Within(a, aSp) && Within(b, bSp)
  {
    exists k, l :: 0 <= k < |aSp| && 0 <= l < |bSp| && ChangeOf(a, aSp[k]) == ChangeOf(b, bSp[l])
                   && aSp[k].from != bSp[l].from
  }

  /** There is a conflict exactly if no list has the changes of both sides, or the places of the same change differ. */
  lemma ConflictExactly<T(!new)>(parent: seq<T>, a: seq<T>, b: seq<T>, aSp: seq<Splice>, bSp: seq<Splice>)
    requires Orderly(|parent|, |a|, aSp) && Orderly(|parent|, |b|, bSp) && |parent| + |a| + |b| < SPLICE_UNASSIGNED
    ensures Within(a, aSp) && Within(b, bSp)
    ensures Conflict(a, b, aSp, bSp) <==>
            (forall m :: !IsMerge(parent, a, b, aSp, bSp, m)) || SameFromElsewhere(a, b, aSp, bSp)
  {
    hide Orderly, IsMerge, Overlap;
    var m := MergeExists(parent, a, b, aSp, bSp);
    if !Conflict(a, b, aSp, bSp) {
      NotElsewhere(a, b, aSp, bSp);
    } else {
      var k, l :| 0 <= k < |aSp| && 0 <= l < |bSp| && Clash(a, b, aSp[k], bSp[l]);
      if ChangeOf(a, aSp[k]) != ChangeOf(b, bSp[l]) {
        forall m ensures !IsMerge(parent, a, b, aSp, bSp, m) {
          NoMerge(parent, a, b, aSp, bSp, k, l, m);
        }
      } else {
        assert |ChangeOf(a, aSp[k]).added| == aSp[k].added && |ChangeOf(b, bSp[l]).added| == bSp[l].added;
      }
    }
  }

  lemma NotElsewhere<T>(a: seq<T>, b: seq<T>, aSp: seq<Splice>, bSp: seq<Splice>)
    requires Within(a, aSp) && Within(b, bSp) && !Conflict(a, b, aSp, bSp)
    ensures !SameFromElsewhere(a, b, aSp, bSp)
  {
    forall k, l | 0 <= k < |aSp| && 0 <= l < |bSp| && ChangeOf(a, aSp[k]) == ChangeOf(b, bSp[l])
      ensures aSp[k].from == bSp[l].from
    {
      assert !Clash(a, b, aSp[k], bSp[l]);
    }
  }

  /** Different changes that overlap are in no list. */
  lemma NoMerge<T(!new)>(parent: seq<T>, a: seq<T>, b: seq<T>, aSp: seq<Splice>, bSp: seq<Splice>, k: nat, l: nat,
                         m: seq<T>)
    requires Within(a, aSp) && Within(b, bSp) && k < |aSp| && l < |bSp| && Overlap(aSp[k], bSp[l])
    requires ChangeOf(a, aSp[k]) != ChangeOf(b, bSp[l])
    ensures !IsMerge(parent, a, b, aSp, bSp, m)
  {
    hide Apart, ChangeSet, Overlap;
    if IsMerge(parent, a, b, aSp, bSp, m) {
      var es :| Combines(|parent|, a, b, aSp, bSp, es) && m == Substituted(parent, es);
      InChangeSet(a, aSp, |aSp|, k);
      InChangeSet(b, bSp, |bSp|, l);
      assert ChangeOf(a, aSp[k]) in Elements(es) && ChangeOf(b, bSp[l]) in Elements(es);
      var i :| 0 <= i < |es| && es[i] == ChangeOf(a, aSp[k]);
      var j :| 0 <= j < |es| && es[j] == ChangeOf(b, bSp[l]);
      if i < j {
        ApartAt(|parent|, es, i, j);
      } else {
        ApartAt(|parent|, es, j, i);
      }
      NotOver(aSp[k], bSp[l]);
    }
  }

  lemma {:induction false} InChangeSet<T>(c: seq<T>, sp: seq<Splice>, n: nat, k: nat)
    requires Within(c, sp) && k < n <= |sp|
    ensures ChangeOf(c, sp[k]) in ChangeSet(c, sp, n)
  {
    if k < n - 1 {
      InChangeSet(c, sp, n - 1, k);
    }
  }

  lemma {:induction false} ApartAt<T>(n: nat, es: seq<Change<T>>, i: nat, j: nat)
    requires Apart(n, es) && i < j < |es|
    ensures es[i].at < es[j].at && es[i].at + es[i].removed <= es[j].at && es[j].at + es[j].removed <= n
  {
    var init := es[..|es| - 1];
    if j < |es| - 1 {
      ApartAt(n, init, i, j);
    } else if i < j - 1 {
      ApartAt(n, init, i, j - 1);
    }
  }

  lemma NotOver(s: Splice, t: Splice)
    requires (s.at < t.at && s.at + s.removed <= t.at) || (t.at < s.at && t.at + t.removed <= s.at)
    ensures !Overlap(s, t)
  {
  }

  lemma {:induction false} AlignedAt(sp: seq<Splice>, k: nat)
    requires Aligned(sp) && k < |sp|
    ensures sp[k].from == if sp[k].added > 0 then sp[k].at + Shift(sp[..k]) else 0
  {
    var init := sp[..|sp| - 1];
    assert sp == init + [sp[|sp| - 1]];
    SnocAligned(init, sp[|sp| - 1]);
    if k < |init| {
      AlignedAt(init, k);
      assert init[..k] == sp[..k];
    } else {
      assert init == sp[..k];
    }
  }

  /** In two diffs the places of the same insertion differ exactly if what was done before it differs in length. */
  lemma ElsewhereExactly<T>(a: seq<T>, b: seq<T>, aSp: seq<Splice>, bSp: seq<Splice>)
    requires Within(a, aSp) && Within(b, bSp) && Aligned(aSp) && Aligned(bSp)
    ensures SameFromElsewhere(a, b, aSp, bSp) <==>
            exists k, l :: 0 <= k < |aSp| && 0 <= l < |bSp| && ChangeOf(a, aSp[k]) == ChangeOf(b, bSp[l])
                           && aSp[k].added > 0 && Shift(aSp[..k]) != Shift(bSp[..l])
  {
    hide Aligned, Shift;
    forall k, l | 0 <= k < |aSp| && 0 <= l < |bSp| && ChangeOf(a, aSp[k]) == ChangeOf(b, bSp[l])
      ensures aSp[k].from != bSp[l].from <==> aSp[k].added > 0 && Shift(aSp[..k]) != Shift(bSp[..l])
    {
      assert |ChangeOf(a, aSp[k]).added| == aSp[k].added && |ChangeOf(b, bSp[l]).added| == bSp[l].added;
      AlignedAt(aSp, k);
      AlignedAt(bSp, l);
    }
  }

  /** One side made every change that the other made: the changes of both are those of the one. */
  lemma Subsumed<T(!new)>(parent: seq<T>, a: seq<T>, b: seq<T>, aSp: seq<Splice>, bSp: seq<Splice>)
    requires Orderly(|parent|, |a|, aSp) && Within(a, aSp) && Within(b, bSp)
    requires ChangeSet(b, bSp, |bSp|) <= ChangeSet(a, aSp, |aSp|)
    ensures Fit(parent, a, aSp) && IsMerge(parent, a, b, aSp, bSp, Patched(parent, a, aSp))
  {
    var es := SpliceChanges(parent, a, aSp);
    hide ChangeSet;
    assert ChangeSet(a, aSp, |aSp|) + ChangeSet(b, bSp, |bSp|) == ChangeSet(a, aSp, |aSp|);
    assert Combines(|parent|, a, b, aSp, bSp, es);
  }

  lemma OneInsertion<T>(p: seq<T>, c: seq<T>, at: nat, from: nat)
    requires at <= |p| && from < |c|
    ensures var sp := [Splice(at, 0, 1, from)];
            && Fit(p, c, sp) && Built(p, c, sp) == p[..at] + [c[from]] && End(sp) == at
            && Orderly(|p|, |c|, sp) && Taken(sp) == from + 1
            && Within(c, sp) && ChangeSet(c, sp, 1) == {Change(at, 0, [c[from]])}
  {
    var s := Splice(at, 0, 1, from);
    assert [] + [s] == [s] && c[from..from + 1] == [c[from]];
    Snoc(p, c, [], s);
    OrderlySnoc(|p|, |c|, [], s);
    assert ChangeSet(c, [s], 1) == ChangeSet(c, [s], 0) + {ChangeOf(c, s)};
  }

  /** Both sides insert 5 between 1 and 2, and one also inserts 0 at the start: a conflict, although nothing clashes. */
  lemma ElsewhereExample()
    ensures var p, a, b := [1, 2], [0, 1, 5, 2], [1, 5, 2];
            var aSp, bSp := [Splice(0, 0, 1, 0), Splice(1, 0, 1, 2)], [Splice(1, 0, 1, 1)];
            && Fit(p, a, aSp) && Patched(p, a, aSp) == a && Fit(p, b, bSp) && Patched(p, b, bSp) == b
            && Within(a, aSp) && Within(b, bSp) && Conflict(a, b, aSp, bSp) && IsMerge(p, a, b, aSp, bSp, a)
  {
    hide Fit, Built, Orderly, ChangeSet, IsMerge, Conflict;
    var p, a, b := [1, 2], [0, 1, 5, 2], [1, 5, 2];
    var s, t, u := Splice(0, 0, 1, 0), Splice(1, 0, 1, 2), Splice(1, 0, 1, 1);
    var aSp, bSp := [s, t], [u];
    OneInsertion(p, b, 1, 1);
    OneInsertion(p, a, 0, 0);
    assert aSp == [s] + [t];
    Snoc(p, a, [s], t);
    OrderlySnoc(|p|, |a|, [s], t);
    assert ChangeOf(a, t) == ChangeOf(b, u) == Change(1, 0, [5]);
    ConflictFound(a, b, aSp, bSp, 1, 0);
    InChangeSet(a, aSp, 2, 1);
    Subsumed(p, a, b, aSp, bSp);
  }

  // ---------- the offset ----------

  /** How many elements the first `k` splices add. */
  function Added(sp: seq<Splice>, k: nat): nat
    requires k <= |sp|
  {
    if k == 0 then 0 else Added(sp, k - 1) + sp[k - 1].added
  }

  /** Splices that take no element twice add no more elements than there are. */
  lemma {:induction false} AddedWithin(n: nat, m: nat, sp: seq<Splice>, k: nat)
    requires Orderly(n, m, sp) && k <= |sp|
    ensures Added(sp, k) <= Taken(sp[..k]) <= m
  {
    if k > 0 {
      AddedWithin(n, m, sp, k - 1);
      OrderlyAt(n, m, sp, k - 1);
      assert sp[..k] == sp[..k - 1] + [sp[k - 1]];
      OrderlySnoc(n, m, sp[..k - 1], sp[k - 1]);
    }
  }

  lemma AllAddedWithin(n: nat, m: nat, sp: seq<Splice>)
    requires Orderly(n, m, sp)
    ensures forall k :: 0 <= k <= |sp| ==> Added(sp, k) <= m
  {
    forall k | 0 <= k <= |sp| ensures Added(sp, k) <= m {
      AddedWithin(n, m, sp, k);
    }
  }

  /** The partly merged list, and the difference in length so far as 64-bit arithmetic has it. */
  ghost predicate Keeps<T>(parent: seq<T>, es: seq<Change<T>>, merged: seq<T>, offset: nat, more: nat) {
    && Apart(|parent|, es) && merged == Substituted(parent, es)
    && offset == (|Rewritten(parent, es)| - EndOf(es)) % TWO_64
    && |Rewritten(parent, es)| <= EndOf(es) + more
  }

  lemma Wraps(x: int, d: int)
    ensures (x % TWO_64 + d) % TWO_64 == (x + d) % TWO_64
  {
  }

  lemma InRange(x: int)
    requires 0 <= x < TWO_64
    ensures x % TWO_64 == x
  {
  }

  /** One more change keeps the list and the offset right. */
  lemma KeepsNext<T>(parent: seq<T>, es: seq<Change<T>>, merged: seq<T>, offset: nat, more: nat, e: Change<T>)
    requires Keeps(parent, es, merged, offset, more) && |parent| + more < TWO_64
    requires EndOf(es) <= e.at && e.at + e.removed <= |parent| && (es != [] ==> es[|es| - 1].at < e.at)
    ensures var at := (e.at + offset) % TWO_64;
            && at + e.removed <= |merged|
            && Keeps(parent, es + [e], merged[..at] + e.added + merged[at + e.removed..],
                     (offset + |e.added| - e.removed) % TWO_64, more + |e.added|)
  {
    hide Apart, Rewritten, EndOf;
    var r, end := |Rewritten(parent, es)|, EndOf(es);
    Wraps(r - end, e.at);
    InRange(r + (e.at - end));
    Wraps(r - end, |e.added| - e.removed);
    SnocChange(parent, es, e);
    OneMore(parent, es, e, r + (e.at - end));
  }

  // ---------- the methods ----------

  const INVALID: Splice := Splice(SPLICE_UNASSIGNED, SPLICE_UNASSIGNED, SPLICE_UNASSIGNED, SPLICE_UNASSIGNED)

  function ZeroToInvalid(s: Splice): Splice {
    if s == Splice(0, 0, 0, 0) then INVALID else s
  }

  /** What a channel yields next; once it is closed, the zero splice. */
  function Receive(channel: seq<Splice>, i: nat): Splice {
    if i < |channel| then channel[i] else Splice(0, 0, 0, 0)
  }

  /** Of `sp`, `i` splices have been received and `k` applied; `s` is the one in hand, if any. */
  ghost predicate Holds(sp: seq<Splice>, i: nat, k: nat, s: Splice) {
    k <= i <= |sp| && if s == INVALID then k == i else k + 1 == i && s == sp[k]
  }

  /** Takes the next splice when there is none in hand. */
  method Next(n: nat, m: nat, sp: seq<Splice>, i: nat, ghost k: nat, s: Splice) returns (i': nat, s': Splice)
    requires InOrder(n, m, sp) && n < SPLICE_UNASSIGNED && Holds(sp, i, k, s)
    ensures Holds(sp, i', k, s') && (s' == INVALID <==> k == |sp|) && (k < |sp| ==> s' == sp[k])
  {
    i', s' := i, s;
    if s == INVALID {
      s' := ZeroToInvalid(Receive(sp, i));
      i' := if i < |sp| then i + 1 else i;
    }
  }

  /** Whether two splices do precisely the same thing. */
  method CanMerge<T(==)>(a: seq<T>, b: seq<T>, aSplice: Splice, bSplice: Splice) returns (same: bool)
    requires aSplice.from + aSplice.added <= |a| && bSplice.from + bSplice.added <= |b|
    ensures same == SameChange(a, b, aSplice, bSplice)
  {
    if aSplice != bSplice {
      return false;
    }
    ghost var x, y := a[aSplice.from..aSplice.from + aSplice.added], b[bSplice.from..bSplice.from + bSplice.added];
    for count := 0 to aSplice.added
      invariant x[..count] == y[..count]
    {
      if a[aSplice.from + count] != b[bSplice.from + count] {
        assert x[count] != y[count];
        return false;
      }
      assert x[..count + 1] == x[..count] + [x[count]] && y[..count + 1] == y[..count] + [y[count]];
    }
    assert x == x[..aSplice.added] && y == y[..aSplice.added];
    return true;
  }

  /** Splices the elements that `s` adds, taken from `source`, into `target`. */
  method Apply<T>(source: seq<T>, target: seq<T>, offset: nat, s: Splice) returns (merged: seq<T>)
    requires s.from + s.added <= |source| && (s.at + offset) % TWO_64 + s.removed <= |target|
    ensures var at := (s.at + offset) % TWO_64;
            merged == target[..at] + source[s.from..s.from + s.added] + target[at + s.removed..]
  {
    var toAdd := [];
    for i := 0 to s.added
      invariant toAdd == source[s.from..s.from + i]
    {
      toAdd := toAdd + [source[s.from + i]];
    }
    var at := (s.at + offset) % TWO_64;
    merged := target[..at] + toAdd + target[at + s.removed..];
  }

  /** Applies one more splice, and moves the offset on. */
  method ApplyNext<T>(ghost parent: seq<T>, ghost es: seq<Change<T>>, source: seq<T>, merged: seq<T>, offset: nat,
                      s: Splice, ghost more: nat)
    returns (merged': seq<T>, offset': nat)
    requires Keeps(parent, es, merged, offset, more) && |parent| + more < TWO_64 && Follows(|parent|, |source|, es, s)
    ensures Keeps(parent, es + [ChangeOf(source, s)], merged', offset', more + s.added)
  {
    hide Keeps, EndOf;
    KeepsNext(parent, es, merged, offset, more, ChangeOf(source, s));
    merged' := Apply(source, merged, offset, s);
    offset' := (offset + s.added - s.removed) % TWO_64;
  }

  /** A splice that comes after the changes made so far. */
  ghost predicate Follows<T>(n: nat, m: nat, es: seq<Change<T>>, s: Splice) {
    EndOf(es) <= s.at && s.at + s.removed <= n && s.from + s.added <= m && (es != [] ==> es[|es| - 1].at < s.at)
  }

  lemma NextFollows<T>(n: nat, a: seq<T>, b: seq<T>, aSp: seq<Splice>, bSp: seq<Splice>, pa: nat, pb: nat,
                       es: seq<Change<T>>)
    requires Applied(n, a, b, aSp, bSp, pa, pb, es)
    ensures pa < |aSp| ==> Follows(n, |a|, es, aSp[pa])
    ensures pb < |bSp| ==> Follows(n, |b|, es, bSp[pb])
  {
  }

  /** When all splices have been applied. */
  lemma AllApplied<T(!new)>(parent: seq<T>, a: seq<T>, b: seq<T>, aSp: seq<Splice>, bSp: seq<Splice>,
                            es: seq<Change<T>>,
                               merged: seq<T>, offset: nat)
    requires State(parent, a, b, aSp, bSp, |aSp|, |bSp|, es, merged, offset)
    ensures !Conflict(a, b, aSp, bSp) && IsMerge(parent, a, b, aSp, bSp, merged)
  {
    assert Combines(|parent|, a, b, aSp, bSp, es);
  }

  datatype Outcome<T> = Merged(list: seq<T>) | MergeConflict(aSplice: Splice, bSplice: Splice)

  /** Everything the loop keeps. */
  ghost predicate State<T>(parent: seq<T>, a: seq<T>, b: seq<T>, aSp: seq<Splice>, bSp: seq<Splice>, pa: nat, pb: nat,
                           es: seq<Change<T>>, merged: seq<T>, offset: nat) {
    && Applied(|parent|, a, b, aSp, bSp, pa, pb, es)
    && Added(aSp, pa) <= |a| && Added(bSp, pb) <= |b|
       && Keeps(parent, es, merged, offset, Added(aSp, pa) + Added(bSp, pb))
  }

  ghost predicate Sizes<T>(parent: seq<T>, a: seq<T>, b: seq<T>, aSp: seq<Splice>, bSp: seq<Splice>) {
    && InOrder(|parent|, |a|, aSp) && InOrder(|parent|, |b|, bSp) && |parent| + |a| + |b| < SPLICE_UNASSIGNED
    && (forall k :: 0 <= k <= |aSp| ==> Added(aSp, k) <= |a|) && (forall k :: 0 <= k <= |bSp| ==> Added(bSp, k) <= |b|)
  }

  /** What is known of the splices in hand, when one side may have none left. */
  lemma InHand<T>(parent: seq<T>, a: seq<T>, b: seq<T>, aSp: seq<Splice>, bSp: seq<Splice>, pa: nat, pb: nat, s: Splice,
                  t: Splice)
    requires Sizes(parent, a, b, aSp, bSp) && pa <= |aSp| && pb <= |bSp| && (pa < |aSp| || pb < |bSp|)
    requires s == (if pa < |aSp| then aSp[pa] else INVALID) && t == (if pb < |bSp| then bSp[pb] else INVALID)
    ensures pa < |aSp| ==> s.from + s.added <= |a|
    ensures pb < |bSp| ==> t.from + t.added <= |b|
    ensures Overlap(s, t) ==> pa < |aSp| && pb < |bSp|
    ensures !Overlap(s, t) && s.at < t.at ==> pa < |aSp| && (pb < |bSp| ==> s.at + s.removed <= t.at)
    ensures !Overlap(s, t) && s.at >= t.at ==> pb < |bSp| && (pa < |aSp| ==> t.at < s.at && t.at + t.removed <= s.at)
  {
    if pa < |aSp| && pb < |bSp| {
      NoOverlap(|parent|, s, t);
    }
  }

  method ApplyFirst<T>(ghost parent: seq<T>, a: seq<T>, ghost b: seq<T>, ghost aSp: seq<Splice>, ghost bSp: seq<Splice>,
                       ghost pa: nat, ghost pb: nat,
                       ghost es: seq<Change<T>>, merged: seq<T>, offset: nat, s: Splice)
    returns (merged': seq<T>, offset': nat)
    requires Sizes(parent, a, b, aSp, bSp) && State(parent, a, b, aSp, bSp, pa, pb, es, merged, offset) && pa < |aSp|
             && s == aSp[pa]
    requires pb < |bSp| ==> s.at < bSp[pb].at && s.at + s.removed <= bSp[pb].at
    ensures State(parent, a, b, aSp, bSp, pa + 1, pb, es + [ChangeOf(a, s)], merged', offset')
  {
    NextFollows(|parent|, a, b, aSp, bSp, pa, pb, es);
    TakeFirst(parent, a, b, aSp, bSp, pa, pb, es);
    hide InOrder, Keeps, Applied;
    merged', offset' := ApplyNext(parent, es, a, merged, offset, s, Added(aSp, pa) + Added(bSp, pb));
  }

  method ApplySecond<T>(ghost parent: seq<T>, ghost a: seq<T>, b: seq<T>, ghost aSp: seq<Splice>,
                        ghost bSp: seq<Splice>, ghost pa: nat, ghost pb: nat,
                        ghost es: seq<Change<T>>, merged: seq<T>, offset: nat, t: Splice)
    returns (merged': seq<T>, offset': nat)
    requires Sizes(parent, a, b, aSp, bSp) && State(parent, a, b, aSp, bSp, pa, pb, es, merged, offset) && pb < |bSp|
             && t == bSp[pb]
    requires pa < |aSp| ==> t.at < aSp[pa].at && t.at + t.removed <= aSp[pa].at
    ensures State(parent, a, b, aSp, bSp, pa, pb + 1, es + [ChangeOf(b, t)], merged', offset')
  {
    NextFollows(|parent|, a, b, aSp, bSp, pa, pb, es);
    TakeSecond(parent, a, b, aSp, bSp, pa, pb, es);
    hide InOrder, Keeps, Applied;
    merged', offset' := ApplyNext(parent, es, b, merged, offset, t, Added(aSp, pa) + Added(bSp, pb));
  }

  method ApplyBoth<T>(ghost parent: seq<T>, a: seq<T>, ghost b: seq<T>, ghost aSp: seq<Splice>, ghost bSp: seq<Splice>,
                      ghost pa: nat, ghost pb: nat,
                      ghost es: seq<Change<T>>, merged: seq<T>, offset: nat, s: Splice)
    returns (merged': seq<T>, offset': nat)
    requires Sizes(parent, a, b, aSp, bSp) && State(parent, a, b, aSp, bSp, pa, pb, es, merged, offset)
    requires pa < |aSp| && pb < |bSp| && s == aSp[pa] && Within(a, aSp) && Within(b, bSp)
             && SameChange(a, b, aSp[pa], bSp[pb])
    ensures State(parent, a, b, aSp, bSp, pa + 1, pb + 1, es + [ChangeOf(a, s)], merged', offset')
  {
    NextFollows(|parent|, a, b, aSp, bSp, pa, pb, es);
    TakeBoth(parent, a, b, aSp, bSp, pa, pb, es);
    hide InOrder, Keeps, Applied;
    merged', offset' := ApplyNext(parent, es, a, merged, offset, s, Added(aSp, pa) + Added(bSp, pb));
    KeepsMore(parent, es + [ChangeOf(a, s)], merged', offset', Added(aSp, pa + 1) + Added(bSp, pb),
              Added(aSp, pa + 1) + Added(bSp, pb + 1));
  }

  /** One round of the loop, with the next splice of each side in hand. */
  method MergeStep<T(==)>(a: seq<T>, b: seq<T>, ghost parent: seq<T>, ghost aSp: seq<Splice>, ghost bSp: seq<Splice>,
                          ghost pa: nat, ghost pb: nat,
                          ghost es: seq<Change<T>>, merged: seq<T>, offset: nat, aSplice: Splice, bSplice: Splice)
    returns (clash: bool, merged': seq<T>, offset': nat, takeA: bool, takeB: bool, ghost es': seq<Change<T>>)
    requires Sizes(parent, a, b, aSp, bSp) && State(parent, a, b, aSp, bSp, pa, pb, es, merged, offset)
    requires pa <= |aSp| && pb <= |bSp| && (pa < |aSp| || pb < |bSp|) && Within(a, aSp) && Within(b, bSp)
    requires aSplice == (if pa < |aSp| then aSp[pa] else INVALID)
             && bSplice == (if pb < |bSp| then bSp[pb] else INVALID)
    ensures clash ==> Conflict(a, b, aSp, bSp)
    ensures !clash ==> (takeA || takeB) && (takeA ==> pa < |aSp|) && (takeB ==> pb < |bSp|)
    ensures !clash ==>
              State(parent, a, b, aSp, bSp, if takeA then pa + 1 else pa, if takeB then pb + 1
                    else pb, es', merged', offset')
  {
    InHand(parent, a, b, aSp, bSp, pa, pb, aSplice, bSplice);
    hide State, Sizes, Conflict, Within;
    clash, merged', offset', takeA, takeB, es' := false, merged, offset, false, false, es;
    if Overlap(aSplice, bSplice) {
      var same := CanMerge(a, b, aSplice, bSplice);
      if !same {
        ConflictFound(a, b, aSp, bSp, pa, pb);
        clash := true;
        return;
      }
      merged', offset' := ApplyBoth(parent, a, b, aSp, bSp, pa, pb, es, merged, offset, aSplice);
      takeA, takeB, es' := true, true, es + [ChangeOf(a, aSplice)];
    } else if aSplice.at < bSplice.at {
      merged', offset' := ApplyFirst(parent, a, b, aSp, bSp, pa, pb, es, merged, offset, aSplice);
      takeA, es' := true, es + [ChangeOf(a, aSplice)];
    } else {
      merged', offset' := ApplySecond(parent, a, b, aSp, bSp, pa, pb, es, merged, offset, bSplice);
      takeB, es' := true, es + [ChangeOf(b, bSplice)];
    }
  }

  /**
   Merges two lists of splices of the same parent.  It reports a conflict exactly when two splices touch the
   same part of the parent without doing the same, and otherwise the result is the parent with the changes of both
   sides substituted at their original positions.
   */
  method MergeSplices<T(==,!new)>(a: seq<T>, b: seq<T>, parent: seq<T>, aSplices: seq<Splice>, bSplices: seq<Splice>)
    returns (r: Outcome<T>)
    requires Orderly(|parent|, |a|, aSplices) && Orderly(|parent|, |b|, bSplices)
             && |parent| + |a| + |b| < SPLICE_UNASSIGNED
    ensures Within(a, aSplices) && Within(b, bSplices)
    ensures r.MergeConflict? <==> Conflict(a, b, aSplices, bSplices)
    ensures r.Merged? ==> IsMerge(parent, a, b, aSplices, bSplices, r.list)
  {
    Start(parent, a, b, aSplices, bSplices);
    ghost var es: seq<Change<T>>, pa, pb := [], 0, 0;
    var merged, offset := parent, 0;
    var aSplice, bSplice, i, j := INVALID, INVALID, 0, 0;
    hide Orderly, InOrder, State, Conflict, IsMerge, Sizes, Within;
    while true
      invariant State(parent, a, b, aSplices, bSplices, pa, pb, es, merged, offset)
      invariant Holds(aSplices, i, pa, aSplice) && Holds(bSplices, j, pb, bSplice)
      decreases |aSplices| - pa + |bSplices| - pb
    {
      i, aSplice := Next(|parent|, |a|, aSplices, i, pa, aSplice);
      j, bSplice := Next(|parent|, |b|, bSplices, j, pb, bSplice);
      if aSplice == INVALID && bSplice == INVALID {
        break;
      }
      var clash, takeA, takeB;
      clash, merged, offset, takeA, takeB, es := MergeStep(a, b, parent, aSplices, bSplices, pa, pb, es, merged, offset,
                                                           aSplice, bSplice);
      if clash {
        return MergeConflict(aSplice, bSplice);
      }
      if takeA {
        aSplice, pa := INVALID, pa + 1;
      }
      if takeB {
        bSplice, pb := INVALID, pb + 1;
      }
    }
    AllApplied(parent, a, b, aSplices, bSplices, es, merged, offset);
    return Merged(merged);
  }

  /** The same as two applications of one, where the second adds nothing new. */
  lemma KeepsMore<T>(parent: seq<T>, es: seq<Change<T>>, merged: seq<T>, offset: nat, more: nat, more': nat)
    requires Keeps(parent, es, merged, offset, more) && more <= more'
    ensures Keeps(parent, es, merged, offset, more')
  {
  }

  lemma TakeSecond<T>(parent: seq<T>, a: seq<T>, b: seq<T>, aSp: seq<Splice>, bSp: seq<Splice>, pa: nat, pb: nat,
                      es: seq<Change<T>>)
    requires Applied(|parent|, a, b, aSp, bSp, pa, pb, es) && pb < |bSp|
    requires pa < |aSp| ==> bSp[pb].at < aSp[pa].at && bSp[pb].at + bSp[pb].removed <= aSp[pa].at
    ensures Applied(|parent|, a, b, aSp, bSp, pa, pb + 1, es + [ChangeOf(b, bSp[pb])])
  {
    Swapped(|parent|, a, b, aSp, bSp, pa, pb, es);
    TakeFirst(parent, b, a, bSp, aSp, pb, pa, es);
    Swapped(|parent|, b, a, bSp, aSp, pb + 1, pa, es + [ChangeOf(b, bSp[pb])]);
  }

  lemma ConflictFound<T>(a: seq<T>, b: seq<T>, aSp: seq<Splice>, bSp: seq<Splice>, k: nat, l: nat)
    requires Within(a, aSp) && Within(b, bSp) && k < |aSp| && l < |bSp| && Clash(a, b, aSp[k], bSp[l])
    ensures Conflict(a, b, aSp, bSp)
  {
  }

  lemma Start<T>(parent: seq<T>, a: seq<T>, b: seq<T>, aSp: seq<Splice>, bSp: seq<Splice>)
    requires Orderly(|parent|, |a|, aSp) && Orderly(|parent|, |b|, bSp) && |parent| + |a| + |b| < SPLICE_UNASSIGNED
    ensures Sizes(parent, a, b, aSp, bSp) && Within(a, aSp) && Within(b, bSp)
    ensures InOrder(|parent|, |a|, aSp) && InOrder(|parent|, |b|, bSp)
            && State(parent, a, b, aSp, bSp, 0, 0, [], parent, 0)
  {
    OrderlyFits(parent, a, aSp);
    OrderlyFits(parent, b, bSp);
    DiffInOrder(parent, a, aSp);
    DiffInOrder(parent, b, bSp);
    AllAddedWithin(|parent|, |a|, aSp);
    AllAddedWithin(|parent|, |b|, bSp);
  }

  // ---------- lists ----------

  /** What a merge of two lists of splices has to give. */
  ghost predicate Correct<T(!new)>(parent: seq<T>, a: seq<T>, b: seq<T>, aSp: seq<Splice>, bSp: seq<Splice>,
                                   r: Outcome<T>) {
    && Within(a, aSp) && Within(b, bSp)
    && (r.MergeConflict? <==> Conflict(a, b, aSp, bSp))
    && (r.Merged? ==> IsMerge(parent, a, b, aSp, bSp, r.list))
  }

  /**
   Merging the two sides the other way round gives a conflict just when this one does, and otherwise the same list.
   */
  lemma Symmetric<T(!new)>(parent: seq<T>, a: seq<T>, b: seq<T>, aSp: seq<Splice>, bSp: seq<Splice>, r: Outcome<T>,
                           r': Outcome<T>)
    requires Correct(parent, a, b, aSp, bSp, r) && Correct(parent, b, a, bSp, aSp, r')
    ensures r.MergeConflict? == r'.MergeConflict? && (r.Merged? ==> r.list == r'.list)
  {
    ClashSymmetric(a, b, aSp, bSp);
    if r.Merged? {
      MergeSymmetric(parent, a, b, aSp, bSp, r.list);
      MergeUnique(parent, b, a, bSp, aSp, r.list, r'.list);
    }
  }

  /**
   Nothing changed on one side, or the same list on both: the merge is what the splices of the other make of the parent.
   */
  lemma Trivial<T(!new)>(parent: seq<T>, a: seq<T>, b: seq<T>, aSp: seq<Splice>, bSp: seq<Splice>, r: Outcome<T>)
    requires Orderly(|parent|, |a|, aSp) && |parent| < SPLICE_UNASSIGNED && Correct(parent, a, b, aSp, bSp, r)
    requires bSp == [] || (b == a && bSp == aSp)
    ensures Fit(parent, a, aSp) && r == Merged(Patched(parent, a, aSp))
  {
    if bSp == [] {
      OneSideOnly(parent, a, b, aSp);
    } else {
      BothSides(parent, a, aSp);
    }
    if r.Merged? {
      MergeUnique(parent, a, b, aSp, bSp, r.list, Patched(parent, a, aSp));
    }
  }

  type List<V> = D.List<V>

  /** The diff from `parent` to `l` stays within the limit at every level, or shares no prefix where it does not. */
  ghost predicate DiffFits<V>(parent: List<V>, l: List<V>) {
    D.AllWithin(parent.root, parent.height, l.root, l.height, DEFAULT_MAX_SPLICE_MATRIX_SIZE)
  }

  ghost function DiffFrom<V>(parent: List<V>, l: List<V>): seq<Splice> {
    D.ListDiff(parent, l, DEFAULT_MAX_SPLICE_MATRIX_SIZE)
  }

  /** What the diff of a list makes of the parent: the list itself, if the diff is right. */
  ghost function Rebuilt<V>(parent: List<V>, l: List<V>): Level<V>
    requires D.Valid(parent) && D.Valid(l)
  {
    O.ListDiffOrderly(parent, l, DEFAULT_MAX_SPLICE_MATRIX_SIZE);
    OrderlyFits(D.Values(parent), D.Values(l), DiffFrom(parent, l));
    Patched(D.Values(parent), D.Values(l), DiffFrom(parent, l))
  }

  /**
   Merges two lists with a common parent: a conflict exactly when their diffs clash, and otherwise the parent with
   both diffs substituted.  A side that did not change gives way to the other, and equal sides merge to themselves, as
   far as the diff is right.
   */
  method ThreeWayListMerge<V(==,!new)>(a: List<V>, b: List<V>, parent: List<V>) returns (r: Outcome<Item<Node<V>>>)
    requires D.Valid(a) && D.Valid(b) && D.Valid(parent)
    requires |D.Values(parent)| + |D.Values(a)| + |D.Values(b)| < SPLICE_UNASSIGNED
    ensures Correct(D.Values(parent), D.Values(a), D.Values(b), DiffFrom(parent, a), DiffFrom(parent, b), r)
    ensures b == parent || a == b ==> r == Merged(Rebuilt(parent, a))
    ensures a == parent ==> r == Merged(Rebuilt(parent, b))
    ensures DiffFits(parent, a) ==> Rebuilt(parent, a) == D.Values(a)
    ensures DiffFits(parent, b) ==> Rebuilt(parent, b) == D.Values(b)
  {
    hide D.Valid, D.Values, D.AllWithin, D.Diffed, Conflict, IsMerge, Orderly, Patched;
    O.ListDiffOrderly(parent, a, DEFAULT_MAX_SPLICE_MATRIX_SIZE);
    O.ListDiffOrderly(parent, b, DEFAULT_MAX_SPLICE_MATRIX_SIZE);
    var aSplices := D.DiffWithLimit(a, parent, DEFAULT_MAX_SPLICE_MATRIX_SIZE);
    var bSplices := D.DiffWithLimit(b, parent, DEFAULT_MAX_SPLICE_MATRIX_SIZE);
    r := MergeSplices(D.Values(a), D.Values(b), D.Values(parent), aSplices, bSplices);
    hide IsDiff;
    if b == parent || a == b {
      Trivial(D.Values(parent), D.Values(a), D.Values(b), aSplices, bSplices, r);
    }
    if a == parent {
      FromOther(D.Values(parent), D.Values(a), D.Values(b), aSplices, bSplices, r);
    }
  }

  lemma FromOther<T(!new)>(parent: seq<T>, a: seq<T>, b: seq<T>, aSp: seq<Splice>, bSp: seq<Splice>, r: Outcome<T>)
    requires Orderly(|parent|, |b|, bSp) && |parent| < SPLICE_UNASSIGNED && Correct(parent, a, b, aSp, bSp, r)
             && aSp == []
    ensures Fit(parent, b, bSp) && r == Merged(Patched(parent, b, bSp))
  {
    OneSideOnly(parent, b, a, bSp);
    Symmetric(parent, a, b, aSp, bSp, r, Merged(Patched(parent, b, bSp)));
  }
}
