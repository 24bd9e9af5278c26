/** Finding the most recent common ancestor of two commits. */
module CommonAncestor {
  import opened Options
  import opened RefQueues
  import opened RefGraphs

  ghost predicate Common(g: Graph, c1: Ref, c2: Ref, a: Ref)
    requires WellFormed(g) && c1 in g && c2 in g
  {
    Reaches(g, c1, a) && Reaches(g, c2, a)
  }

  /** A common ancestor that no other one is higher than. */
  ghost predicate Highest(g: Graph, c1: Ref, c2: Ref, a: Ref)
    requires WellFormed(g) && c1 in g && c2 in g
  {
    Common(g, c1, c2, a) && forall x :: Common(g, c1, c2, x) ==> x.height <= a.height
  }

  /** The queue of one side holds only ancestors of its commit. */
  ghost predicate Sound(g: Graph, c: Ref, q: seq<Ref>)
    requires WellFormed(g) && c in g
  {
    Sorted(q) && InGraph(g, q) && forall r :: r in q ==> Reaches(g, c, r)
  }

  /** Every common ancestor can still be reached from both queues. */
  ghost predicate Complete(g: Graph, c1: Ref, c2: Ref, q1: seq<Ref>, q2: seq<Ref>)
    requires WellFormed(g) && c1 in g && c2 in g && InGraph(g, q1) && InGraph(g, q2)
  {
    forall x :: Common(g, c1, c2, x) ==> FromQueue(g, q1, x) && FromQueue(g, q2, x)
  }

  /** Some reference that is in both, if there is one. */
  method FindCommonRef(a: seq<Ref>, b: seq<Ref>) returns (r: Option<Ref>)
    ensures r.Some? ==> r.value in a && r.value.hash in HashesOf(b)
    ensures r.None? ==> HashesOf(a) !! HashesOf(b)
  {
    for i := 0 to |a|
      invariant forall k :: 0 <= k < i ==> a[k].hash !in HashesOf(b)
    {
      if a[i].hash in HashesOf(b) {
        return Some(a[i]);
      }
    }
    return None;
  }

  function HashesOf(q: seq<Ref>): set<int> {
    set r | r in q :: r.hash
  }

  /** Puts the parents of `refs` into the queue. */
  method ParentsToQueue(refs: seq<Ref>, q: RefByHeight, g: Graph)
    requires WellFormed(g) && InGraph(g, refs) && InGraph(g, q.refs)
    modifies q
    ensures Sorted(q.refs) && Expanded(g, old(q.refs), refs, q.refs)
  {
    for i := 0 to |refs|
      invariant InGraph(g, refs[..i]) && Expanded(g, old(q.refs), refs[..i], q.refs)
    {
      var parents := g[refs[i]];
      ghost var before := q.refs;
      for k := 0 to |parents|
        invariant q.refs == before + parents[..k]
      {
        q.PushBack(parents[k]);
      }
      assert parents[..|parents|] == parents;
      OneMoreExpanded(g, old(q.refs), refs, i, before);
    }
    assert refs[..|refs|] == refs;
    q.SortRefs();
  }

  lemma OneMoreExpanded(g: Graph, rest: seq<Ref>, refs: seq<Ref>, i: nat, q: seq<Ref>)
    requires i < |refs| && InGraph(g, refs) && InGraph(g, refs[..i]) && Expanded(g, rest, refs[..i], q)
    ensures InGraph(g, refs[..i + 1]) && Expanded(g, rest, refs[..i + 1], q + g[refs[i]])
  {
    assert refs[..i + 1] == refs[..i] + [refs[i]];
    forall s ensures LeadsTo(g, refs[..i + 1], s) <==> LeadsTo(g, refs[..i], s) || s in g[refs[i]] {
      if s in g[refs[i]] {
        assert refs[i] in refs[..i + 1];
      }
      if LeadsTo(g, refs[..i + 1], s) && s !in g[refs[i]] {
        var r :| r in refs[..i + 1] && s in g[r];
        assert r in refs[..i];
      }
      if LeadsTo(g, refs[..i], s) {
        var r :| r in refs[..i] && s in g[r];
        assert r in refs[..i + 1];
      }
    }
  }

  // ---------- one side ----------

  /** Taking references off and putting their parents in keeps the queue sound, and lowers it. */
  lemma SoundStep(g: Graph, c: Ref, before: seq<Ref>, rest: seq<Ref>, popped: seq<Ref>, q: seq<Ref>, height: nat)
    requires WellFormed(g) && c in g && Sound(g, c, before) && InGraph(g, popped) && Sorted(q)
             && Expanded(g, rest, popped, q)
    requires forall r :: r in rest ==> r in before && r.height < height
    requires forall r :: r in popped ==> r in before && r.height == height
    requires height > 0
    ensures Sound(g, c, q) && MaxHeight(q) < height
  {
    forall s | s in q ensures s in g && Reaches(g, c, s) && s.height < height {
      if s !in rest {
        var r :| r in popped && s in g[r];
        assert Reaches(g, r, s);
        ReachesOn(g, c, r, s);
      }
    }
    if q != [] {
      assert q[|q| - 1] in q;
    }
  }

  /** What can be reached from a queue is no higher than the queue, and as high only if it is in it. */
  lemma Below(g: Graph, q: seq<Ref>, x: Ref)
    requires WellFormed(g) && Sorted(q) && InGraph(g, q) && FromQueue(g, q, x)
    ensures x.height <= MaxHeight(q) && (x.height == MaxHeight(q) ==> x in q)
  {
    var r :| r in q && Reaches(g, r, x);
    ReachesLower(g, r, x);
    MaxHeightIsMost(q);
  }

  /** The highest references of a queue have been taken off. */
  ghost predicate Taken(before: seq<Ref>, rest: seq<Ref>, popped: seq<Ref>, height: nat) {
    && (forall r :: r in popped <==> r in before && r.height == height)
    && (forall r :: r in rest <==> r in before && r.height < height)
  }

  /** Everything that could be reached from one queue, except what has been taken off, can be reached from the other. */
  ghost predicate Keeps(g: Graph, before: seq<Ref>, popped: seq<Ref>, q: seq<Ref>)
    requires WellFormed(g) && InGraph(g, before) && InGraph(g, q)
  {
    forall x :: FromQueue(g, before, x) && x !in popped ==> FromQueue(g, q, x)
  }

  method Take(q: RefByHeight, g: Graph, ghost c: Ref, height: nat) returns (popped: seq<Ref>)
    requires WellFormed(g) && c in g && Sound(g, c, q.refs) && q.refs != [] && height == MaxHeight(q.refs)
    modifies q
    ensures height > 0 && InGraph(g, q.refs) && InGraph(g, popped) && Taken(old(q.refs), q.refs, popped, height)
  {
    assert q.refs[|q.refs| - 1] in q.refs;
    MaxHeightIsMost(q.refs);
    popped := q.PopRefsOfHeight(height);
  }

  /** Replaces the references taken off by their parents. */
  method PutParents(q: RefByHeight, g: Graph, ghost c: Ref, ghost before: seq<Ref>, popped: seq<Ref>, ghost height: nat)
    requires WellFormed(g) && c in g && Sound(g, c, before) && height > 0
    requires InGraph(g, q.refs) && InGraph(g, popped) && Taken(before, q.refs, popped, height)
             && MaxHeight(before) == height
    modifies q
    ensures Sound(g, c, q.refs) && MaxHeight(q.refs) < height && Keeps(g, before, popped, q.refs)
  {
    MaxHeightIsMost(before);
    ghost var rest := q.refs;
    ParentsToQueue(popped, q, g);
    ExpandedIn(g, rest, popped, q.refs);
    SoundStep(g, c, before, rest, popped, q.refs, height);
    forall x | FromQueue(g, before, x) && x !in popped ensures FromQueue(g, q.refs, x) {
      StillReached(g, before, rest, popped, q.refs, x);
    }
  }

  // ---------- both sides ----------

  lemma OnlyFirst(g: Graph, c1: Ref, c2: Ref, q1: seq<Ref>, q2: seq<Ref>, q1': seq<Ref>, rest: seq<Ref>,
                  popped: seq<Ref>)
    requires WellFormed(g) && c1 in g && c2 in g && Sound(g, c1, q1) && Sound(g, c2, q2) && Complete(g, c1, c2, q1, q2)
             && InGraph(g, q1')
    requires MaxHeight(q2) < MaxHeight(q1) && Taken(q1, rest, popped, MaxHeight(q1))
    requires Keeps(g, q1, popped, q1')
    ensures Complete(g, c1, c2, q1', q2)
  {
    forall x | Common(g, c1, c2, x) ensures FromQueue(g, q1', x) && FromQueue(g, q2, x) {
      Below(g, q2, x);
    }
  }

  lemma CompleteSwap(g: Graph, c1: Ref, c2: Ref, q1: seq<Ref>, q2: seq<Ref>)
    requires WellFormed(g) && c1 in g && c2 in g && InGraph(g, q1) && InGraph(g, q2) && Complete(g, c1, c2, q1, q2)
    ensures Complete(g, c2, c1, q2, q1)
  {
    forall x | Common(g, c2, c1, x) ensures FromQueue(g, q2, x) && FromQueue(g, q1, x) {
      assert Common(g, c1, c2, x);
    }
  }

  lemma BothLower(g: Graph, c1: Ref, c2: Ref, q1: seq<Ref>, q2: seq<Ref>, q1': seq<Ref>, q2': seq<Ref>,
                  rest1: seq<Ref>, rest2: seq<Ref>, popped1: seq<Ref>, popped2: seq<Ref>)
    requires WellFormed(g) && c1 in g && c2 in g && Sound(g, c1, q1) && Sound(g, c2, q2) && Complete(g, c1, c2, q1, q2)
    requires InGraph(g, q1') && InGraph(g, q2') && MaxHeight(q1) == MaxHeight(q2)
             && HashesOf(popped1) !! HashesOf(popped2)
    requires Taken(q1, rest1, popped1, MaxHeight(q1)) && Taken(q2, rest2, popped2, MaxHeight(q2))
    requires Keeps(g, q1, popped1, q1') && Keeps(g, q2, popped2, q2')
    ensures Complete(g, c1, c2, q1', q2')
  {
    forall x | Common(g, c1, c2, x) ensures FromQueue(g, q1', x) && FromQueue(g, q2', x) {
      Below(g, q1, x);
      Below(g, q2, x);
      assert x in popped1 <==> x in popped2;
      assert x in popped1 ==> x.hash in HashesOf(popped1) && x.hash in HashesOf(popped2);
    }
  }

  lemma Found(g: Graph, c1: Ref, c2: Ref, q1: seq<Ref>, q2: seq<Ref>, rest1: seq<Ref>, rest2: seq<Ref>,
              popped1: seq<Ref>, popped2: seq<Ref>, a: Ref)
    requires WellFormed(g) && c1 in g && c2 in g && Sound(g, c1, q1) && Sound(g, c2, q2) && Complete(g, c1, c2, q1, q2)
    requires Taken(q1, rest1, popped1, MaxHeight(q1)) && Taken(q2, rest2, popped2, MaxHeight(q2))
    requires a in popped1 && a.hash in HashesOf(popped2)
    ensures Highest(g, c1, c2, a)
  {
    SameHash(g, a, popped2);
    forall x | Common(g, c1, c2, x) ensures x.height <= a.height {
      Below(g, q1, x);
    }
  }

  /**
   The most recent common ancestor of two commits: one is found exactly when one exists, and no other common
   ancestor is higher.
   */
  method FindCommonAncestor(c1: Ref, c2: Ref, g: Graph) returns (a: Option<Ref>)
    requires WellFormed(g) && c1 in g && c2 in g
    ensures a.Some? ==> Highest(g, c1, c2, a.value)
    ensures a.None? ==> forall x :: !Common(g, c1, c2, x)
  {
    var c1Q := new RefByHeight(c1);
    var c2Q := new RefByHeight(c2);
    while c1Q.refs != [] && c2Q.refs != []
      invariant Sound(g, c1, c1Q.refs) && Sound(g, c2, c2Q.refs) && Complete(g, c1, c2, c1Q.refs, c2Q.refs)
      decreases MaxHeight(c1Q.refs) + MaxHeight(c2Q.refs)
    {
      hide Sound, Complete, Sorted, Taken, Keeps, WellFormed;
      var c1Ht, c2Ht := MaxHeight(c1Q.refs), MaxHeight(c2Q.refs);
      ghost var q1, q2 := c1Q.refs, c2Q.refs;
      if c1Ht == c2Ht {
        var c1Parents := Take(c1Q, g, c1, c1Ht);
        var c2Parents := Take(c2Q, g, c2, c2Ht);
        var common := FindCommonRef(c1Parents, c2Parents);
        if common.Some? {
          Found(g, c1, c2, q1, q2, c1Q.refs, c2Q.refs, c1Parents, c2Parents, common.value);
          return common;
        }
        ghost var rest1, rest2 := c1Q.refs, c2Q.refs;
        PutParents(c1Q, g, c1, q1, c1Parents, c1Ht);
        PutParents(c2Q, g, c2, q2, c2Parents, c2Ht);
        BothLower(g, c1, c2, q1, q2, c1Q.refs, c2Q.refs, rest1, rest2, c1Parents, c2Parents);
      } else if c1Ht > c2Ht {
        var popped := Take(c1Q, g, c1, c1Ht);
        ghost var rest := c1Q.refs;
        PutParents(c1Q, g, c1, q1, popped, c1Ht);
        OnlyFirst(g, c1, c2, q1, q2, c1Q.refs, rest, popped);
      } else {
        var popped := Take(c2Q, g, c2, c2Ht);
        ghost var rest := c2Q.refs;
        PutParents(c2Q, g, c2, q2, popped, c2Ht);
        CompleteSwap(g, c1, c2, q1, q2);
        OnlyFirst(g, c2, c1, q2, q1, c2Q.refs, rest, popped);
        CompleteSwap(g, c2, c1, c2Q.refs, q1);
      }
    }
    return None;
  }

  lemma SameHash(g: Graph, r: Ref, q: seq<Ref>)
    requires WellFormed(g) && r in g && InGraph(g, q) && r.hash in HashesOf(q)
    ensures r in q
  {
  }
}
