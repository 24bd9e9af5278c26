/** Graphs of references whose heights drop along every edge. */
module RefGraphs {
  import opened RefQueues

  /** What each reference leads to: a commit's parents, or all the references in a chunk. */
  type Graph = map<Ref, seq<Ref>>

  ghost predicate WellFormed(g: Graph) {
    && (forall r, s :: r in g && s in g && r.hash == s.hash ==> r == s)
    && (forall r :: r in g ==> r.height > 0)
    && (forall r, s :: r in g && s in g[r] ==> s in g && s.height < r.height)
  }

  /** `y` is `x` or can be reached from it. */
  ghost predicate Reaches(g: Graph, x: Ref, y: Ref)
    requires WellFormed(g) && x in g
    decreases x.height
  {
    x == y || exists p :: p in g[x] && Reaches(g, p, y)
  }

  lemma {:induction false} ReachesLower(g: Graph, x: Ref, y: Ref)
    requires WellFormed(g) && x in g && Reaches(g, x, y)
    ensures y in g && y.height <= x.height && (y.height == x.height ==> x == y)
    decreases x.height
  {
    if x != y {
      var p :| p in g[x] && Reaches(g, p, y);
      ReachesLower(g, p, y);
    }
  }

  lemma {:induction false} ReachesOn(g: Graph, x: Ref, y: Ref, z: Ref)
    requires WellFormed(g) && x in g && Reaches(g, x, y) && y in g && Reaches(g, y, z)
    ensures Reaches(g, x, z)
    decreases x.height
  {
    if x != y {
      var p :| p in g[x] && Reaches(g, p, y);
      ReachesOn(g, p, y, z);
    }
  }

  ghost predicate InGraph(g: Graph, q: seq<Ref>) {
    forall r :: r in q ==> r in g
  }

  /** `y` can be reached from something in the queue. */
  ghost predicate FromQueue(g: Graph, q: seq<Ref>, y: Ref)
    requires WellFormed(g) && InGraph(g, q)
  {
    exists r :: r in q && Reaches(g, r, y)
  }

  /** The queue after references `popped` have been replaced by what they lead to. */
  ghost predicate Expanded(g: Graph, rest: seq<Ref>, popped: seq<Ref>, q: seq<Ref>)
    requires InGraph(g, popped)
  {
    forall s :: s in q <==> s in rest || LeadsTo(g, popped, s)
  }

  ghost predicate LeadsTo(g: Graph, popped: seq<Ref>, s: Ref)
    requires InGraph(g, popped)
  {
    exists r :: r in popped && s in g[r]
  }

  lemma ExpandedIn(g: Graph, rest: seq<Ref>, popped: seq<Ref>, q: seq<Ref>)
    requires WellFormed(g) && InGraph(g, rest) && InGraph(g, popped) && Expanded(g, rest, popped, q)
    ensures InGraph(g, q)
  {
  }

  /** What could be reached can still be reached, except for the references taken off. */
  lemma StillReached(g: Graph, before: seq<Ref>, rest: seq<Ref>, popped: seq<Ref>, q: seq<Ref>, y: Ref)
    requires WellFormed(g) && InGraph(g, before) && InGraph(g, rest) && InGraph(g, popped)
             && Expanded(g, rest, popped, q) && InGraph(g, q)
    requires forall r :: r in before ==> r in rest || r in popped
    requires FromQueue(g, before, y) && y !in popped
    ensures FromQueue(g, q, y)
  {
    var r :| r in before && Reaches(g, r, y);
    if r in rest {
      assert r in q;
    } else {
      var p :| p in g[r] && Reaches(g, p, y);
      assert LeadsTo(g, popped, p);
      assert p in q;
    }
  }
}
