/** Copying everything reachable from a reference into another database. */
module Pull {
  import opened RefQueues
  import opened RefGraphs

  /** What a peek beyond the end of a queue gives. */
  const NO_REF := Ref(0, 0)

  function PeekAt(q: seq<Ref>, i: int): Ref {
    if 0 <= i < |q| then q[i] else NO_REF
  }

  // ---------- what two queues have in common ----------

  ghost predicate KeptAmong(q: seq<Ref>, indices: seq<nat>, n: nat, r: Ref)
    requires n <= |q|
  {
    exists i :: 0 <= i < n && q[i] == r && i !in indices
  }

  lemma {:induction false} WithoutElements(q: seq<Ref>, indices: seq<nat>, n: nat)
    requires Strict(q) && n <= |q|
    ensures var w := Without(q, indices, n);
            && Strict(w) && (forall r :: r in w <==> KeptAmong(q, indices, n, r))
  {
    if n > 0 {
      WithoutElements(q, indices, n - 1);
      var w, w' := Without(q, indices, n - 1), Without(q, indices, n);
      forall r
        ensures KeptAmong(q, indices, n, r) <==>
          KeptAmong(q, indices, n - 1, r) || (r == q[n - 1] && n - 1 !in indices) {
        if r == q[n - 1] && n - 1 !in indices {
          assert q[n - 1] == r;
        }
      }
      forall k | 0 <= k < |w| ensures HeightOrder(q[n - 1], w[k]) {
        assert w[k] in w;
        assert KeptAmong(q, indices, n - 1, w[k]);
      }
    }
  }

  /** The walk through both queues from the back: how far it has come. */
  ghost predicate Walked(tall: seq<Ref>, m: nat, short: seq<Ref>, shortIdx: int, height: nat, tallRefs: seq<Ref>,
                         comRefs: seq<Ref>, comIndices: seq<nat>) {
    && m <= |tall| && -1 <= shortIdx < |short| && |comIndices| == |comRefs|
    && (forall k :: 0 <= k < |comIndices| ==> shortIdx < comIndices[k] < |short| && short[comIndices[k]] == comRefs[k])
    && (forall k, l :: 0 <= k < l < |comIndices| ==> comIndices[k] > comIndices[l])
    && (forall k, l :: shortIdx < k < |short| && 0 <= l < m ==> HeightOrder(short[k], tall[l]))
    && (forall r :: r in tallRefs ==> r.height == height && r !in short)
    && (forall r :: r in comRefs ==> r.height == height && r in short)
    && (forall r :: r in tall <==> r in tall[..m] || r in tallRefs || r in comRefs)
  }

  lemma PopTall(tall: seq<Ref>, m: nat, short: seq<Ref>, shortIdx: int, height: nat, tallRefs: seq<Ref>,
                comRefs: seq<Ref>, comIndices: seq<nat>)
    requires Strict(tall) && Strict(short) && Walked(tall, m, short, shortIdx, height, tallRefs, comRefs, comIndices)
    requires m > 0 && tall[m - 1].height == height > 0 && HeightOrder(tall[m - 1], PeekAt(short, shortIdx))
    ensures Walked(tall, m - 1, short, shortIdx, height, tallRefs + [tall[m - 1]], comRefs, comIndices)
  {
    var r := tall[m - 1];
    assert tall[..m] == tall[..m - 1] + [r];
    forall k | 0 <= k < |short| ensures short[k] != r {
      if k > shortIdx {
        assert HeightOrder(short[k], tall[m - 1]);
      } else if k < shortIdx {
        assert HeightOrder(short[shortIdx], short[k]);
      }
    }
  }

  lemma PopCommon(tall: seq<Ref>, m: nat, short: seq<Ref>, shortIdx: int, height: nat, tallRefs: seq<Ref>,
                  comRefs: seq<Ref>, comIndices: seq<nat>)
    requires Strict(tall) && Strict(short) && Walked(tall, m, short, shortIdx, height, tallRefs, comRefs, comIndices)
    requires m > 0 && tall[m - 1].height == height > 0 && shortIdx >= 0 && short[shortIdx] == tall[m - 1]
    ensures Walked(tall, m - 1, short, shortIdx - 1, height, tallRefs, comRefs + [tall[m - 1]], comIndices + [shortIdx])
  {
    assert tall[..m] == tall[..m - 1] + [tall[m - 1]];
  }

  lemma PassShort(tall: seq<Ref>, m: nat, short: seq<Ref>, shortIdx: int, height: nat, tallRefs: seq<Ref>,
                  comRefs: seq<Ref>, comIndices: seq<nat>)
    requires Strict(tall) && Strict(short) && Walked(tall, m, short, shortIdx, height, tallRefs, comRefs, comIndices)
    requires m > 0 && shortIdx >= 0 && HeightOrder(short[shortIdx], tall[m - 1])
    ensures Walked(tall, m, short, shortIdx - 1, height, tallRefs, comRefs, comIndices)
  {
    forall l | 0 <= l < m ensures HeightOrder(short[shortIdx], tall[l]) {
      assert l < m - 1 ==> HeightOrder(tall[m - 1], tall[l]);
    }
  }

  /** What is left of the queues, and what was taken off them, after the references they have in common are found. */
  ghost predicate Parted(tall: seq<Ref>, short: seq<Ref>, height: nat, tall': seq<Ref>, short': seq<Ref>,
                         tallRefs: seq<Ref>, comRefs: seq<Ref>) {
    && Strict(tall') && Strict(short')
    && (forall r :: r in tall' <==> r in tall && r.height < height)
    && (forall r :: r in tallRefs <==> r in tall && r.height == height && r !in short)
    && (forall r :: r in comRefs <==> r in tall && r.height == height && r in short)
    && (forall r :: r in short' <==> r in short && r !in comRefs)
  }

  lemma OnePlace(q: seq<Ref>, i: nat, j: nat)
    requires Strict(q) && i < |q| && j < |q| && q[i] == q[j]
    ensures i == j
  {
  }

  /** What is at one of the places taken out is in common, and nothing else is. */
  lemma TakenOut(short: seq<Ref>, comRefs: seq<Ref>, comIndices: seq<nat>, i: nat)
    requires Strict(short) && |comIndices| == |comRefs| && i < |short|
    requires forall k :: 0 <= k < |comIndices| ==> comIndices[k] < |short| && short[comIndices[k]] == comRefs[k]
    ensures short[i] in comRefs <==> i in comIndices
    ensures KeptAmong(short, comIndices, |short|, short[i]) <==> i !in comIndices
  {
    if short[i] in comRefs {
      var k :| 0 <= k < |comRefs| && comRefs[k] == short[i];
      OnePlace(short, comIndices[k], i);
    }
    if KeptAmong(short, comIndices, |short|, short[i]) {
      var n :| 0 <= n < |short| && short[n] == short[i] && n !in comIndices;
      OnePlace(short, n, i);
    }
  }

  lemma LeftOver(short: seq<Ref>, comRefs: seq<Ref>, comIndices: seq<nat>)
    requires Strict(short) && |comIndices| == |comRefs|
    requires forall k :: 0 <= k < |comIndices| ==> comIndices[k] < |short| && short[comIndices[k]] == comRefs[k]
    ensures var w := Without(short, comIndices, |short|);
            Strict(w) && forall r :: r in w <==> r in short && r !in comRefs
  {
    WithoutElements(short, comIndices, |short|);
    forall i | 0 <= i < |short| ensures short[i] in comRefs <==> !KeptAmong(short, comIndices, |short|, short[i]) {
      hide Strict;
      TakenOut(short, comRefs, comIndices, i);
    }
    hide Strict, Without;
  }

  lemma WalkEnds(tall: seq<Ref>, m: nat, short: seq<Ref>, shortIdx: int, height: nat, tallRefs: seq<Ref>,
                 comRefs: seq<Ref>, comIndices: seq<nat>)
    requires Strict(tall) && Strict(short) && Walked(tall, m, short, shortIdx, height, tallRefs, comRefs, comIndices)
    requires height > 0 && MaxHeight(tall[..m]) < height
    ensures Parted(tall, short, height, tall[..m], Without(short, comIndices, |short|), tallRefs, comRefs)
  {
    LeftOver(short, comRefs, comIndices);
    LowerPart(tall, m, height);
    hide Strict, HeightOrder, Without, KeptAmong;
  }

  lemma LowerPart(tall: seq<Ref>, m: nat, height: nat)
    requires Strict(tall) && m <= |tall| && height > 0 && MaxHeight(tall[..m]) < height
    ensures Strict(tall[..m]) && forall r :: r in tall[..m] ==> r.height < height
  {
    assert Sorted(tall[..m]);
    MaxHeightIsMost(tall[..m]);
  }

  /**
   One step of the walk: the reference at hand is only in the taller queue, or in both, or only in the shorter one.
   */
  method WalkStep(taller: RefByHeight, shorter: RefByHeight, ghost tall: seq<Ref>, ghost m: nat, ghost short: seq<Ref>,
                  shortIdx: int,
                  height: nat, tallRefs: seq<Ref>, comRefs: seq<Ref>, comIndices: seq<nat>)
    returns (ghost m': nat, shortIdx': int, tallRefs': seq<Ref>, comRefs': seq<Ref>, comIndices': seq<nat>)
    requires taller != shorter && 0 < m <= |tall| && taller.refs == tall[..m] && shorter.refs == short && Strict(tall)
             && Strict(short)
    requires tall[m - 1].height == height > 0 && Walked(tall, m, short, shortIdx, height, tallRefs, comRefs, comIndices)
    modifies taller
    ensures m' <= |tall| && taller.refs == tall[..m'] && m' + shortIdx' < m + shortIdx
    ensures Walked(tall, m', short, shortIdx', height, tallRefs', comRefs', comIndices')
  {
    hide Walked, Strict;
    var tallPeek, shortPeek := taller.refs[|taller.refs| - 1], PeekAt(shorter.refs, shortIdx);
    InRange(tall, m, short, shortIdx, height, tallRefs, comRefs, comIndices);
    m', shortIdx', tallRefs', comRefs', comIndices' := m, shortIdx, tallRefs, comRefs, comIndices;
    if HeightOrder(tallPeek, shortPeek) {
      PopTall(tall, m, short, shortIdx, height, tallRefs, comRefs, comIndices);
      var r := taller.PopBack();
      tallRefs', m' := tallRefs + [r], m - 1;
      return;
    }
    if shortPeek == tallPeek {
      PopCommon(tall, m, short, shortIdx, height, tallRefs, comRefs, comIndices);
      comIndices' := comIndices + [shortIdx];
      var r := taller.PopBack();
      comRefs', m' := comRefs + [r], m - 1;
    } else {
      PassShort(tall, m, short, shortIdx, height, tallRefs, comRefs, comIndices);
    }
    shortIdx' := shortIdx - 1;
  }

  /** Takes the references of the given height off one queue, and those it has in common with the other off both. */
  method FindCommon(taller: RefByHeight, shorter: RefByHeight, height: nat)
    returns (tallRefs: seq<Ref>, comRefs: seq<Ref>)
    requires taller != shorter && Strict(taller.refs) && Strict(shorter.refs) && MaxHeight(taller.refs) == height > 0
    modifies taller, shorter
    ensures Parted(old(taller.refs), old(shorter.refs), height, taller.refs, shorter.refs, tallRefs, comRefs)
  {
    tallRefs, comRefs := [], [];
    var comIndices: seq<nat> := [];
    var shortIdx := |shorter.refs| - 1;
    ghost var tall, short := taller.refs, shorter.refs;
    ghost var m: nat := |tall|;
    WalkStarts(tall, short, height);
    hide Walked, Strict, HeightOrder, Parted, Without;
    while taller.refs != [] && MaxHeight(taller.refs) == height
      invariant m <= |tall| && taller.refs == tall[..m] && shorter.refs == short
      invariant Walked(tall, m, short, shortIdx, height, tallRefs, comRefs, comIndices)
      decreases m + shortIdx + 1
    {
      InRange(tall, m, short, shortIdx, height, tallRefs, comRefs, comIndices);
      m, shortIdx, tallRefs, comRefs, comIndices := WalkStep(taller, shorter, tall, m, short, shortIdx, height,
                                                             tallRefs, comRefs, comIndices);
    }
    WalkEnds(tall, m, short, shortIdx, height, tallRefs, comRefs, comIndices);
    InRange(tall, m, short, shortIdx, height, tallRefs, comRefs, comIndices);
    shorter.DropIndices(comIndices);
  }

  lemma InRange(tall: seq<Ref>, m: nat, short: seq<Ref>, shortIdx: int, height: nat, tallRefs: seq<Ref>,
                comRefs: seq<Ref>, comIndices: seq<nat>)
    requires Walked(tall, m, short, shortIdx, height, tallRefs, comRefs, comIndices)
    ensures -1 <= shortIdx < |short|
    ensures forall k :: 0 <= k < |comIndices| ==> comIndices[k] < |short|
    ensures forall k, l :: 0 <= k < l < |comIndices| ==> comIndices[k] > comIndices[l]
  {
  }

  lemma WalkStarts(tall: seq<Ref>, short: seq<Ref>, height: nat)
    ensures Walked(tall, |tall|, short, |short| - 1, height, [], [], []) && tall[..|tall|] == tall
  {
  }

  // ---------- the sink ----------

  /** With a chunk, everything it leads to is there. */
  ghost predicate Closed(g: Graph, present: set<Ref>) {
    forall r :: r in present ==> r in g && forall c :: c in g[r] ==> c in present
  }

  lemma {:induction false} ClosedReaches(g: Graph, present: set<Ref>, x: Ref, y: Ref)
    requires WellFormed(g) && Closed(g, present) && x in present && Reaches(g, x, y)
    ensures y in present
    decreases x.height
  {
    if x != y {
      var p :| p in g[x] && Reaches(g, p, y);
      ClosedReaches(g, present, p, y);
    }
  }

  /** A database that chunks are copied into. */
  class Sink {
    const present: set<Ref>
    var scheduled: set<Ref>

    constructor (present: set<Ref>)
      ensures this.present == present && scheduled == {}
    {
      this.present, this.scheduled := present, {};
    }

    /** Sure of what was there at first; what has been scheduled since may or may not be seen. */
    method Has(r: Ref) returns (has: bool)
      ensures has ==> r in present + scheduled
      ensures !has ==> r !in present
    {
      if * {
        has := r in present;
      } else {
        has := r in present + scheduled;
      }
    }

    method SchedulePut(r: Ref)
      modifies this
      ensures scheduled == old(scheduled) + {r}
    {
      scheduled := scheduled + {r};
    }
  }

  // ---------- a round ----------

  /** The references in chunks, and which of them are the parents of a commit. */
  datatype World = World(chunks: Graph, parents: map<Ref, set<Ref>>)

  /** Queues and work lists of one round. */
  datatype Work = Work(srcQ: seq<Ref>, sinkQ: seq<Ref>, srcRefs: seq<Ref>, sinkRefs: seq<Ref>, comRefs: seq<Ref>)

  /** What has to be copied is in the sink, scheduled, or can still be found. */
  ghost predicate Tracks(g: Graph, source: Ref, present: set<Ref>, scheduled: set<Ref>, w: Work) {
    && OnTheWay(present, scheduled, w, source)
    && forall s :: s in scheduled && s in g ==> forall c :: c in g[s] ==> OnTheWay(present, scheduled, w, c)
  }

  ghost predicate OnTheWay(present: set<Ref>, scheduled: set<Ref>, w: Work, r: Ref) {
    r in present || r in scheduled || r in w.srcQ || r in w.srcRefs
  }

  /** Only what the source reference leads to is looked at, and nothing that is in the sink is scheduled. */
  ghost predicate Proper(g: Graph, source: Ref, present: set<Ref>, scheduled: set<Ref>, w: Work)
    requires WellFormed(g) && source in g
  {
    && (forall r :: r in w.srcQ || r in w.srcRefs || r in w.comRefs || r in scheduled ==>
            r in g && Reaches(g, source, r))
    && scheduled !! present
    && (forall r :: r in w.sinkQ || r in w.sinkRefs || r in w.comRefs ==> r in present)
  }

  /** How high what is left can be: what is taken off a queue is at most one higher than what stays. */
  ghost predicate Bounded(w: Work, src: nat, sink: nat) {
    && (forall r :: r in w.srcQ ==> r.height <= src) && (forall r :: r in w.sinkQ ==> r.height <= sink)
    && (forall r :: r in w.srcRefs || r in w.comRefs ==> r.height <= src + 1)
    && (forall r :: r in w.sinkRefs || r in w.comRefs ==> r.height <= sink + 1)
  }

  ghost predicate Working(g: Graph, source: Ref, present: set<Ref>, scheduled: set<Ref>, w: Work, src: nat, sink: nat) {
    && WellFormed(g) && source in g && Closed(g, present)
    && Tracks(g, source, present, scheduled, w) && Proper(g, source, present, scheduled, w) && Bounded(w, src, sink)
  }

  function Drop(q: seq<Ref>, k: nat): seq<Ref>
    requires k < |q|
  {
    q[..k] + q[k + 1..]
  }

  lemma DropElements(q: seq<Ref>, k: nat)
    requires k < |q|
    ensures forall r :: r in q <==> r in Drop(q, k) || r == q[k]
  {
    assert q == q[..k] + [q[k]] + q[k + 1..];
  }

  /** A source reference that the sink does not have: it is scheduled, and what it leads to is looked at next. */
  lemma SourceCopied(g: Graph, source: Ref, present: set<Ref>, scheduled: set<Ref>, w: Work, k: nat, src: nat,
                     sink: nat)
    requires Working(g, source, present, scheduled, w, src, sink) && k < |w.srcRefs| && w.srcRefs[k] !in present
             && w.srcRefs[k] in g
    ensures var r := w.srcRefs[k];
            Working(g, source, present, scheduled + {r}, w.(srcRefs := Drop(w.srcRefs, k), srcQ := w.srcQ + g[r]), src,
                    sink)
  {
    var r := w.srcRefs[k];
    DropElements(w.srcRefs, k);
    forall c | c in g[r] ensures Reaches(g, source, c) {
      assert Reaches(g, c, c);
      assert Reaches(g, r, c);
      ReachesOn(g, source, r, c);
    }
  }

  /** A source reference that the sink has. */
  lemma SourceSkipped(g: Graph, source: Ref, present: set<Ref>, scheduled: set<Ref>, w: Work, k: nat, src: nat,
                      sink: nat)
    requires Working(g, source, present, scheduled, w, src, sink) && k < |w.srcRefs|
             && w.srcRefs[k] in present + scheduled
    ensures Working(g, source, present, scheduled, w.(srcRefs := Drop(w.srcRefs, k)), src, sink)
  {
    DropElements(w.srcRefs, k);
  }

  /** A reference of the sink: what it leads to is in the sink too. */
  lemma SinkLooked(g: Graph, source: Ref, present: set<Ref>, scheduled: set<Ref>, w: Work, k: nat, found: seq<Ref>,
                   src: nat, sink: nat)
    requires Working(g, source, present, scheduled, w, src, sink) && k < |w.sinkRefs| && w.sinkRefs[k] in g
    requires forall c :: c in found ==> c in g[w.sinkRefs[k]]
    ensures Working(g, source, present, scheduled, w.(sinkRefs := Drop(w.sinkRefs, k), sinkQ := w.sinkQ + found), src,
                    sink)
  {
    DropElements(w.sinkRefs, k);
  }

  /** A common reference: what it leads to is looked at on both sides, or only in the sink. */
  lemma CommonLooked(g: Graph, source: Ref, present: set<Ref>, scheduled: set<Ref>, w: Work, k: nat, found: seq<Ref>,
                     both: bool, src: nat, sink: nat)
    requires Working(g, source, present, scheduled, w, src, sink) && k < |w.comRefs| && w.comRefs[k] in g
    requires forall c :: c in found ==> c in g[w.comRefs[k]]
    ensures Working(g, source, present, scheduled,
                    w.(comRefs := Drop(w.comRefs, k), sinkQ := w.sinkQ + found, srcQ := if both then w.srcQ + found
                       else w.srcQ), src, sink)
  {
    var r := w.comRefs[k];
    DropElements(w.comRefs, k);
    forall c | c in found ensures Reaches(g, source, c) {
      assert Reaches(g, c, c);
      assert Reaches(g, r, c);
      ReachesOn(g, source, r, c);
    }
  }

  // ---------- the workers ----------

  /** Copies a chunk that the sink does not have, and says what it leads to. */
  method TraverseSource(r: Ref, world: World, sink: Sink) returns (reachables: seq<Ref>)
    requires r in world.chunks
    modifies sink
    ensures if r in sink.present then sink.scheduled == old(sink.scheduled) && reachables == []
            else || (sink.scheduled == old(sink.scheduled) + {r} && reachables == world.chunks[r])
                 || (sink.scheduled == old(sink.scheduled) && r in sink.scheduled && reachables == [])
  {
    var has := sink.Has(r);
    reachables := [];
    if !has {
      sink.SchedulePut(r);
      reachables := world.chunks[r];
    }
  }

  /** What a chunk of the sink leads to: leaving out the lowest chunks misses nothing, and all of it is in the sink. */
  method TraverseSink(r: Ref, world: World, ghost present: set<Ref>) returns (reachables: seq<Ref>)
    requires WellFormed(world.chunks) && Closed(world.chunks, present) && r in present
    ensures forall c :: c in reachables <==> c in world.chunks[r]
    ensures forall c :: c in reachables ==> c in present && c.height < r.height
  {
    reachables := if r.height > 1 then world.chunks[r] else [];
  }

  /** What a common commit leads to, but not the parents of the head of the sink. */
  method TraverseCommon(r: Ref, sinkHead: Ref, world: World) returns (reachables: seq<Ref>)
    requires r in world.chunks
    ensures r.height > 1 && r in world.parents ==>
              forall c :: c in reachables <==> c in world.chunks[r] && !(r == sinkHead && c in world.parents[r])
    ensures !(r.height > 1 && r in world.parents) ==> reachables == []
  {
    reachables := [];
    if r.height > 1 && r in world.parents {
      var exclusionSet := if r == sinkHead then world.parents[r] else {};
      reachables := world.chunks[r];
      var i := 0;
      while i < |reachables|
        invariant i <= |reachables|
        invariant forall k :: 0 <= k < i ==> reachables[k] !in exclusionSet
        invariant forall c :: c in reachables || c in exclusionSet <==> c in world.chunks[r] || c in exclusionSet
        invariant forall c :: c in reachables ==> c in world.chunks[r]
        decreases |reachables| - i
      {
        if reachables[i] in exclusionSet {
          var end := |reachables| - 1;
          ghost var before := reachables;
          reachables := reachables[i := reachables[end]][..end];
          SwappedOut(before, i, reachables);
        } else {
          i := i + 1;
        }
      }
    }
  }

  lemma SwappedOut(q: seq<Ref>, i: nat, q': seq<Ref>)
    requires i < |q| && q' == q[i := q[|q| - 1]][..|q| - 1]
    ensures (forall c :: c in q' ==> c in q) && (forall c :: c in q ==> c in q' || c == q[i])
    ensures forall k :: 0 <= k < i ==> q'[k] == q[k]
  {
    forall c | c in q ensures c in q' || c == q[i] {
      var k :| 0 <= k < |q| && q[k] == c;
      if k != i {
        var l := if k == |q| - 1 then i else k;
        if l < |q'| {
          assert q'[l] == c;
        }
      }
    }
    forall c | c in q' ensures c in q {
      var k :| 0 <= k < |q'| && q'[k] == c;
      assert c == q[k] || c == q[|q| - 1];
    }
  }

  method Append(q: RefByHeight, refs: seq<Ref>)
    modifies q
    ensures q.refs == old(q.refs) + refs
  {
    for i := 0 to |refs|
      invariant q.refs == old(q.refs) + refs[..i]
    {
      q.PushBack(refs[i]);
    }
    assert refs[..|refs|] == refs;
  }

  /** Deals with one result of the source. */
  method SourceResult(world: World, ghost source: Ref, sink: Sink, srcQ: RefByHeight, ghost sinkQ: RefByHeight,
                      srcRefs: seq<Ref>, ghost sinkRefs: seq<Ref>, ghost comRefs: seq<Ref>, k: nat, ghost src: nat,
                        ghost snk: nat)
    requires srcQ != sinkQ && k < |srcRefs|
    requires Working(world.chunks, source, sink.present, sink.scheduled,
                     Work(srcQ.refs, sinkQ.refs, srcRefs, sinkRefs, comRefs), src, snk)
    modifies sink, srcQ
    ensures Working(world.chunks, source, sink.present, sink.scheduled,
                    Work(srcQ.refs, sinkQ.refs, Drop(srcRefs, k), sinkRefs, comRefs), src, snk)
  {
    ghost var w := Work(srcQ.refs, sinkQ.refs, srcRefs, sinkRefs, comRefs);
    ghost var scheduled := sink.scheduled;
    var r := srcRefs[k];
    SourceIn(world.chunks, source, sink.present, sink.scheduled, w, r, src, snk);
    hide Working;
    var reachables := TraverseSource(r, world, sink);
    Append(srcQ, reachables);
    if r !in sink.present && sink.scheduled == scheduled + {r} && reachables == world.chunks[r] {
      SourceCopied(world.chunks, source, sink.present, scheduled, w, k, src, snk);
    } else {
      assert srcQ.refs == w.srcQ;
      SourceSkipped(world.chunks, source, sink.present, scheduled, w, k, src, snk);
    }
  }

  lemma SourceIn(g: Graph, source: Ref, present: set<Ref>, scheduled: set<Ref>, w: Work, r: Ref, src: nat, sink: nat)
    requires Working(g, source, present, scheduled, w, src, sink)
             && (r in w.srcRefs || r in w.sinkRefs || r in w.comRefs)
    ensures r in g
  {
  }

  lemma SinkIn(g: Graph, source: Ref, present: set<Ref>, scheduled: set<Ref>, w: Work, r: Ref, src: nat, sink: nat)
    requires Working(g, source, present, scheduled, w, src, sink) && r in w.sinkRefs
    ensures WellFormed(g) && Closed(g, present) && r in present
  {
  }

  /** Deals with one result of the sink. */
  method SinkResult(world: World, ghost source: Ref, ghost sink: Sink, ghost srcQ: RefByHeight, sinkQ: RefByHeight,
                    ghost srcRefs: seq<Ref>, sinkRefs: seq<Ref>, ghost comRefs: seq<Ref>, k: nat, ghost src: nat,
                      ghost snk: nat)
    requires srcQ != sinkQ && k < |sinkRefs|
    requires Working(world.chunks, source, sink.present, sink.scheduled,
                     Work(srcQ.refs, sinkQ.refs, srcRefs, sinkRefs, comRefs), src, snk)
    modifies sinkQ
    ensures Working(world.chunks, source, sink.present, sink.scheduled,
                    Work(srcQ.refs, sinkQ.refs, srcRefs, Drop(sinkRefs, k), comRefs), src, snk)
  {
    ghost var w := Work(srcQ.refs, sinkQ.refs, srcRefs, sinkRefs, comRefs);
    var r := sinkRefs[k];
    SinkIn(world.chunks, source, sink.present, sink.scheduled, w, r, src, snk);
    hide Working;
    var reachables := TraverseSink(r, world, sink.present);
    Append(sinkQ, reachables);
    SinkLooked(world.chunks, source, sink.present, sink.scheduled, w, k, reachables, src, snk);
  }

  /** Deals with one result for a common reference. */
  method CommonResult(world: World, ghost source: Ref, sinkHead: Ref, ghost sink: Sink, srcQ: RefByHeight,
                      sinkQ: RefByHeight,
                      ghost srcRefs: seq<Ref>, ghost sinkRefs: seq<Ref>, comRefs: seq<Ref>, k: nat, ghost src: nat,
                        ghost snk: nat)
    requires srcQ != sinkQ && k < |comRefs|
    requires Working(world.chunks, source, sink.present, sink.scheduled,
                     Work(srcQ.refs, sinkQ.refs, srcRefs, sinkRefs, comRefs), src, snk)
    modifies srcQ, sinkQ
    ensures Working(world.chunks, source, sink.present, sink.scheduled,
                    Work(srcQ.refs, sinkQ.refs, srcRefs, sinkRefs, Drop(comRefs, k)), src, snk)
  {
    ghost var w := Work(srcQ.refs, sinkQ.refs, srcRefs, sinkRefs, comRefs);
    var r := comRefs[k];
    SourceIn(world.chunks, source, sink.present, sink.scheduled, w, r, src, snk);
    hide Working;
    var reachables := TraverseCommon(r, sinkHead, world);
    var isHeadOfSink := r.hash == sinkHead.hash;
    Append(sinkQ, reachables);
    if !isHeadOfSink {
      Append(srcQ, reachables);
    }
    CommonLooked(world.chunks, source, sink.present, sink.scheduled, w, k, reachables, !isHeadOfSink, src, snk);
  }

  /** Deals with all results of a round, in any order. */
  method AllResults(world: World, ghost source: Ref, sinkHead: Ref, sink: Sink, srcQ: RefByHeight, sinkQ: RefByHeight,
                    srcRefs0: seq<Ref>, sinkRefs0: seq<Ref>, comRefs0: seq<Ref>, ghost src: nat, ghost snk: nat)
    requires srcQ != sinkQ
    requires Working(world.chunks, source, sink.present, sink.scheduled,
                     Work(srcQ.refs, sinkQ.refs, srcRefs0, sinkRefs0, comRefs0), src, snk)
    modifies sink, srcQ, sinkQ
    ensures Working(world.chunks, source, sink.present, sink.scheduled, Work(srcQ.refs, sinkQ.refs, [], [], []), src,
                    snk)
  {
    hide Working;
    var srcRefs, sinkRefs, comRefs := srcRefs0, sinkRefs0, comRefs0;
    while |srcRefs| + |sinkRefs| + |comRefs| > 0
      invariant Working(world.chunks, source, sink.present, sink.scheduled,
                        Work(srcQ.refs, sinkQ.refs, srcRefs, sinkRefs, comRefs), src, snk)
      decreases |srcRefs| + |sinkRefs| + |comRefs|
    {
      if
      case srcRefs != [] =>
        var k: nat :| k < |srcRefs|;
        SourceResult(world, source, sink, srcQ, sinkQ, srcRefs, sinkRefs, comRefs, k, src, snk);
        srcRefs := Drop(srcRefs, k);
      case sinkRefs != [] =>
        var k: nat :| k < |sinkRefs|;
        SinkResult(world, source, sink, srcQ, sinkQ, srcRefs, sinkRefs, comRefs, k, src, snk);
        sinkRefs := Drop(sinkRefs, k);
      case comRefs != [] =>
        var k: nat :| k < |comRefs|;
        CommonResult(world, source, sinkHead, sink, srcQ, sinkQ, srcRefs, sinkRefs, comRefs, k, src, snk);
        comRefs := Drop(comRefs, k);
    }
  }

  // ---------- planning ----------

  function Resting(srcQ: seq<Ref>, sinkQ: seq<Ref>): Work {
    Work(srcQ, sinkQ, [], [], [])
  }

  /** Moving references from the queues to the work lists loses nothing. */
  lemma Planned(g: Graph, source: Ref, present: set<Ref>, scheduled: set<Ref>, srcQ: seq<Ref>, sinkQ: seq<Ref>, w: Work,
                src: nat, sink: nat, src': nat, sink': nat)
    requires Working(g, source, present, scheduled, Resting(srcQ, sinkQ), src, sink)
    requires forall r :: r in srcQ ==> r in w.srcQ || r in w.srcRefs || r in present
    requires forall r :: r in w.srcQ || r in w.srcRefs || r in w.comRefs ==> r in srcQ
    requires forall r :: r in w.sinkQ || r in w.sinkRefs || r in w.comRefs ==> r in sinkQ
    requires Bounded(w, src', sink')
    ensures Working(g, source, present, scheduled, w, src', sink')
  {
  }

  lemma StrictSorted(q: seq<Ref>)
    requires Strict(q)
    ensures Sorted(q) && forall r :: r in q ==> r.height <= MaxHeight(q)
  {
    assert Sorted(q);
    MaxHeightIsMost(q);
  }

  /** Takes the highest references off the queues, and lowers the sum of their heights. */
  method PlanWork(ghost g: Graph, ghost source: Ref, ghost present: set<Ref>, ghost scheduled: set<Ref>,
                  srcQ: RefByHeight, sinkQ: RefByHeight)
    returns (srcRefs: seq<Ref>, sinkRefs: seq<Ref>, comRefs: seq<Ref>, ghost src: nat, ghost snk: nat)
    requires srcQ != sinkQ && Strict(srcQ.refs) && Strict(sinkQ.refs) && srcQ.refs != [] && MaxHeight(srcQ.refs) > 0
    requires Working(g, source, present, scheduled, Resting(srcQ.refs, sinkQ.refs), MaxHeight(srcQ.refs),
                     MaxHeight(sinkQ.refs))
    modifies srcQ, sinkQ
    ensures Working(g, source, present, scheduled, Work(srcQ.refs, sinkQ.refs, srcRefs, sinkRefs, comRefs), src, snk)
    ensures src + snk < old(MaxHeight(srcQ.refs) + MaxHeight(sinkQ.refs))
  {
    ghost var src0, snk0 := srcQ.refs, sinkQ.refs;
    StrictSorted(src0);
    StrictSorted(snk0);
    var srcHt, sinkHt := MaxHeight(srcQ.refs), MaxHeight(sinkQ.refs);
    srcRefs, sinkRefs, comRefs, src, snk := [], [], [], srcHt, sinkHt;
    hide Working, Strict, Sorted;
    if srcHt > sinkHt {
      srcRefs := srcQ.PopRefsOfHeight(srcHt);
      src := srcHt - 1;
    } else if sinkHt > srcHt {
      sinkRefs := sinkQ.PopRefsOfHeight(sinkHt);
      snk := sinkHt - 1;
    } else {
      srcRefs, comRefs := FindCommon(srcQ, sinkQ, srcHt);
      LowerStill(snk0, sinkQ.refs, sinkHt);
      sinkRefs := sinkQ.PopRefsOfHeight(sinkHt);
      src, snk := srcHt - 1, sinkHt - 1;
      CommonPresent(g, source, present, scheduled, src0, snk0, comRefs, srcHt, sinkHt);
    }
    Planned(g, source, present, scheduled, src0, snk0, Work(srcQ.refs, sinkQ.refs, srcRefs, sinkRefs, comRefs), srcHt,
            sinkHt, src, snk);
  }

  lemma LowerStill(q: seq<Ref>, q': seq<Ref>, height: nat)
    requires Strict(q') && (forall r :: r in q' ==> r in q) && forall r :: r in q ==> r.height <= height
    ensures Sorted(q') && MaxHeight(q') <= height
  {
    if q' != [] {
      assert q'[|q'| - 1] in q';
    }
  }

  lemma CommonPresent(g: Graph, source: Ref, present: set<Ref>, scheduled: set<Ref>, srcQ: seq<Ref>, sinkQ: seq<Ref>,
                      comRefs: seq<Ref>, src: nat, sink: nat)
    requires Working(g, source, present, scheduled, Resting(srcQ, sinkQ), src, sink)
             && forall r :: r in comRefs ==> r in sinkQ
    ensures forall r :: r in comRefs ==> r in present
  {
  }

  /** Sorts a queue and takes out what is there twice. */
  method Tidy(q: RefByHeight, ghost g: Graph, ghost bound: nat)
    requires WellFormed(g) && InGraph(g, q.refs) && forall r :: r in q.refs ==> r.height <= bound
    modifies q
    ensures Strict(q.refs) && SameElements(old(q.refs), q.refs) && MaxHeight(q.refs) <= bound
    ensures forall r :: r in q.refs ==> r.height <= MaxHeight(q.refs)
    ensures q.refs != [] ==> MaxHeight(q.refs) > 0
  {
    q.SortRefs();
    assert OneEach(q.refs);
    q.Unique();
    StrictSorted(q.refs);
    if q.refs != [] {
      assert q.refs[|q.refs| - 1] in q.refs;
    }
  }

  /** Working on queues with the same elements. */
  lemma Tidied(g: Graph, source: Ref, present: set<Ref>, scheduled: set<Ref>, srcQ: seq<Ref>, sinkQ: seq<Ref>,
               srcQ': seq<Ref>, sinkQ': seq<Ref>,
               src: nat, sink: nat, src': nat, sink': nat)
    requires Working(g, source, present, scheduled, Resting(srcQ, sinkQ), src, sink)
    requires SameElements(srcQ, srcQ') && SameElements(sinkQ, sinkQ')
    requires (forall r :: r in srcQ' ==> r.height <= src') && (forall r :: r in sinkQ' ==> r.height <= sink')
    ensures Working(g, source, present, scheduled, Resting(srcQ', sinkQ'), src', sink')
  {
  }

  lemma QueuesIn(g: Graph, source: Ref, present: set<Ref>, scheduled: set<Ref>, srcQ: seq<Ref>, sinkQ: seq<Ref>,
                 src: nat, sink: nat)
    requires Working(g, source, present, scheduled, Resting(srcQ, sinkQ), src, sink)
    ensures WellFormed(g) && InGraph(g, srcQ) && InGraph(g, sinkQ)
    ensures (forall r :: r in srcQ ==> r.height <= src) && (forall r :: r in sinkQ ==> r.height <= sink)
  {
  }

  /** One round of the main loop. */
  method Round(world: World, ghost source: Ref, sinkHead: Ref, sink: Sink, srcQ: RefByHeight, sinkQ: RefByHeight)
    requires srcQ != sinkQ && Strict(srcQ.refs) && Strict(sinkQ.refs) && srcQ.refs != [] && MaxHeight(srcQ.refs) > 0
    requires Working(world.chunks, source, sink.present, sink.scheduled, Resting(srcQ.refs, sinkQ.refs),
                     MaxHeight(srcQ.refs), MaxHeight(sinkQ.refs))
    modifies sink, srcQ, sinkQ
    ensures Strict(srcQ.refs) && Strict(sinkQ.refs) && (srcQ.refs != [] ==> MaxHeight(srcQ.refs) > 0)
    ensures Working(world.chunks, source, sink.present, sink.scheduled, Resting(srcQ.refs, sinkQ.refs),
                    MaxHeight(srcQ.refs), MaxHeight(sinkQ.refs))
    ensures MaxHeight(srcQ.refs) + MaxHeight(sinkQ.refs) < old(MaxHeight(srcQ.refs) + MaxHeight(sinkQ.refs))
  {
    hide Working, Strict, WellFormed;
    var srcRefs, sinkRefs, comRefs;
    ghost var src, snk;
    srcRefs, sinkRefs, comRefs, src, snk := PlanWork(world.chunks, source, sink.present, sink.scheduled, srcQ, sinkQ);
    AllResults(world, source, sinkHead, sink, srcQ, sinkQ, srcRefs, sinkRefs, comRefs, src, snk);
    ghost var src0, snk0 := srcQ.refs, sinkQ.refs;
    QueuesIn(world.chunks, source, sink.present, sink.scheduled, src0, snk0, src, snk);
    Tidy(sinkQ, world.chunks, snk);
    Tidy(srcQ, world.chunks, src);
    Tidied(world.chunks, source, sink.present, sink.scheduled, src0, snk0, srcQ.refs, sinkQ.refs, src, snk,
           MaxHeight(srcQ.refs), MaxHeight(sinkQ.refs));
  }

  /** When there is nothing left to look at, everything the source leads to is in the sink or scheduled. */
  lemma AllCopied(g: Graph, source: Ref, present: set<Ref>, scheduled: set<Ref>, sinkQ: seq<Ref>, src: nat, sink: nat)
    requires Working(g, source, present, scheduled, Resting([], sinkQ), src, sink)
    ensures Closed(g, present + scheduled)
    ensures forall x :: Reaches(g, source, x) ==> x in present + scheduled
    ensures forall x :: x in scheduled ==> x in g && Reaches(g, source, x) && x !in present
  {
    forall x | Reaches(g, source, x) ensures x in present + scheduled {
      ClosedReaches(g, present + scheduled, source, x);
    }
  }

  /**
   Copies what is reachable from `source` and not in the sink: afterwards everything reachable is there or scheduled,
   with everything it leads to in turn, and only what is reachable and was not there has been scheduled.
   */
  method PullAll(world: World, sink: Sink, source: Ref, sinkHead: Ref, sourceHasHead: bool)
    requires WellFormed(world.chunks) && source in world.chunks && Closed(world.chunks, sink.present)
             && sink.scheduled == {}
    requires sourceHasHead ==> sinkHead in sink.present
    modifies sink
    ensures Closed(world.chunks, sink.present + sink.scheduled)
    ensures forall x :: Reaches(world.chunks, source, x) ==> x in sink.present + sink.scheduled
    ensures forall x :: x in sink.scheduled ==>
                x in world.chunks && Reaches(world.chunks, source, x) && x !in sink.present
  {
    var srcQ := new RefByHeight(source);
    var sinkQ := new RefByHeight(sinkHead);
    var has := sink.Has(source);
    if has {
      forall x | Reaches(world.chunks, source, x) ensures x in sink.present {
        ClosedReaches(world.chunks, sink.present, source, x);
      }
      return;
    }
    if !sourceHasHead {
      var _ := sinkQ.PopBack();
    }
    Initially(world.chunks, source, sink.present, sinkQ.refs);
    hide Working, Strict, WellFormed;
    while srcQ.refs != []
      invariant Strict(srcQ.refs) && Strict(sinkQ.refs) && (srcQ.refs != [] ==> MaxHeight(srcQ.refs) > 0)
      invariant Working(world.chunks, source, sink.present, sink.scheduled, Resting(srcQ.refs, sinkQ.refs),
                        MaxHeight(srcQ.refs), MaxHeight(sinkQ.refs))
      decreases MaxHeight(srcQ.refs) + MaxHeight(sinkQ.refs)
    {
      Round(world, source, sinkHead, sink, srcQ, sinkQ);
    }
    AllCopied(world.chunks, source, sink.present, sink.scheduled, sinkQ.refs, MaxHeight(srcQ.refs),
              MaxHeight(sinkQ.refs));
  }

  lemma Initially(g: Graph, source: Ref, present: set<Ref>, sinkQ: seq<Ref>)
    requires WellFormed(g) && source in g && Closed(g, present) && |sinkQ| <= 1
             && forall r :: r in sinkQ ==> r in present
    ensures Strict([source]) && Strict(sinkQ) && MaxHeight([source]) > 0
    ensures Working(g, source, present, {}, Resting([source], sinkQ), MaxHeight([source]), MaxHeight(sinkQ))
  {
  }
}
