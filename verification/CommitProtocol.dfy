/**
 Many clients that commit to the datasets of one database.  The only shared state that changes is the root, which
 a client replaces only if it is still the one it read.
 */
module CommitProtocol {
  import opened Options
  import opened RefQueues
  import opened RefGraphs
  import opened CommonAncestor

  type Id = string

  /** The head of every dataset. */
  type Datasets = map<Id, Ref>

  /** What a client wants; `known` is the head that the caller of a fast-forward last saw. */
  datatype Op =
    | Commit(id: Id, commit: Ref, merges: bool)
    | FastForward(id: Id, commit: Ref, known: Option<Ref>)
    | Delete(id: Id)
    | SetHead(id: Id, commit: Ref)

  /** Where a client is: done, about to read the root, or about to replace the root it read. */
  datatype Phase =
    | Idle
    | Reading(op: Op, initialHead: Option<Ref>)
    | Updating(op: Op, initialHead: Option<Ref>, seen: Option<Datasets>)

  datatype State = State(commits: Graph, root: Option<Datasets>, clients: map<nat, Phase>)

  function DatasetsOf(root: Option<Datasets>): Datasets {
    if root.Some? then root.value else map[]
  }

  function Head(root: Option<Datasets>, id: Id): Option<Ref> {
    if id in DatasetsOf(root) then Some(DatasetsOf(root)[id]) else None
  }

  // ---------- deciding what a commit becomes ----------

  datatype Plan = MergeNeeded | Direct | MergeWith(ancestor: Ref)

  /** Without a head, and on top of the head, a commit is taken as it is; with a common ancestor it can be merged. */
  ghost predicate Decides(g: Graph, commit: Ref, head: Option<Ref>, merges: bool, plan: Plan)
    requires WellFormed(g) && commit in g && (head.Some? ==> head.value in g)
  {
    match plan
    case Direct => head.None? || (Reaches(g, commit, head.value) && commit != head.value)
    case MergeWith(a) => head.Some? && merges && Highest(g, commit, head.value, a)
      && (!Reaches(g, commit, head.value) || commit == head.value)
    case MergeNeeded =>
      && head.Some?
      && ((forall x :: !Common(g, commit, head.value, x))
          || (!merges && (!Reaches(g, commit, head.value) || commit == head.value)))
  }

  /** There is no head, or the commit is a proper descendant of it. */
  ghost predicate OnTop(g: Graph, commit: Ref, head: Option<Ref>)
    requires WellFormed(g) && commit in g && (head.Some? ==> head.value in g)
  {
    head.Some? ==> commit != head.value && Reaches(g, commit, head.value)
  }

  /**
   What is decided, told from ancestry alone: on top of the head a commit is taken as it is, otherwise a policy merges
   it from any highest common ancestor, and it is refused in exactly the remaining cases.
   */
  lemma DecidesExactly(g: Graph, commit: Ref, head: Option<Ref>, merges: bool)
    requires WellFormed(g) && commit in g && (head.Some? ==> head.value in g)
    ensures Decides(g, commit, head, merges, Direct) <==> OnTop(g, commit, head)
    ensures forall a :: Decides(g, commit, head, merges, MergeWith(a)) <==>
                        && !OnTop(g, commit, head) && merges && Common(g, commit, head.value, a)
                        && forall x :: Common(g, commit, head.value, x) ==> x.height <= a.height
    ensures Decides(g, commit, head, merges, MergeNeeded) <==>
              !OnTop(g, commit, head) && (!merges || forall x :: !Common(g, commit, head.value, x))
  {
    if head.Some? && Reaches(g, commit, head.value) {
      assert Reaches(g, head.value, head.value) && Common(g, commit, head.value, head.value);
    }
  }

  /** The head is the common ancestor found exactly when the commit descends from it. */
  lemma HeadIsAncestor(g: Graph, commit: Ref, head: Ref, a: Ref)
    requires WellFormed(g) && commit in g && head in g && Highest(g, commit, head, a)
    ensures a == head <==> Reaches(g, commit, head)
  {
    ReachesLower(g, head, a);
    if Reaches(g, commit, head) {
      assert Common(g, commit, head, head);
    }
  }

  /** What `doCommit` does with the head it read. */
  method DecideCommit(g: Graph, commit: Ref, head: Option<Ref>, merges: bool) returns (plan: Plan)
    requires WellFormed(g) && commit in g && (head.Some? ==> head.value in g)
    ensures Decides(g, commit, head, merges, plan)
    ensures plan == Direct <==> OnTop(g, commit, head)
    ensures plan.MergeWith? <==> !OnTop(g, commit, head) && merges && exists x :: Common(g, commit, head.value, x)
    ensures plan.MergeWith? ==> Common(g, commit, head.value, plan.ancestor)
                                && forall x :: Common(g, commit, head.value, x) ==> x.height <= plan.ancestor.height
    ensures plan == MergeNeeded <==>
              !OnTop(g, commit, head) && (!merges || forall x :: !Common(g, commit, head.value, x))
  {
    if head.None? {
      return Direct;
    }
    assert Reaches(g, head.value, head.value);
    assert Reaches(g, commit, head.value) ==> Common(g, commit, head.value, head.value);
    var ancestor := FindCommonAncestor(commit, head.value, g);
    if ancestor.None? {
      return MergeNeeded;
    }
    HeadIsAncestor(g, commit, head.value, ancestor.value);
    assert Common(g, commit, head.value, ancestor.value);
    if head.value != ancestor.value || head.value == commit {
      if !merges {
        return MergeNeeded;
      }
      return MergeWith(ancestor.value);
    }
    return Direct;
  }

  /** There is one thing to do with a commit, whichever of the most recent common ancestors it is merged from. */
  lemma OnePlan(g: Graph, commit: Ref, head: Option<Ref>, merges: bool, p: Plan, q: Plan)
    requires WellFormed(g) && commit in g && (head.Some? ==> head.value in g)
    requires Decides(g, commit, head, merges, p) && Decides(g, commit, head, merges, q)
    ensures p == q || (p.MergeWith? && q.MergeWith? && p.ancestor.height == q.ancestor.height)
  {
    if head.Some? {
      assert Reaches(g, head.value, head.value);
      assert Reaches(g, commit, head.value) ==> Common(g, commit, head.value, head.value);
    }
  }

  /** What a fast-forward checks before it commits: whether it is done already, and whether it can be one at all. */
  function FastForwardStarts(commit: Ref, known: Option<Ref>): bool {
    known != Some(commit) && commit.height > (if known.Some? then known.value.height else 0)
  }

  /** A commit that descends from the head its caller knows is tried, and one that is no higher is not. */
  lemma FastForwardTries(g: Graph, commit: Ref, known: Option<Ref>)
    requires WellFormed(g) && commit in g && (known.Some? ==> known.value in g)
    ensures OnTop(g, commit, known) ==> FastForwardStarts(commit, known)
    ensures known.Some? && commit.height <= known.value.height ==> !FastForwardStarts(commit, known)
  {
    if known.Some? && Reaches(g, commit, known.value) {
      ReachesLower(g, commit, known.value);
    }
  }

  // ---------- steps ----------

  datatype Action =
    | Write(r: Ref, parents: seq<Ref>)
    | Start(c: nat, op: Op)
    | Read(c: nat)
    | GiveUp(c: nat)
    | Swap(c: nat, head: Option<Ref>)
    | Retry(c: nat)

  ghost predicate Known(g: Graph, op: Op) {
    op.Delete? || op.commit in g
  }

  /** What the client would make the head of its dataset, given the root it read. */
  ghost predicate Proposes(g: Graph, op: Op, seen: Option<Datasets>, head: Option<Ref>)
    requires WellFormed(g) && Known(g, op) && HeadsKnown(g, seen)
  {
    match op
    case Delete(_) => head == None
    case SetHead(_, commit) => head == Some(commit)
    case Commit(id, commit, merges) => Becomes(g, commit, Head(seen, id), merges, head)
    case FastForward(id, commit, _) => Becomes(g, commit, Head(seen, id), false, head)
  }

  ghost predicate Becomes(g: Graph, commit: Ref, current: Option<Ref>, merges: bool, head: Option<Ref>)
    requires WellFormed(g) && commit in g && (current.Some? ==> current.value in g)
  {
    || (head == Some(commit) && Decides(g, commit, current, merges, Direct))
    || (head.Some? && head.value in g && current.Some? && g[head.value] == [commit, current.value]
        && exists a :: Decides(g, commit, current, merges, MergeWith(a)))
  }

  ghost predicate HeadsKnown(g: Graph, root: Option<Datasets>) {
    forall id :: id in DatasetsOf(root) ==> DatasetsOf(root)[id] in g
  }

  ghost predicate PhaseKnown(g: Graph, p: Phase) {
    match p
    case Idle => true
    case Reading(op, _) => Known(g, op)
    case Updating(op, initialHead, seen) =>
      Known(g, op) && HeadsKnown(g, seen) && (op.Delete? ==> initialHead.Some? && Head(seen, op.id) == initialHead)
  }

  ghost predicate Invariant(s: State) {
    && WellFormed(s.commits) && HeadsKnown(s.commits, s.root)
    && forall c :: c in s.clients ==> PhaseKnown(s.commits, s.clients[c])
  }

  function Put(root: Option<Datasets>, id: Id, head: Option<Ref>): Option<Datasets> {
    Some(if head.Some? then DatasetsOf(root)[id := head.value] else DatasetsOf(root) - {id})
  }

  ghost predicate Step(s: State, a: Action, s': State)
    requires Invariant(s)
  {
    match a
    case Write(r, parents) =>
      // writing a value that is there already changes nothing
      && (r in s.commits ==> s.commits[r] == parents)
      && WellFormed(s.commits[r := parents]) && s' == s.(commits := s.commits[r := parents])
    case Start(c, op) =>
      && c in s.clients && s.clients[c].Idle? && Known(s.commits, op)
         && (op.FastForward? ==> FastForwardStarts(op.commit, op.known))
      && s' == s.(clients := s.clients[c := Reading(op, None)])
    case Read(c) =>
      && c in s.clients && s.clients[c].Reading?
      && (var op, initialHead := s.clients[c].op, s.clients[c].initialHead;
          var head := Head(s.root, op.id);
          if !op.Delete? then s' == s.(clients := s.clients[c := Updating(op, None, s.root)])
          // a dataset that is gone, or has a head other than the one first seen, is not deleted
          else if head.None? || (initialHead.Some? && initialHead != head)
                  then s' == s.(clients := s.clients[c := Idle])
          else s' == s.(clients := s.clients[c := Updating(op, head, s.root)]))
    case GiveUp(c) =>
      && c in s.clients && s' == s.(clients := s.clients[c := Idle])
    case Swap(c, head) =>
      && c in s.clients && s.clients[c].Updating? && s.root == s.clients[c].seen
      && Proposes(s.commits, s.clients[c].op, s.clients[c].seen, head)
      && s' == s.(root := Put(s.clients[c].seen, s.clients[c].op.id, head), clients := s.clients[c := Idle])
    case Retry(c) =>
      && c in s.clients && s.clients[c].Updating? && s.root != s.clients[c].seen
      && s'
         == s.(clients := s.clients[c := if s.clients[c].op.SetHead? then Idle
                                    else Reading(s.clients[c].op, s.clients[c].initialHead)])
  }

  // ---------- what every step keeps ----------

  ghost predicate Grows(g: Graph, g': Graph) {
    forall r :: r in g ==> r in g' && g'[r] == g[r]
  }

  /** Writing more commits does not change what is an ancestor of what. */
  lemma {:induction false} ReachesStill(g: Graph, g': Graph, x: Ref, y: Ref)
    requires WellFormed(g) && WellFormed(g') && Grows(g, g') && x in g && Reaches(g, x, y)
    ensures Reaches(g', x, y)
    decreases x.height
  {
    if x != y {
      var p :| p in g[x] && Reaches(g, p, y);
      ReachesStill(g, g', p, y);
    }
  }

  lemma StepKeeps(s: State, a: Action, s': State)
    requires Invariant(s) && Step(s, a, s')
    ensures Invariant(s') && Grows(s.commits, s'.commits)
  {
    hide WellFormed, Decides;
  }

  ghost predicate IsCommit(op: Op) {
    op.Commit? || op.FastForward?
  }

  /** A head that a commit proposes descends from the head it replaces, and from the commit. */
  lemma Proposed(g: Graph, op: Op, seen: Option<Datasets>, head: Option<Ref>)
    requires WellFormed(g) && Known(g, op) && HeadsKnown(g, seen) && IsCommit(op) && Proposes(g, op, seen, head)
    ensures head.Some? && head.value in g && Reaches(g, head.value, op.commit)
    ensures Head(seen, op.id).Some? ==> Reaches(g, head.value, Head(seen, op.id).value) && head != Head(seen, op.id)
  {
    var h := head.value;
    if h != op.commit || (Head(seen, op.id).Some? && g[h] == [op.commit, Head(seen, op.id).value]) {
      var current := Head(seen, op.id).value;
      assert g[h][0] == op.commit && g[h][1] == current;
      assert Reaches(g, op.commit, op.commit) && Reaches(g, current, current);
    }
  }

  /**
   A successful commit or fast-forward changes only its own dataset, and moves that one's head to a strict descendant
   of the head it replaces, and of the commit.
   */
  lemma SwapMovesForward(s: State, c: nat, head: Option<Ref>, s': State)
    requires Invariant(s) && Step(s, Swap(c, head), s') && IsCommit(s.clients[c].op)
    ensures var op := s.clients[c].op;
            && (forall id :: id != op.id ==> Head(s'.root, id) == Head(s.root, id))
            && Head(s'.root, op.id) == head && head.Some? && head.value in s.commits
               && Reaches(s.commits, head.value, op.commit)
            && (var before := Head(s.root, op.id);
                before.Some? ==> Reaches(s.commits, head.value, before.value) && head != before)
  {
    Proposed(s.commits, s.clients[c].op, s.root, head);
  }

  /** A successful delete removes only its own dataset, and only with the head that it saw first. */
  lemma DeleteRemovesWhatItSaw(s: State, c: nat, head: Option<Ref>, s': State)
    requires Invariant(s) && Step(s, Swap(c, head), s') && s.clients[c].op.Delete?
    ensures var op := s.clients[c].op;
            && (forall id :: id != op.id ==> Head(s'.root, id) == Head(s.root, id))
            && Head(s'.root, op.id) == None && Head(s.root, op.id) == s.clients[c].initialHead
               && s.clients[c].initialHead.Some?
  {
  }

  /** The head a delete saw first stays the same through its retries. */
  lemma InitialHeadStays(s: State, a: Action, s': State, c: nat)
    requires Invariant(s) && Step(s, a, s') && c in s.clients && c in s'.clients
    requires !s.clients[c].Idle? && !s'.clients[c].Idle? && s.clients[c].op.Delete? && s.clients[c].initialHead.Some?
    ensures s'.clients[c].op == s.clients[c].op && s'.clients[c].initialHead == s.clients[c].initialHead
  {
  }

  /** Setting a head sets it, whatever it was, and leaves the other datasets alone. */
  lemma SetHeadSets(s: State, c: nat, head: Option<Ref>, s': State)
    requires Invariant(s) && Step(s, Swap(c, head), s') && s.clients[c].op.SetHead?
    ensures var op := s.clients[c].op;
            && (forall id :: id != op.id ==> Head(s'.root, id) == Head(s.root, id))
            && Head(s'.root, op.id) == Some(op.commit)
  {
  }

  // ---------- getting somewhere ----------

  /** The operation can succeed on the root that the client has read. */
  ghost predicate Possible(g: Graph, op: Op, seen: Option<Datasets>)
    requires WellFormed(g) && Known(g, op) && HeadsKnown(g, seen)
  {
    match op
    case Commit(id, commit, merges) =>
      var head := Head(seen, id);
      OnTop(g, commit, head) || (merges && exists x :: Common(g, commit, head.value, x))
    case FastForward(id, commit, _) => OnTop(g, commit, Head(seen, id))
    case _ => true
  }

  /** A reference higher than two others, with a hash that is not in use. */
  lemma Fresh(g: Graph, x: Ref, y: Ref) returns (r: Ref)
    requires WellFormed(g) && x in g && y in g
    ensures r !in g && WellFormed(g[r := [x, y]])
  {
    var h := Unused(g.Keys);
    r := Ref(h, x.height + y.height);
    var g' := g[r := [x, y]];
    forall u, v | u in g' && v in g'[u] ensures v in g' && v.height < u.height {
    }
  }

  lemma {:induction false} Unused(s: set<Ref>) returns (h: int)
    ensures forall r :: r in s ==> r.hash < h
    decreases |s|
  {
    if s == {} {
      h := 0;
    } else {
      var r :| r in s;
      var k := Unused(s - {r});
      h := if r.hash < k then k else r.hash + 1;
      forall q | q in s ensures q.hash < h {
        assert q == r || q in s - {r};
      }
    }
  }

  /**
   A client that has read the root, and is not overtaken, succeeds whenever its operation is possible: at most one write
   and a swap later its dataset is what it wanted, and it is done.
   */
  lemma Succeeds(s: State, c: nat) returns (r: Ref, parents: seq<Ref>, s1: State, head: Option<Ref>, s2: State)
    requires Invariant(s) && c in s.clients && s.clients[c].Updating? && s.root == s.clients[c].seen
    requires Possible(s.commits, s.clients[c].op, s.root)
    ensures (s1 == s || Step(s, Write(r, parents), s1)) && Invariant(s1) && Step(s1, Swap(c, head), s2)
    ensures var op := s.clients[c].op;
            && s2.clients[c] == Idle && Head(s2.root, op.id) == head
            && (op.Delete? <==> head == None)
            && (!op.Delete? ==> Invariant(s2) && head.value in s2.commits && Reaches(s2.commits, head.value, op.commit))
            && (op.SetHead? ==> head == Some(op.commit))
  {
    var op := s.clients[c].op;
    r, parents, s1 := Ref(0, 0), [], s;
    if op.Delete? {
      head := None;
    } else if op.SetHead? || OnTop(s.commits, op.commit, Head(s.root, op.id)) {
      head := Some(op.commit);
      assert Reaches(s.commits, op.commit, op.commit);
      if !op.SetHead? {
        DecidesExactly(s.commits, op.commit, Head(s.root, op.id), op.Commit? && op.merges);
      }
    } else {
      r, parents, s1 := WritesMerged(s, c);
      head := Some(r);
    }
    s2 := s1.(root := Put(s1.root, op.id, head), clients := s1.clients[c := Idle]);
    assert Step(s1, Swap(c, head), s2);
    StepKeeps(s1, Swap(c, head), s2);
    if IsCommit(op) {
      SwapMovesForward(s1, c, head, s2);
    }
  }

  /** Writes the merge of a commit with the head. */
  lemma WritesMerged(s: State, c: nat) returns (r: Ref, parents: seq<Ref>, s1: State)
    requires Invariant(s) && c in s.clients && s.clients[c].Updating? && s.root == s.clients[c].seen
    requires s.clients[c].op.Commit? && Possible(s.commits, s.clients[c].op, s.root)
    requires !OnTop(s.commits, s.clients[c].op.commit, Head(s.root, s.clients[c].op.id))
    ensures Step(s, Write(r, parents), s1) && Invariant(s1) && s1.root == s.root && s1.clients == s.clients
    ensures Proposes(s1.commits, s.clients[c].op, s.root, Some(r))
  {
    var op := s.clients[c].op;
    var h := Head(s.root, op.id).value;
    var x :| Common(s.commits, op.commit, h, x);
    var a := HighestOf(s.commits, op.commit, h, x);
    r := Fresh(s.commits, op.commit, h);
    parents := [op.commit, h];
    s1 := s.(commits := s.commits[r := parents]);
    StepKeeps(s, Write(r, parents), s1);
    HighestStill(s.commits, s1.commits, op.commit, h, a);
    DecidesExactly(s1.commits, op.commit, Some(h), true);
    assert Decides(s1.commits, op.commit, Some(h), true, MergeWith(a));
  }

  /** Where there is a common ancestor there is a highest one. */
  lemma {:induction false} HighestOf(g: Graph, c1: Ref, c2: Ref, x: Ref) returns (a: Ref)
    requires WellFormed(g) && c1 in g && c2 in g && Common(g, c1, c2, x)
    ensures Highest(g, c1, c2, a)
    decreases c1.height - x.height
  {
    ReachesLower(g, c1, x);
    if y :| Common(g, c1, c2, y) && y.height > x.height {
      ReachesLower(g, c1, y);
      a := HighestOf(g, c1, c2, y);
    } else {
      a := x;
    }
  }

  /** Writing more commits leaves the ancestors of those there are as they were. */
  lemma {:induction false} ReachesNoMore(g: Graph, g': Graph, x: Ref, y: Ref)
    requires WellFormed(g) && WellFormed(g') && Grows(g, g') && x in g && Reaches(g', x, y)
    ensures Reaches(g, x, y)
    decreases x.height
  {
    if x != y {
      var p :| p in g'[x] && Reaches(g', p, y);
      ReachesNoMore(g, g', p, y);
    }
  }

  lemma HighestStill(g: Graph, g': Graph, c1: Ref, c2: Ref, a: Ref)
    requires WellFormed(g) && WellFormed(g') && Grows(g, g') && c1 in g && c2 in g && Highest(g, c1, c2, a)
    ensures Highest(g', c1, c2, a) && (Reaches(g', c1, c2) <==> Reaches(g, c1, c2))
  {
    ReachesStill(g, g', c1, a);
    ReachesStill(g, g', c2, a);
    forall x | Common(g', c1, c2, x) ensures Common(g, c1, c2, x) {
      ReachesNoMore(g, g', c1, x);
      ReachesNoMore(g, g', c2, x);
    }
    if Reaches(g, c1, c2) {
      ReachesStill(g, g', c1, c2);
    }
    if Reaches(g', c1, c2) {
      ReachesNoMore(g, g', c1, c2);
    }
  }

  /** A client that reads is given the root as it is, and one that was overtaken reads again. */
  lemma NeverStuck(s: State, c: nat) returns (a: Action, s': State)
    requires Invariant(s) && c in s.clients
    requires s.clients[c].Reading? || (s.clients[c].Updating? && s.root != s.clients[c].seen)
    ensures Step(s, a, s') && s'.root == s.root && s'.commits == s.commits
    ensures s.clients[c].Reading? && !s.clients[c].op.Delete? ==>
              s'.clients[c] == Updating(s.clients[c].op, None, s.root)
    ensures s.clients[c].Updating? && !s.clients[c].op.SetHead? ==>
              s'.clients[c] == Reading(s.clients[c].op, s.clients[c].initialHead)
    ensures s.clients[c].Updating? && s.clients[c].op.SetHead? ==> s'.clients[c] == Idle
    ensures s.clients[c].Reading? && s.clients[c].op.Delete? ==>
              var head, initialHead := Head(s.root, s.clients[c].op.id), s.clients[c].initialHead;
              s'.clients[c] == if head.Some? && (initialHead.None? || initialHead == head)
                               then Updating(s.clients[c].op, head, s.root) else Idle
  {
    var op, initialHead := s.clients[c].op, s.clients[c].initialHead;
    if s.clients[c].Reading? {
      var head := Head(s.root, op.id);
      a := Read(c);
      s' := s.(clients := s.clients[c :=
        if !op.Delete? then Updating(op, None, s.root)
        else if head.None? || (initialHead.Some? && initialHead != head) then Idle
        else Updating(op, head, s.root)]);
    } else {
      a := Retry(c);
      s' := s.(clients := s.clients[c := if op.SetHead? then Idle else Reading(op, initialHead)]);
    }
  }

  // ---------- runs ----------

  ghost predicate Goes(s: State, a: Action, s': State) {
    Invariant(s) ==> Step(s, a, s')
  }

  /** One state after each action. */
  ghost predicate Run(states: seq<State>, actions: seq<Action>) {
    && |states| == |actions| + 1 && Invariant(states[0])
    && forall i :: 0 <= i < |actions| ==> Goes(states[i], actions[i], states[i + 1])
  }

  /** A client is carrying out `op`. */
  ghost predicate Does(s: State, c: nat, op: Op) {
    c in s.clients && !s.clients[c].Idle? && s.clients[c].op == op
  }

  /** The action sets or deletes the head of a dataset outright. */
  ghost predicate Resets(s: State, a: Action, id: Id) {
    a.Swap? && a.c in s.clients && !s.clients[a.c].Idle? && s.clients[a.c].op.id == id && !IsCommit(s.clients[a.c].op)
  }

  /** One step never loses the head of a dataset, unless it resets it. */
  lemma StepKeepsHead(s: State, a: Action, s': State, id: Id)
    requires Invariant(s) && Step(s, a, s') && Head(s.root, id).Some? && !Resets(s, a, id)
    ensures Invariant(s') && Head(s'.root, id).Some?
            && Reaches(s'.commits, Head(s'.root, id).value, Head(s.root, id).value)
  {
    StepKeeps(s, a, s');
    var h := Head(s.root, id).value;
    assert Reaches(s.commits, h, h);
    if a.Swap? && s.clients[a.c].op.id == id {
      SwapMovesForward(s, a.c, a.head, s');
    }
  }

  lemma {:induction false} Always(states: seq<State>, actions: seq<Action>, i: nat)
    requires Run(states, actions) && i < |states|
    ensures Invariant(states[i])
  {
    if i > 0 {
      hide Invariant, Step;
      Always(states, actions, i - 1);
      assert Goes(states[i - 1], actions[i - 1], states[i - 1 + 1]);
      StepKeeps(states[i - 1], actions[i - 1], states[i]);
    }
  }

  lemma RunStep(states: seq<State>, actions: seq<Action>, i: nat)
    requires Run(states, actions) && i < |actions|
    ensures Invariant(states[i]) && Step(states[i], actions[i], states[i + 1]) && Invariant(states[i + 1])
    ensures Grows(states[i].commits, states[i + 1].commits)
  {
    Always(states, actions, i);
    hide Invariant, Step;
    assert Goes(states[i], actions[i], states[i + 1]);
    StepKeeps(states[i], actions[i], states[i + 1]);
  }

  /** The head of a dataset is `h` or descends from it. */
  ghost predicate Descends(s: State, id: Id, h: Ref) {
    Invariant(s) && Head(s.root, id).Some? && Reaches(s.commits, Head(s.root, id).value, h)
  }

  /**
   Whatever the clients do and however their steps interleave, a head that has been published stays an ancestor of the
   head of its dataset, as long as nobody resets that dataset.
   */
  lemma {:induction false} NoHeadLost(states: seq<State>, actions: seq<Action>, i: nat, j: nat, id: Id, h: Ref)
    requires Run(states, actions) && i <= j < |states| && Head(states[i].root, id) == Some(h)
    requires forall k :: i <= k < j ==> !Resets(states[k], actions[k], id)
    ensures Descends(states[j], id, h)
    decreases j - i
  {
    hide Invariant, Step, Descends, Resets, Head;
    if i == j {
      Always(states, actions, i);
      IsHead(states[i], id, h);
    } else {
      NoHeadLost(states, actions, i, j - 1, id, h);
      RunStep(states, actions, j - 1);
      HeadMovesOn(states[j - 1], actions[j - 1], states[j], id, h);
    }
  }

  lemma IsHead(s: State, id: Id, h: Ref)
    requires Invariant(s) && Head(s.root, id) == Some(h)
    ensures Descends(s, id, h)
  {
  }

  /** What the head of a dataset descends from, the next head descends from. */
  lemma HeadMovesOn(s: State, a: Action, s': State, id: Id, h: Ref)
    requires Invariant(s) && Step(s, a, s') && !Resets(s, a, id) && Descends(s, id, h)
    ensures Descends(s', id, h)
  {
    StepKeepsHead(s, a, s', id);
    StepKeeps(s, a, s');
    var was, now := Head(s.root, id).value, Head(s'.root, id).value;
    hide Step;
    ReachesStill(s.commits, s'.commits, was, h);
    ReachesLower(s'.commits, now, was);
    ReachesOn(s'.commits, now, was, h);
  }

  /** A commit that succeeded stays an ancestor of the head of its dataset, as long as nobody resets that dataset. */
  lemma {:induction false} NoCommitLost(states: seq<State>, actions: seq<Action>, i: nat, j: nat, op: Op)
    requires Run(states, actions) && i < j < |states| && actions[i].Swap? && Does(states[i], actions[i].c, op)
             && IsCommit(op)
    requires forall k :: i < k < j ==> !Resets(states[k], actions[k], op.id)
    ensures Descends(states[j], op.id, op.commit)
    decreases j - i
  {
    hide Invariant, Step, Descends, Resets;
    RunStep(states, actions, j - 1);
    if i == j - 1 {
      Committed(states[i], actions[i], states[j], op);
    } else {
      NoCommitLost(states, actions, i, j - 1, op);
      HeadMovesOn(states[j - 1], actions[j - 1], states[j], op.id, op.commit);
    }
  }

  lemma Committed(s: State, a: Action, s': State, op: Op)
    requires Invariant(s) && Step(s, a, s') && a.Swap? && Does(s, a.c, op) && IsCommit(op)
    ensures Descends(s', op.id, op.commit)
  {
    SwapMovesForward(s, a.c, a.head, s');
    StepKeeps(s, a, s');
  }
}
