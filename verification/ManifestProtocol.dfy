/**
 Many stores over the same tables.  The only shared state that changes is the manifest, a root and the tables that go
 with it, which a store replaces only if its root is still the one the store knows.
 */
module ManifestProtocol {

  type Address = nat
  type Root = nat

  /** The root of a manifest that has never been written. */
  const NO_ROOT: Root := 0

  /** A table is known by what it holds. */
  type Table = set<Address>

  datatype Manifest = Manifest(root: Root, tables: set<Table>)

  datatype Store = Store(root: Root, tables: set<Table>, mem: set<Address>)

  /** `persisted` are the tables that have been written out. */
  datatype State = State(manifest: Manifest, persisted: set<Table>, stores: map<nat, Store>)

  ghost predicate In(tables: set<Table>, a: Address) {
    exists t :: t in tables && a in t
  }

  ghost predicate Readable(s: Store, a: Address) {
    a in s.mem || In(s.tables, a)
  }

  /** What is in memory and in no table yet becomes a new table. */
  ghost function Spilled(s: Store): Store {
    var rest := set a | a in s.mem && !In(s.tables, a);
    s.(tables := if rest == {} then s.tables else s.tables + {rest}, mem := {})
  }

  lemma SpilledReadable(s: Store, a: Address)
    ensures Readable(Spilled(s), a) <==> Readable(s, a)
    ensures s.tables <= Spilled(s).tables
  {
    var rest := set x | x in s.mem && !In(s.tables, x);
    if a in s.mem && !In(s.tables, a) {
      assert a in rest && rest in Spilled(s).tables;
    }
    if In(Spilled(s).tables, a) && !In(s.tables, a) {
      var t :| t in Spilled(s).tables && a in t;
      assert t == rest;
    }
    if In(s.tables, a) {
      var t :| t in s.tables && a in t;
      assert t in Spilled(s).tables;
    }
  }

  /** The new table holds what was in memory and in no table, so that nothing is written twice. */
  lemma SpilledOnce(s: Store, t: Table)
    requires t in Spilled(s).tables && t !in s.tables
    ensures t != {} && forall a :: a in t <==> a in s.mem && !In(s.tables, a)
    ensures Spilled(s).tables == s.tables + {t} && Spilled(s).mem == {}
  {
  }

  // ---------- steps ----------

  datatype Action =
    | Open(i: nat)
    | Close(i: nat)
    | PutChunk(i: nat, a: Address)
    | Spill(i: nat)
    | Persist(written: set<Table>)
    | UpdateRoot(i: nat, current: Root)

  /** The manifest still has the root that the store knows, so that the update goes through. */
  predicate Installs(s: State, i: nat)
    requires i in s.stores
  {
    s.manifest.root == s.stores[i].root
  }

  /** What `UpdateRoot` compares with the root it proposed: the root that is in the manifest afterwards. */
  function Actual(s: State, i: nat, current: Root): Root
    requires i in s.stores
  {
    if Installs(s, i) then current else s.manifest.root
  }

  /** What `UpdateRoot` returns. */
  predicate Reports(s: State, i: nat, current: Root)
    requires i in s.stores
  {
    Actual(s, i, current) == current
  }

  /**
   The result of an update is right exactly when the manifest was as expected, or did not have the proposed root
   already.
   */
  lemma ReportsExactly(s: State, i: nat, current: Root)
    requires i in s.stores
    ensures (Reports(s, i, current) <==> Installs(s, i)) <==>
              (s.manifest.root == s.stores[i].root || s.manifest.root != current)
  {
  }

  /** The store once it has nothing in memory. */
  ghost function Flushed(store: Store): Store {
    if store.mem != {} then Spilled(store) else store
  }

  ghost function Updated(s: State, i: nat, current: Root): State
    requires i in s.stores
  {
    var store := Flushed(s.stores[i]);
    if Installs(s, i) then
      s.(manifest := Manifest(current, store.tables), stores := s.stores[i := store.(root := current)])
    else if Reports(s, i, current) then
      s.(stores := s.stores[i := store.(root := current)])
    else
      s.(stores := s.stores[i := Store(s.manifest.root, store.tables + s.manifest.tables, store.mem)])
  }

  /** Names of tables are only known once they have been written out. */
  ghost predicate Ready(s: State, i: nat)
    requires i in s.stores
  {
    Flushed(s.stores[i]).tables <= s.persisted
  }

  ghost predicate Step(s: State, a: Action, s': State) {
    match a
    case Open(i) => i !in s.stores && s' == s.(stores := s.stores[i := Store(s.manifest.root, s.manifest.tables, {})])
    case Close(i) => i in s.stores && s' == s.(stores := s.stores - {i})
    case PutChunk(i, x) => i in s.stores && s'
      == s.(stores := s.stores[i := s.stores[i].(mem := s.stores[i].mem + {x})])
    case Spill(i) => i in s.stores && s' == s.(stores := s.stores[i := Spilled(s.stores[i])])
    case Persist(written) => s' == s.(persisted := s.persisted + written)
    case UpdateRoot(i, current) => i in s.stores && Ready(s, i) && s' == Updated(s, i, current)
  }

  lemma FlushedReadable(store: Store, a: Address)
    ensures Readable(Flushed(store), a) <==> Readable(store, a)
    ensures store.tables <= Flushed(store).tables && Flushed(store).mem == {} && Flushed(store).root == store.root
    ensures In(Flushed(store).tables, a) <==> Readable(store, a)
  {
    SpilledReadable(store, a);
  }

  /**
   An update that goes through: the manifest has the proposed root and tables with exactly what the store could read,
   and the store knows both.
   */
  lemma Installed(s: State, i: nat, current: Root, s': State)
    requires Step(s, UpdateRoot(i, current), s') && Installs(s, i)
    ensures Reports(s, i, current) && s'.manifest.root == current && i in s'.stores && s'.stores[i].root == current
    ensures forall a :: In(s'.manifest.tables, a) <==> Readable(s.stores[i], a)
    ensures s'.stores[i].tables == s'.manifest.tables && s'.stores[i].mem == {}
    ensures forall j :: j != i ==> (j in s'.stores <==> j in s.stores)
                                   && (j in s.stores ==> s'.stores[j] == s.stores[j])
  {
    FlushedReadable(s.stores[i], 0);
    forall a ensures In(s'.manifest.tables, a) <==> Readable(s.stores[i], a) {
      FlushedReadable(s.stores[i], a);
    }
  }

  /**
   An update that is refused: the manifest is as it was, and the store has caught up with it without losing anything, so
   that trying again at once goes through.
   */
  lemma CatchesUp(s: State, i: nat, current: Root, s': State)
    requires Step(s, UpdateRoot(i, current), s') && !Reports(s, i, current)
    ensures s'.manifest == s.manifest && i in s'.stores && s'.stores[i].root == s.manifest.root && Installs(s', i)
    ensures forall a :: Readable(s'.stores[i], a) <==> Readable(s.stores[i], a) || In(s.manifest.tables, a)
    ensures s.manifest.tables <= s'.stores[i].tables
    ensures forall j :: j != i ==> (j in s'.stores <==> j in s.stores)
                                   && (j in s.stores ==> s'.stores[j] == s.stores[j])
  {
    forall a ensures Readable(s'.stores[i], a) <==> Readable(s.stores[i], a) || In(s.manifest.tables, a) {
      FlushedReadable(s.stores[i], a);
      InEither(Flushed(s.stores[i]).tables, s.manifest.tables, a);
    }
  }

  /** An update that is taken for done although it was not: nothing is installed, and the store learns nothing. */
  lemma TakenForDone(s: State, i: nat, current: Root, s': State)
    requires Step(s, UpdateRoot(i, current), s') && Reports(s, i, current) && !Installs(s, i)
    ensures s'.manifest == s.manifest && s.manifest.root == current && i in s'.stores && s'.stores[i].root == current
    ensures forall a :: Readable(s'.stores[i], a) <==> Readable(s.stores[i], a)
  {
    forall a ensures Readable(s'.stores[i], a) <==> Readable(s.stores[i], a) {
      FlushedReadable(s.stores[i], a);
    }
  }

  lemma InEither(x: set<Table>, y: set<Table>, a: Address)
    ensures In(x + y, a) <==> In(x, a) || In(y, a)
  {
    if In(x, a) {
      var t :| t in x && a in t;
      assert t in x + y;
    }
    if In(y, a) {
      var t :| t in y && a in t;
      assert t in x + y;
    }
  }

  /** Refused and tried again with nothing in between, an update installs the root and everything the store can read. */
  lemma TryAgain(s: State, i: nat, current: Root, s': State) returns (s1: State, s2: State)
    requires Step(s, UpdateRoot(i, current), s') && !Reports(s, i, current)
    ensures Step(s', Persist(Flushed(s'.stores[i]).tables), s1) && Step(s1, UpdateRoot(i, current), s2)
    ensures Reports(s1, i, current) && s2.manifest.root == current
    ensures forall a :: In(s2.manifest.tables, a) <==> Readable(s.stores[i], a) || In(s.manifest.tables, a)
  {
    CatchesUp(s, i, current, s');
    s1 := s'.(persisted := s'.persisted + Flushed(s'.stores[i]).tables);
    s2 := Updated(s1, i, current);
    assert Step(s1, UpdateRoot(i, current), s2);
    Installed(s1, i, current, s2);
  }

  /** What a store puts it can read, and what it could read it still can. */
  lemma PutReadable(s: State, i: nat, x: Address, s': State, a: Address)
    requires Step(s, PutChunk(i, x), s')
    ensures i in s'.stores && (Readable(s'.stores[i], a) <==> Readable(s.stores[i], a) || a == x)
    ensures s'.manifest == s.manifest && s'.stores[i].root == s.stores[i].root
  {
  }

  /** A store that is opened knows the manifest and can read exactly what is in its tables. */
  lemma OpenReads(s: State, i: nat, s': State, a: Address)
    requires Step(s, Open(i), s')
    ensures i in s'.stores && s'.stores[i].root == s.manifest.root
    ensures Readable(s'.stores[i], a) <==> In(s.manifest.tables, a)
  {
  }

  const INITIAL: State := State(Manifest(NO_ROOT, {}), {}, map[])

  // ---------- what every step keeps ----------

  /** A store that knows the root of the manifest knows its tables. */
  ghost predicate Invariant(s: State) {
    && s.manifest.tables <= s.persisted
    && (forall i :: i in s.stores && s.stores[i].root == s.manifest.root ==> s.manifest.tables <= s.stores[i].tables)
  }

  /**
   An update that fails does not propose the root that is there already, and one that goes through does not propose a
   root that another store knows without knowing all the tables that now go with it.
   */
  ghost predicate Harmless(s: State, a: Action) {
    a.UpdateRoot? && a.i in s.stores ==>
      if Installs(s, a.i)
      then forall j :: j in s.stores && j != a.i && s.stores[j].root == a.current ==>
               Flushed(s.stores[a.i]).tables <= s.stores[j].tables
      else s.manifest.root != a.current
  }

  /** The invariant holds again, and the store has been told the truth. */
  ghost predicate Sound(s: State, a: Action, s': State) {
    Invariant(s') && (a.UpdateRoot? && a.i in s.stores ==> (Reports(s, a.i, a.current) <==> Installs(s, a.i)))
  }

  /** A step keeps the invariant and tells the truth exactly when it is harmless. */
  lemma SoundExactly(s: State, a: Action, s': State)
    requires Invariant(s) && Step(s, a, s')
    ensures Sound(s, a, s') <==> Harmless(s, a)
  {
    if a.Spill? || a.UpdateRoot? {
      SpilledReadable(s.stores[a.i], 0);
    }
    hide In, Spilled;
    if a.UpdateRoot? && Installs(s, a.i) {
      forall j | j in s.stores && j != a.i ensures s'.stores[j] == s.stores[j] {
      }
    }
  }

  lemma StepKeeps(s: State, a: Action, s': State)
    requires Invariant(s) && Step(s, a, s') && Harmless(s, a)
    ensures Sound(s, a, s') && s.manifest.tables <= s'.manifest.tables && s.persisted <= s'.persisted
  {
    SoundExactly(s, a, s');
    if a.Spill? || a.UpdateRoot? {
      SpilledReadable(s.stores[a.i], 0);
    }
    hide In, Sound;
  }

  /** All addresses in the tables. */
  ghost function Held(tables: set<Table>): set<Address> {
    set t, a | t in tables && a in t :: a
  }

  lemma {:induction false} Unused(s: set<Address>) returns (x: Address)
    ensures forall a :: a in s ==> a < x
    decreases |s|
  {
    if s == {} {
      x := 0;
    } else {
      var a :| a in s;
      var y := Unused(s - {a});
      x := if a < y then y else a + 1;
      forall b | b in s ensures b < x {
        assert b == a || b in s - {a};
      }
    }
  }

  /** What a store that puts an unused address spills is not a given table that it does not know. */
  lemma SpillsAnother(store: Store, x: Address, t: Table)
    requires t !in store.tables && x !in t && !In(store.tables, x)
    ensures t !in Flushed(store.(mem := store.mem + {x})).tables
  {
    var full := store.(mem := store.mem + {x});
    var rest := set a | a in full.mem && !In(full.tables, a);
    assert x in full.mem && x in rest && rest != t;
    assert Flushed(full).tables == store.tables + {rest};
  }

  /**
   The converse: when a step that goes through is not harmless, three more steps of another store drop a table from the
   manifest, although that store, too, is told the truth.
   */
  lemma HarmLosesTable(s: State, i: nat, current: Root, s': State, next: Root)
    returns (j: nat, x: Address, t: Table, s1: State, s2: State, s3: State)
    requires Step(s, UpdateRoot(i, current), s') && Installs(s, i) && !Harmless(s, UpdateRoot(i, current))
    ensures j in s'.stores && Step(s', PutChunk(j, x), s1) && j in s1.stores
    ensures Step(s1, Persist(Flushed(s1.stores[j]).tables), s2) && Step(s2, UpdateRoot(j, next), s3) && Installs(s2, j)
    ensures t in s'.manifest.tables && t !in s3.manifest.tables
  {
    j :| j in s.stores && j != i && s.stores[j].root == current && !(Flushed(s.stores[i]).tables <= s.stores[j].tables);
    assert j in s'.stores && s'.stores[j] == s.stores[j];
    var store := s.stores[j];
    t :| t in Flushed(s.stores[i]).tables && t !in store.tables;
    x := Unused(Held(store.tables) + t);
    assert !In(store.tables, x) by {
      forall u | u in store.tables ensures x !in u {
        assert x in u ==> x in Held(store.tables);
      }
    }
    SpillsAnother(store, x, t);
    hide Spilled, Flushed;
    var full := store.(mem := store.mem + {x});
    s1 := s'.(stores := s'.stores[j := full]);
    s2 := s1.(persisted := s1.persisted + Flushed(full).tables);
    s3 := Updated(s2, j, next);
    assert s1.stores[j] == full && s2.stores[j] == full;
  }

  /** A store that stays open goes on reading what it could read. */
  lemma StillReadable(s: State, a: Action, s': State, i: nat, x: Address)
    requires Step(s, a, s') && i in s.stores && i in s'.stores && Readable(s.stores[i], x)
    ensures Readable(s'.stores[i], x)
  {
    if (a.Spill? || a.UpdateRoot?) && a.i == i {
      SpilledReadable(s.stores[i], x);
      var store := Flushed(s.stores[i]);
      assert Readable(store, x);
      if In(store.tables, x) {
        var t :| t in store.tables && x in t;
        assert a.UpdateRoot? ==> t in s'.stores[i].tables;
      }
    }
  }

  /** After an update that went through, the manifest leads to everything that the store could read. */
  lemma InstalledReadable(s: State, i: nat, current: Root, s': State, x: Address)
    requires Step(s, UpdateRoot(i, current), s') && Installs(s, i) && Readable(s.stores[i], x)
    ensures In(s'.manifest.tables, x)
  {
    SpilledReadable(s.stores[i], x);
  }

  lemma InMore(tables: set<Table>, more: set<Table>, a: Address)
    requires tables <= more && In(tables, a)
    ensures In(more, a)
  {
  }

  // ---------- runs ----------

  /** One state after each action, from the very beginning. */
  ghost predicate Run(states: seq<State>, actions: seq<Action>) {
    && |states| == |actions| + 1 && states[0] == INITIAL
    && forall i :: 0 <= i < |actions| ==> Step(states[i], actions[i], states[i + 1])
  }

  ghost predicate AllHarmless(states: seq<State>, actions: seq<Action>) {
    |states| == |actions| + 1 && forall i :: 0 <= i < |actions| ==> Harmless(states[i], actions[i])
  }

  lemma {:induction false} Always(states: seq<State>, actions: seq<Action>, i: nat)
    requires Run(states, actions) && AllHarmless(states, actions) && i < |states|
    ensures Invariant(states[i])
  {
    if i > 0 {
      hide Step, Harmless, Invariant;
      Always(states, actions, i - 1);
      assert Step(states[i - 1], actions[i - 1], states[i - 1 + 1]);
      StepKeeps(states[i - 1], actions[i - 1], states[i]);
    } else {
      Begins();
    }
  }

  lemma Begins()
    ensures Invariant(INITIAL)
  {
  }

  lemma RunStep(states: seq<State>, actions: seq<Action>, i: nat)
    requires Run(states, actions) && AllHarmless(states, actions) && i < |actions|
    ensures Invariant(states[i]) && Step(states[i], actions[i], states[i + 1]) && Invariant(states[i + 1])
    ensures states[i].manifest.tables <= states[i + 1].manifest.tables && states[i].persisted <= states[i + 1].persisted
    ensures Sound(states[i], actions[i], states[i + 1])
  {
    Always(states, actions, i);
    StepKeeps(states[i], actions[i], states[i + 1]);
  }

  /** The tables of the manifest only ever become more. */
  lemma {:induction false} ManifestGrows(states: seq<State>, actions: seq<Action>, i: nat, j: nat)
    requires Run(states, actions) && AllHarmless(states, actions) && i <= j < |states|
    ensures states[i].manifest.tables <= states[j].manifest.tables
    decreases j - i
  {
    if i < j {
      hide Step, Invariant;
      ManifestGrows(states, actions, i, j - 1);
      RunStep(states, actions, j - 1);
    }
  }

  /** Everything a store could read when its update succeeded is in the tables of the manifest ever after. */
  lemma Durable(states: seq<State>, actions: seq<Action>, i: nat, j: nat, x: Address)
    requires Run(states, actions) && AllHarmless(states, actions) && i < j < |states| && actions[i].UpdateRoot?
             && actions[i].i in states[i].stores
    requires Reports(states[i], actions[i].i, actions[i].current) && Readable(states[i].stores[actions[i].i], x)
    ensures In(states[j].manifest.tables, x) && states[j].manifest.tables <= states[j].persisted
  {
    RunStep(states, actions, i);
    InstalledReadable(states[i], actions[i].i, actions[i].current, states[i + 1], x);
    ManifestGrows(states, actions, i + 1, j);
    InMore(states[i + 1].manifest.tables, states[j].manifest.tables, x);
    Always(states, actions, j);
  }

  /** A store that is opened after that, and is still open, can read it. */
  lemma {:induction false} ReadableByLaterStores(states: seq<State>, actions: seq<Action>, i: nat, k: nat, j: nat,
                                                 x: Address, d: nat)
    requires Run(states, actions) && AllHarmless(states, actions) && i < k < j < |states| && actions[i].UpdateRoot?
             && actions[i].i in states[i].stores
    requires Reports(states[i], actions[i].i, actions[i].current) && Readable(states[i].stores[actions[i].i], x)
    requires actions[k] == Open(d) && forall l :: k < l < j ==> actions[l] != Close(d)
    ensures d in states[j].stores && Readable(states[j].stores[d], x)
    decreases j - k
  {
    RunStep(states, actions, j - 1);
    if k == j - 1 {
      Durable(states, actions, i, k, x);
    } else {
      hide Readable, Invariant, Reports;
      ReadableByLaterStores(states, actions, i, k, j - 1, x, d);
      StillReadable(states[j - 1], actions[j - 1], states[j], d, x);
    }
  }

  // ---------- which runs are harmless ----------

  /** No root is proposed twice, nor the root of a manifest that has never been written. */
  ghost predicate AllFresh(actions: seq<Action>) {
    && (forall i :: 0 <= i < |actions| && actions[i].UpdateRoot? ==> actions[i].current != NO_ROOT)
    && (forall i, j :: 0 <= i < j < |actions| && actions[i].UpdateRoot? && actions[j].UpdateRoot? ==>
            actions[i].current != actions[j].current)
  }

  /** The root is that of a manifest that has never been written, or has been proposed by the first `n` actions. */
  ghost predicate Proposed(actions: seq<Action>, n: nat, root: Root) {
    root == NO_ROOT || exists i :: 0 <= i < n && i < |actions| && actions[i].UpdateRoot? && actions[i].current == root
  }

  lemma ProposedMore(actions: seq<Action>, n: nat, root: Root)
    requires Proposed(actions, n, root)
    ensures Proposed(actions, n + 1, root)
  {
  }

  ghost predicate RootsProposed(s: State, actions: seq<Action>, n: nat) {
    Proposed(actions, n, s.manifest.root) && forall i :: i in s.stores ==> Proposed(actions, n, s.stores[i].root)
  }

  /** All roots that anybody knows have been proposed. */
  lemma {:induction false} RootsKnown(states: seq<State>, actions: seq<Action>, n: nat)
    requires Run(states, actions) && n < |states|
    ensures RootsProposed(states[n], actions, n)
  {
    if n > 0 {
      var s, a, s' := states[n - 1], actions[n - 1], states[n];
      RootsKnown(states, actions, n - 1);
      assert Step(states[n - 1], actions[n - 1], states[n - 1 + 1]);
      hide Run, Proposed, In;
      ProposedMore(actions, n - 1, s.manifest.root);
      forall i | i in s.stores ensures Proposed(actions, n, s.stores[i].root) {
        ProposedMore(actions, n - 1, s.stores[i].root);
      }
      if a.UpdateRoot? {
        NowProposed(actions, n - 1);
      }
    }
  }

  lemma NowProposed(actions: seq<Action>, n: nat)
    requires n < |actions| && actions[n].UpdateRoot?
    ensures Proposed(actions, n + 1, actions[n].current)
  {
  }

  lemma NotProposed(actions: seq<Action>, n: nat)
    requires AllFresh(actions) && n < |actions| && actions[n].UpdateRoot?
    ensures !Proposed(actions, n, actions[n].current)
  {
  }

  /** Where no root is proposed twice, every step is harmless. */
  lemma FreshIsHarmless(states: seq<State>, actions: seq<Action>)
    requires Run(states, actions) && AllFresh(actions)
    ensures AllHarmless(states, actions)
  {
    forall n | 0 <= n < |actions| ensures Harmless(states[n], actions[n]) {
      RootsKnown(states, actions, n);
      if actions[n].UpdateRoot? {
        NotProposed(actions, n);
      }
      hide Proposed;
    }
  }

  /**
   Two stores that propose the same root: the second is told that its update succeeded, but what it put is not in the
   manifest, so that no store opened later can read it.
   */
  lemma SameRootTwice() returns (states: seq<State>, actions: seq<Action>)
    ensures Run(states, actions) && |actions| == 8 && actions[7] == UpdateRoot(2, 5) && 2 in states[7].stores
    ensures Reports(states[7], 2, 5) && Readable(states[7].stores[2], 20) && !In(states[8].manifest.tables, 20)
  {
    var t1, t2: Table := {10}, {20};
    actions := [Open(1), Open(2), PutChunk(1, 10), PutChunk(2, 20), Persist({t1}), Persist({t2}), UpdateRoot(1, 5),
                UpdateRoot(2, 5)];
    var empty, one, two := Store(NO_ROOT, {}, {}), Store(NO_ROOT, {}, {10}), Store(NO_ROOT, {}, {20});
    assert Spilled(one) == Store(NO_ROOT, {t1}, {}) by {
      assert (set a | a in one.mem && !In(one.tables, a)) == t1;
    }
    assert Spilled(two) == Store(NO_ROOT, {t2}, {}) by {
      assert (set a | a in two.mem && !In(two.tables, a)) == t2;
    }
    assert empty.mem + {10} == one.mem && empty.mem + {20} == two.mem;
    var m := Manifest(NO_ROOT, {});
    var s1 := State(m, {}, map[1 := empty]);
    var s2 := State(m, {}, map[1 := empty, 2 := empty]);
    var s3 := State(m, {}, map[1 := one, 2 := empty]);
    var s4 := State(m, {}, map[1 := one, 2 := two]);
    var s5 := State(m, {t1}, map[1 := one, 2 := two]);
    var s6 := State(m, {t1, t2}, map[1 := one, 2 := two]);
    var s7 := State(Manifest(5, {t1}), {t1, t2}, map[1 := Store(5, {t1}, {}), 2 := two]);
    var s8 := State(Manifest(5, {t1}), {t1, t2}, map[1 := Store(5, {t1}, {}), 2 := Store(5, {t2}, {})]);
    states := [INITIAL, s1, s2, s3, s4, s5, s6, s7, s8];
    assert Step(INITIAL, actions[0], s1) && Step(s1, actions[1], s2) && Step(s2, actions[2], s3)
           && Step(s3, actions[3], s4);
    assert Step(s4, actions[4], s5) && Step(s5, actions[5], s6);
    assert Step(s6, actions[6], s7);
    assert Step(s7, actions[7], s8);
  }

  /**
   A root that comes back: every store is told the truth, but a store that has known the root from before replaces a
   manifest whose tables it does not know, and what had been installed is lost.
   */
  lemma RootComesBack() returns (states: seq<State>, actions: seq<Action>)
    ensures Run(states, actions) && |actions| == 8
    ensures forall i :: 0 <= i < 8 && actions[i].UpdateRoot? && actions[i].i in states[i].stores ==>
              Reports(states[i], actions[i].i, actions[i].current) && Installs(states[i], actions[i].i)
    ensures In(states[7].manifest.tables, 10) && !In(states[8].manifest.tables, 10)
  {
    var t: Table := {10};
    actions := [Open(1), UpdateRoot(1, 5), Open(2), PutChunk(1, 10), Persist({t}), UpdateRoot(1, 6), UpdateRoot(1, 5),
                UpdateRoot(2, 7)];
    var none, five, one := Store(NO_ROOT, {}, {}), Store(5, {}, {}), Store(5, {}, {10});
    assert Spilled(one) == Store(5, {t}, {}) by {
      assert (set a | a in one.mem && !In(one.tables, a)) == t;
    }
    assert five.mem + {10} == one.mem;
    var s1 := State(Manifest(NO_ROOT, {}), {}, map[1 := none]);
    var s2 := State(Manifest(5, {}), {}, map[1 := five]);
    var s3 := State(Manifest(5, {}), {}, map[1 := five, 2 := five]);
    var s4 := State(Manifest(5, {}), {}, map[1 := one, 2 := five]);
    var s5 := State(Manifest(5, {}), {t}, map[1 := one, 2 := five]);
    var s6 := State(Manifest(6, {t}), {t}, map[1 := Store(6, {t}, {}), 2 := five]);
    var s7 := State(Manifest(5, {t}), {t}, map[1 := Store(5, {t}, {}), 2 := five]);
    var s8 := State(Manifest(7, {}), {t}, map[1 := Store(5, {t}, {}), 2 := Store(7, {}, {})]);
    states := [INITIAL, s1, s2, s3, s4, s5, s6, s7, s8];
    assert Step(INITIAL, actions[0], s1) && Step(s1, actions[1], s2) && Step(s2, actions[2], s3)
           && Step(s3, actions[3], s4);
    assert Step(s4, actions[4], s5);
    assert Step(s5, actions[5], s6);
    assert Step(s6, actions[6], s7);
    assert Step(s7, actions[7], s8);
    assert 10 in t && t in s7.manifest.tables;
  }
}
