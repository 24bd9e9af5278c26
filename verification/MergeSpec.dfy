/**
 What merging two edits of a value comes to.  Maps, sets and structs are merged key by key, lists splice by splice, and
 where both sides changed the same entry, or what is behind the same reference, the merge goes on there.
 */
module MergeSpec {
  import opened Options
  import opened ByteSeqs
  import opened Chunking
  import opened ProllyTree
  import opened Splices
  import opened EditDistance
  import opened OrderedDiff
  import D = IndexedDiff
  import L = ListMerge
  import O = OrderlyDiff

  /**
   Values as far as merging tells them apart; keys and field names stand for their place in the order of all of them.
   */
  datatype Value =
    | Primitive(id: int)
    | ListValue(items: seq<Value>)
    | MapValue(entries: map<nat, Value>)
    | RefValue(target: Value)
    | SetValue(elements: set<nat>)
    | StructValue(name: nat, fields: map<nat, Value>)

  datatype Outcome<T> = Merged(value: T) | MergeConflict

  function Lookup(m: map<nat, Value>, k: nat): Option<Value> {
    if k in m then Some(m[k]) else None
  }

  /** Decides, from what both sides did to a key and made of it, what becomes of it, if it decides at all. */
  datatype Resolver =
    | Unresolved
    | Ours
    | Theirs
    | Other(choose: (ChangeType, ChangeType, Option<Value>, Option<Value>) -> Option<Option<Value>>)
  {
    function Resolve(s: ChangeType, t: ChangeType, x: Option<Value>, y: Option<Value>): Option<Option<Value>> {
      match this
      case Unresolved => None
      case Ours => Some(x)
      case Theirs => Some(y)
      case Other(choose) => choose(s, t, x, y)
    }

    /** The same with the sides swapped. */
    function Flip(): Resolver {
      match this
      case Unresolved => Unresolved
      case Ours => Theirs
      case Theirs => Ours
      case Other(choose) => Other((s, t, x, y) => choose(t, s, y, x))
    }
  }

  // ---------- how values are stored ----------

  /** How values become trees: the bytes that entries and list elements are hashed as, and the trees themselves. */
  datatype Storage = Storage(
    entryBytes: Entry<Value> -> seq<Byte>, mapTree: map<nat, Value> -> Collection<Value>,
    itemBytes: Value -> seq<Byte>, listTree: seq<Value> -> D.List<Value>)

  function EntryItem(st: Storage, k: nat, v: Value): Item<Node<Entry<Value>>> {
    Item(ProllyTree.Value(Entry(k, v)), st.entryBytes(Entry(k, v)))
  }

  /** The entries are those of the map. */
  ghost predicate Represents(st: Storage, m: map<nat, Value>, xs: Entries<Value>) {
    Sorted(xs) && forall k :: Find(xs, 0, k) == if k in m then Some(EntryItem(st, k, m[k])) else None
  }

  function ItemsFor(st: Storage, items: seq<Value>): Level<Value> {
    seq(|items|, i requires 0 <= i < |items| => Item(ProllyTree.Value(items[i]), st.itemBytes(items[i])))
  }

  function ValuesOf(level: Level<Value>): seq<Value> {
    seq(|level|, i requires 0 <= i < |level| => if level[i].value.Value? then level[i].value.value else Primitive(0))
  }

  lemma ValuesBack(st: Storage, items: seq<Value>)
    ensures ValuesOf(ItemsFor(st, items)) == items
  {
  }

  /** Every map and every list is stored as some tree of its entries or elements. */
  ghost predicate Works(st: Storage) {
    && (forall m :: Ordered(st.mapTree(m)) && Represents(st, m, EntriesOf(st.mapTree(m))))
    && (forall l :: |l| < SPLICE_UNASSIGNED ==> StoredList(st, l))
  }

  ghost predicate StoredList(st: Storage, l: seq<Value>) {
    D.Valid(st.listTree(l)) && D.Values(st.listTree(l)) == ItemsFor(st, l)
  }

  // ---------- a way of storing everything ----------

  ghost function Largest(keys: set<nat>): (k: nat)
    requires keys != {}
    ensures k in keys && forall x :: x in keys ==> x <= k
  {
    var x :| x in keys;
    if keys == {x} then x
    else
      var y := Largest(keys - {x});
      assert forall z :: z in keys ==> z == x || z in keys - {x};
      if x < y then y else x
  }

  /** The entries of a map for some of its keys, in order. */
  ghost function SortedEntries(m: map<nat, Value>, keys: set<nat>): Entries<Value>
    requires keys <= m.Keys
  {
    if keys == {} then []
    else
      var k := Largest(keys);
      SortedEntries(m, keys - {k}) + [Item(ProllyTree.Value(Entry(k, m[k])), [])]
  }

  /** Every map and list as one chunk, and nothing hashed. */
  ghost function OneChunk(): Storage {
    Storage(_ => [], (m: map<nat, Value>) => Collection(SortedEntries(m, m.Keys), 0), _ => [],
            (l: seq<Value>) => D.List(seq(|l|, i requires 0 <= i < |l| => Item(ProllyTree.Value(l[i]), [])), 0))
  }

  lemma {:induction false} FindMore(xs: Entries<Value>, i: nat, item: Item<Node<Entry<Value>>>, k: nat)
    requires i <= |xs|
    ensures Find(xs + [item], i, k) ==
            if Find(xs, i, k).Some? then Find(xs, i, k) else if Key(item) == k then Some(item) else None
    decreases |xs| - i
  {
    if i < |xs| {
      FindMore(xs, i + 1, item, k);
    }
  }

  /** These are the entries for these keys of a map. */
  ghost predicate EntriesFor(m: map<nat, Value>, keys: set<nat>, xs: Entries<Value>)
    requires keys <= m.Keys
  {
    && Sorted(xs) && HasDepth(xs, 0) && (forall i :: 0 <= i < |xs| ==> Key(xs[i]) in keys)
    && (forall k :: Find(xs, 0, k) == if k in keys then Some(Item(ProllyTree.Value(Entry(k, m[k])), [])) else None)
  }

  lemma EntriesMore(m: map<nat, Value>, keys: set<nat>, xs: Entries<Value>, k: nat)
    requires keys <= m.Keys && EntriesFor(m, keys, xs) && k in m && forall x :: x in keys ==> x < k
    ensures EntriesFor(m, keys + {k}, xs + [Item(ProllyTree.Value(Entry(k, m[k])), [])])
  {
    var item := Item(ProllyTree.Value(Entry(k, m[k])), []);
    forall x
      ensures Find(xs + [item], 0, x) == if x in keys + {k} then Some(Item(ProllyTree.Value(Entry(x, m[x])), []))
      else None {
      FindMore(xs, 0, item, x);
    }
    hide Find;
  }

  lemma {:induction false} EntriesInOrder(m: map<nat, Value>, keys: set<nat>)
    requires keys <= m.Keys
    ensures EntriesFor(m, keys, SortedEntries(m, keys))
  {
    if keys != {} {
      var k := Largest(keys);
      EntriesInOrder(m, keys - {k});
      hide EntriesFor;
      EntriesMore(m, keys - {k}, SortedEntries(m, keys - {k}), k);
      assert keys - {k} + {k} == keys;
    }
  }

  lemma MapInChunk(m: map<nat, Value>)
    ensures var c := OneChunk().mapTree(m); Ordered(c) && Represents(OneChunk(), m, EntriesOf(c))
  {
    var xs := SortedEntries(m, m.Keys);
    EntriesInOrder(m, m.Keys);
    hide SortedEntries, Find;
    ValuesFlatten(xs, |xs|);
    assert xs[..|xs|] == xs;
  }

  lemma ListInChunk(l: seq<Value>)
    requires |l| < SPLICE_UNASSIGNED
    ensures StoredList(OneChunk(), l)
  {
    var xs := ItemsFor(OneChunk(), l);
    assert OneChunk().listTree(l).root == xs;
    ValuesFlatten(xs, |xs|);
    assert xs[..|xs|] == xs;
  }

  /** There is such a storage, so what is said of every one is not said of none. */
  lemma OneChunkWorks()
    ensures Works(OneChunk())
  {
    var st := OneChunk();
    forall m: map<nat, Value> ensures Ordered(st.mapTree(m)) && Represents(st, m, EntriesOf(st.mapTree(m))) {
      MapInChunk(m);
    }
    forall l: seq<Value> | |l| < SPLICE_UNASSIGNED ensures StoredList(st, l) {
      ListInChunk(l);
    }
    hide OneChunk, Ordered, Represents, StoredList, EntriesOf;
  }

  // ---------- what a merge has to be ----------

  /** Values of different kinds, and primitives, cannot be merged. */
  predicate Unmergeable(a: Value, b: Value) {
    match (a, b)
    case (ListValue(_), ListValue(_)) => false
    case (MapValue(_), MapValue(_)) => false
    case (RefValue(_), RefValue(_)) => false
    case (SetValue(_), SetValue(_)) => false
    case (StructValue(_, _), StructValue(_, _)) => false
    case _ => true
  }

  /** Where the values are that are merged key by key. */
  function Parts(a: Value): map<nat, Value> {
    match a
    case MapValue(entries) => entries
    case StructValue(_, fields) => fields
    case _ => map[]
  }

  function Resolved(resolve: Resolver, x: Option<Value>, y: Option<Value>, p: Option<Value>): Outcome<Option<Value>> {
    var s, t := Fate(p, x), Fate(p, y);
    var r := if s.Some? && t.Some? then resolve.Resolve(s.value, t.value, x, y) else None;
    if r.Some? then Merged(r.value) else MergeConflict
  }

  /**
   What becomes of key `k`: the side that changed it decides, and if both did they have to agree, merge or be resolved.
   */
  ghost function MergeKey(st: Storage, resolve: Resolver, a: Value, b: Value, z: map<nat, Value>,
                          k: nat): Outcome<Option<Value>>
    decreases a, 0
  {
    var x, y, p := Lookup(Parts(a), k), Lookup(Parts(b), k), Lookup(z, k);
    if x == p then Merged(y)
    else if y == p || x == y then Merged(x)
    else if x.None? || y.None? || Unmergeable(x.value, y.value) then Resolved(resolve, x, y, p)
    else
      var v := if a.MapValue? then a.entries[k] else a.fields[k];
      match MergeValues(st, resolve, v, y.value, p)
      case Merged(v) => Merged(Some(v))
      case MergeConflict => MergeConflict
  }

  ghost predicate AnyConflict(st: Storage, resolve: Resolver, a: Value, b: Value, z: map<nat, Value>)
    decreases a, 1
  {
    exists k :: MergeKey(st, resolve, a, b, z, k).MergeConflict?
  }

  ghost function MergedParts(st: Storage, resolve: Resolver, a: Value, b: Value, z: map<nat, Value>): map<nat, Value>
    requires !AnyConflict(st, resolve, a, b, z)
    decreases a, 2
  {
    map k | k in Parts(a).Keys + Parts(b).Keys && MergeKey(st, resolve, a, b, z, k).value.Some? ::
      MergeKey(st, resolve, a, b, z, k).value.value
  }

  /** A member that only one side changed is as that side has it, and if both did they agree. */
  predicate MergeMember(x: bool, y: bool, p: bool) {
    if x == p then y else x
  }

  function MergedElements(x: set<nat>, y: set<nat>, z: set<nat>): set<nat> {
    set k | k in x + y && MergeMember(k in x, k in y, k in z)
  }

  /** The parent with the splices of both lists made, unless they clash. */
  ghost function MergeLists(st: Storage, a: seq<Value>, b: seq<Value>, p: seq<Value>): Outcome<seq<Value>> {
    var x, y, z := ItemsFor(st, a), ItemsFor(st, b), ItemsFor(st, p);
    var dx, dy := L.DiffFrom(st.listTree(p), st.listTree(a)), L.DiffFrom(st.listTree(p), st.listTree(b));
    if L.Within(x, dx) && L.Within(y, dy) && !L.Conflict(x, y, dx, dy) && exists m :: L.IsMerge(z, x, y, dx, dy, m) then
      var m :| L.IsMerge(z, x, y, dx, dy, m);
      Merged(ValuesOf(m))
    else MergeConflict
  }

  /** The merge of two values, from a parent if there is one. */
  ghost function MergeValues(st: Storage, resolve: Resolver, a: Value, b: Value, p: Option<Value>): Outcome<Value>
    decreases a, 3
  {
    match (a, b)
    case (ListValue(x), ListValue(y)) =>
      if p.Some? && !p.value.ListValue? then MergeConflict
      else
        var m := MergeLists(st, x, y, if p.Some? then p.value.items else []);
        if m.MergeConflict? then MergeConflict else Merged(ListValue(m.value))
    case (MapValue(_), MapValue(_)) =>
      if p.Some? && !p.value.MapValue? then MergeConflict
      else
        var z := if p.Some? then p.value.entries else map[];
        if AnyConflict(st, resolve, a, b, z) then MergeConflict else Merged(MapValue(MergedParts(st, resolve, a, b, z)))
    case (RefValue(x), RefValue(y)) =>
      if p.Some? && !p.value.RefValue? then MergeConflict
      else
        var m := MergeValues(st, resolve, x, y, if p.Some? then Some(p.value.target) else None);
        if m.MergeConflict? then MergeConflict else Merged(RefValue(m.value))
    case (SetValue(x), SetValue(y)) =>
      if p.Some? && !p.value.SetValue? then MergeConflict
      else Merged(SetValue(MergedElements(x, y, if p.Some? then p.value.elements else {})))
    case (StructValue(n, _), StructValue(m, _)) =>
      if n != m || (p.Some? && !p.value.StructValue?) then MergeConflict
      else
        var z := if p.Some? then p.value.fields else map[];
        if AnyConflict(st, resolve, a, b, z) then MergeConflict
        // the fields are changed in the parent, whose name stays
        else Merged(StructValue(if p.Some? then p.value.name else n, MergedParts(st, resolve, a, b, z)))
    case _ => MergeConflict
  }

  // ---------- what the definition means ----------

  /** Each key of merged parts is what the merge of that key says. */
  lemma {:induction false} KeyByKey(st: Storage, resolve: Resolver, a: Value, b: Value, z: map<nat, Value>, k: nat)
    requires !AnyConflict(st, resolve, a, b, z)
    ensures MergeKey(st, resolve, a, b, z, k) == Merged(Lookup(MergedParts(st, resolve, a, b, z), k))
  {
  }

  lemma SameLookups(m: map<nat, Value>, m': map<nat, Value>)
    requires forall k :: Lookup(m, k) == Lookup(m', k)
    ensures m == m'
  {
    forall k ensures k in m <==> k in m' {
      assert Lookup(m, k) == Lookup(m', k);
    }
    forall k | k in m ensures m[k] == m'[k] {
      assert Lookup(m, k) == Lookup(m', k);
    }
  }

  lemma ElementsOf(x: set<nat>, y: set<nat>, z: set<nat>)
    ensures MergedElements(x, y, z) == (z * x * y) + (x - z) + (y - z)
    ensures MergedElements(x, y, z) == (z * y * x) + (y - z) + (x - z)
  {
    var m, r := MergedElements(x, y, z), (z * x * y) + (x - z) + (y - z);
    forall k ensures k in m <==> k in r {
      assert k in m <==> k in x + y && MergeMember(k in x, k in y, k in z);
    }
  }

  lemma {:induction false} MergedBy(st: Storage, a: seq<Value>, b: seq<Value>, p: seq<Value>, m: Level<Value>)
    requires var dx, dy := L.DiffFrom(st.listTree(p), st.listTree(a)), L.DiffFrom(st.listTree(p), st.listTree(b));
             var x, y := ItemsFor(st, a), ItemsFor(st, b);
             L.Within(x, dx) && L.Within(y, dy) && !L.Conflict(x, y, dx, dy)
               && L.IsMerge(ItemsFor(st, p), x, y, dx, dy, m)
    ensures MergeLists(st, a, b, p) == Merged(ValuesOf(m))
  {
    var x, y, z := ItemsFor(st, a), ItemsFor(st, b), ItemsFor(st, p);
    var dx, dy := L.DiffFrom(st.listTree(p), st.listTree(a)), L.DiffFrom(st.listTree(p), st.listTree(b));
    hide ItemsFor, L.DiffFrom, L.Conflict, L.Within, L.IsMerge, ValuesOf;
    forall n | L.IsMerge(z, x, y, dx, dy, n) ensures n == m {
      L.MergeUnique(z, x, y, dx, dy, n, m);
    }
  }

  lemma {:induction false} ListsSymmetric(st: Storage, a: seq<Value>, b: seq<Value>, p: seq<Value>)
    ensures MergeLists(st, a, b, p) == MergeLists(st, b, a, p)
  {
    var x, y, z := ItemsFor(st, a), ItemsFor(st, b), ItemsFor(st, p);
    var dx, dy := L.DiffFrom(st.listTree(p), st.listTree(a)), L.DiffFrom(st.listTree(p), st.listTree(b));
    if L.Within(x, dx) && L.Within(y, dy) {
      L.ClashSymmetric(x, y, dx, dy);
      hide L.Conflict, L.Within, L.IsMerge, ItemsFor, L.DiffFrom, ValuesOf;
      if !L.Conflict(x, y, dx, dy) {
        if m :| L.IsMerge(z, x, y, dx, dy, m) {
          L.MergeSymmetric(z, x, y, dx, dy, m);
          MergedBy(st, a, b, p, m);
          MergedBy(st, b, a, p, m);
        } else {
          forall m ensures !L.IsMerge(z, y, x, dy, dx, m) {
            if L.IsMerge(z, y, x, dy, dx, m) {
              L.MergeSymmetric(z, y, x, dy, dx, m);
            }
          }
        }
      }
    }
  }

  /** Swapping the two sides changes nothing, if the resolver sees them swapped too. */
  lemma {:induction false} Symmetric(st: Storage, resolve: Resolver, a: Value, b: Value, p: Option<Value>)
    ensures MergeValues(st, resolve, a, b, p) == MergeValues(st, resolve.Flip(), b, a, p)
    decreases a, 2
  {
    match (a, b) {
      case (ListValue(x), ListValue(y)) =>
        ListsSymmetric(st, x, y, if p.Some? && p.value.ListValue? then p.value.items else []);
      case (MapValue(_), MapValue(_)) =>
        PartsSymmetric(st, resolve, a, b, if p.Some? && p.value.MapValue? then p.value.entries else map[]);
      case (RefValue(x), RefValue(y)) =>
        Symmetric(st, resolve, x, y, if p.Some? && p.value.RefValue? then Some(p.value.target) else None);
      case (SetValue(x), SetValue(y)) =>
        var z := if p.Some? && p.value.SetValue? then p.value.elements else {};
        ElementsOf(x, y, z);
        ElementsOf(y, x, z);
      case (StructValue(_, _), StructValue(_, _)) =>
        PartsSymmetric(st, resolve, a, b, if p.Some? && p.value.StructValue? then p.value.fields else map[]);
      case _ =>
    }
  }

  lemma {:induction false} PartsSymmetric(st: Storage, resolve: Resolver, a: Value, b: Value, z: map<nat, Value>)
    ensures AnyConflict(st, resolve, a, b, z) <==> AnyConflict(st, resolve.Flip(), b, a, z)
    ensures !AnyConflict(st, resolve, a, b, z) ==>
              MergedParts(st, resolve, a, b, z) == MergedParts(st, resolve.Flip(), b, a, z)
    decreases a, 1
  {
    hide MergeKey, AnyConflict, MergedParts;
    forall k ensures MergeKey(st, resolve, a, b, z, k) == MergeKey(st, resolve.Flip(), b, a, z, k) {
      KeySymmetric(st, resolve, a, b, z, k);
    }
    SameKeys(st, resolve, a, b, resolve.Flip(), b, a, z);
  }

  /** Two merges that agree on every key agree. */
  lemma {:induction false} SameKeys(st: Storage, resolve: Resolver, a: Value, b: Value, resolve': Resolver, a': Value,
                                    b': Value, z: map<nat, Value>)
    requires forall k :: MergeKey(st, resolve, a, b, z, k) == MergeKey(st, resolve', a', b', z, k)
    ensures AnyConflict(st, resolve, a, b, z) <==> AnyConflict(st, resolve', a', b', z)
    ensures !AnyConflict(st, resolve, a, b, z) ==>
              MergedParts(st, resolve, a, b, z) == MergedParts(st, resolve', a', b', z)
  {
    hide MergeKey, MergedParts, AnyConflict, Lookup;
    SameConflict(st, resolve, a, b, resolve', a', b', z);
    if !AnyConflict(st, resolve, a, b, z) {
      var m, m' := MergedParts(st, resolve, a, b, z), MergedParts(st, resolve', a', b', z);
      forall k ensures Lookup(m, k) == Lookup(m', k) {
        KeyByKey(st, resolve, a, b, z, k);
        KeyByKey(st, resolve', a', b', z, k);
      }
      SameLookups(m, m');
    }
  }

  lemma {:induction false} SameConflict(st: Storage, resolve: Resolver, a: Value, b: Value, resolve': Resolver,
                                        a': Value, b': Value, z: map<nat, Value>)
    requires forall k :: MergeKey(st, resolve, a, b, z, k) == MergeKey(st, resolve', a', b', z, k)
    ensures AnyConflict(st, resolve, a, b, z) <==> AnyConflict(st, resolve', a', b', z)
  {
    hide MergeKey;
  }

  lemma {:induction false} KeySymmetric(st: Storage, resolve: Resolver, a: Value, b: Value, z: map<nat, Value>, k: nat)
    ensures MergeKey(st, resolve, a, b, z, k) == MergeKey(st, resolve.Flip(), b, a, z, k)
    decreases a, 0
  {
    hide MergeValues;
    if k in Parts(a) && k in Parts(b) {
      var v := if a.MapValue? then a.entries[k] else a.fields[k];
      Symmetric(st, resolve, v, Parts(b)[k], Lookup(z, k));
    }
  }

  // ---------- equal sides, and sides that did not change ----------

  const LIST_LIMIT: nat := TWO_64 / 4

  /** Lists that a merge may come to are short enough for 64-bit positions. */
  ghost predicate Small(v: Value)
    decreases v
  {
    match v
    case ListValue(items) => |items| < LIST_LIMIT
    case MapValue(entries) => forall k :: k in entries ==> Small(entries[k])
    case RefValue(target) => Small(target)
    case StructValue(_, fields) => forall k :: k in fields ==> Small(fields[k])
    case _ => true
  }

  /** The diff of a list leads to the list. */
  ghost predicate Rebuilds(st: Storage, p: seq<Value>, a: seq<Value>) {
    && StoredList(st, p) && StoredList(st, a)
    && L.Rebuilt(st.listTree(p), st.listTree(a)) == ItemsFor(st, a)
  }

  /** All elements are stored as list elements are. */
  ghost predicate Formed(st: Storage, level: Level<Value>) {
    level == ItemsFor(st, ValuesOf(level))
  }

  lemma {:induction false} BuiltFormed(st: Storage, p: Level<Value>, c: Level<Value>, sp: seq<Splice>)
    requires Formed(st, p) && Formed(st, c) && Fit(p, c, sp)
    ensures Formed(st, Built(p, c, sp))
  {
    if sp != [] {
      var init, s := sp[..|sp| - 1], sp[|sp| - 1];
      BuiltFormed(st, p, c, init);
      PartFormed(st, p, End(init), s.at);
      PartFormed(st, c, s.from, s.from + s.added);
      BothFormed(st, Built(p, c, init), p[End(init)..s.at]);
      BothFormed(st, Built(p, c, init) + p[End(init)..s.at], c[s.from..s.from + s.added]);
    }
  }

  lemma PartFormed(st: Storage, level: Level<Value>, i: nat, j: nat)
    requires Formed(st, level) && i <= j <= |level|
    ensures Formed(st, level[i..j])
  {
    forall k | 0 <= k < j - i ensures level[i..j][k] == ItemsFor(st, ValuesOf(level[i..j]))[k] {
      assert level[i + k] == ItemsFor(st, ValuesOf(level))[i + k];
    }
  }

  lemma BothFormed(st: Storage, x: Level<Value>, y: Level<Value>)
    requires Formed(st, x) && Formed(st, y)
    ensures Formed(st, x + y)
  {
    forall k | 0 <= k < |x + y| ensures (x + y)[k] == ItemsFor(st, ValuesOf(x + y))[k] {
      assert k < |x| ==> x[k] == ItemsFor(st, ValuesOf(x))[k];
      assert k >= |x| ==> y[k - |x|] == ItemsFor(st, ValuesOf(y))[k - |x|];
    }
  }

  lemma RebuiltFormed(st: Storage, p: seq<Value>, a: seq<Value>)
    requires StoredList(st, p) && StoredList(st, a)
    ensures Formed(st, L.Rebuilt(st.listTree(p), st.listTree(a)))
  {
    var x, z, d := ItemsFor(st, a), ItemsFor(st, p), L.DiffFrom(st.listTree(p), st.listTree(a));
    O.ListDiffOrderly(st.listTree(p), st.listTree(a), DEFAULT_MAX_SPLICE_MATRIX_SIZE);
    OrderlyFits(z, x, d);
    FitEnd(z, x, d);
    ValuesBack(st, a);
    ValuesBack(st, p);
    hide D.Valid, D.Values, L.DiffFrom;
    BuiltFormed(st, z, x, d);
    PartFormed(st, z, End(d), |z|);
    assert z[End(d)..] == z[End(d)..|z|];
    BothFormed(st, Built(z, x, d), z[End(d)..]);
  }

  /** Merging a list with itself, or with the parent, gives what its diff makes of the parent. */
  lemma ListTrivial(st: Storage, a: seq<Value>, b: seq<Value>, p: seq<Value>)
    requires StoredList(st, p) && StoredList(st, a) && StoredList(st, b) && |p| < SPLICE_UNASSIGNED
             && (b == a || b == p)
    ensures MergeLists(st, a, b, p) == Merged(ValuesOf(L.Rebuilt(st.listTree(p), st.listTree(a))))
    ensures MergeLists(st, a, b, p) == Merged(a) <==> Rebuilds(st, p, a)
  {
    var x, y, z := ItemsFor(st, a), ItemsFor(st, b), ItemsFor(st, p);
    var dx, dy := L.DiffFrom(st.listTree(p), st.listTree(a)), L.DiffFrom(st.listTree(p), st.listTree(b));
    var r := L.Rebuilt(st.listTree(p), st.listTree(a));
    RebuiltFormed(st, p, a);
    ValuesBack(st, a);
    O.ListDiffOrderly(st.listTree(p), st.listTree(a), DEFAULT_MAX_SPLICE_MATRIX_SIZE);
    assert b == p ==> dy == [];
    hide D.Valid, D.Values, L.DiffFrom, Orderly, L.Conflict, L.IsMerge, ValuesOf;
    if b == p {
      L.OneSideOnly(z, x, y, dx);
    } else {
      L.BothSides(z, x, dx);
    }
    MergedBy(st, a, b, p, r);
  }

  lemma Stored(st: Storage, l: seq<Value>)
    requires Works(st) && |l| < LIST_LIMIT
    ensures StoredList(st, l)
  {
  }

  /** What has to hold for a value, merged with itself or with its parent, to come out as it is. */
  ghost predicate Stays(st: Storage, a: Value, p: Option<Value>)
    decreases a
  {
    match a
    case Primitive(_) => false
    case ListValue(items) => (p.Some? ==> p.value.ListValue?)
      && Rebuilds(st, if p.Some? then p.value.items else [], items)
    case MapValue(_) => p.Some? ==> p.value.MapValue?
    case RefValue(target) => (p.Some? ==> p.value.RefValue?)
      && Stays(st, target, if p.Some? then Some(p.value.target) else None)
    case SetValue(_) => p.Some? ==> p.value.SetValue?
    case StructValue(name, _) => p.Some? ==> p.value.StructValue? && p.value.name == name
  }

  lemma {:induction false} PartsStay(st: Storage, resolve: Resolver, a: Value, b: Value, z: map<nat, Value>)
    requires Parts(b) == Parts(a) || Parts(b) == z
    ensures !AnyConflict(st, resolve, a, b, z) && MergedParts(st, resolve, a, b, z) == Parts(a)
  {
    forall k ensures MergeKey(st, resolve, a, b, z, k) == Merged(Lookup(Parts(a), k)) {
    }
    hide MergeKey, Lookup, Parts;
    NoConflict(st, resolve, a, b, z);
    forall k ensures Lookup(MergedParts(st, resolve, a, b, z), k) == Lookup(Parts(a), k) {
      KeyByKey(st, resolve, a, b, z, k);
    }
    SameLookups(MergedParts(st, resolve, a, b, z), Parts(a));
  }

  lemma ConflictAt(st: Storage, resolve: Resolver, a: Value, b: Value, z: map<nat, Value>, k: nat)
    requires MergeKey(st, resolve, a, b, z, k).MergeConflict?
    ensures AnyConflict(st, resolve, a, b, z)
  {
  }

  lemma {:induction false} NoConflict(st: Storage, resolve: Resolver, a: Value, b: Value, z: map<nat, Value>)
    requires forall k :: MergeKey(st, resolve, a, b, z, k).Merged?
    ensures !AnyConflict(st, resolve, a, b, z)
  {
  }

  /**
   Identical candidates merge to themselves exactly when they stay: not for primitives, for lists only if the diff from
   the parent is right, and only if the parent is of the same kind and, for structs, of the same name.
   */
  lemma {:induction false} IdenticalExactly(st: Storage, resolve: Resolver, a: Value, p: Option<Value>)
    requires Works(st) && Small(a) && (p.Some? ==> Small(p.value))
    ensures MergeValues(st, resolve, a, a, p) == Merged(a) <==> Stays(st, a, p)
    decreases a
  {
    hide Works, StoredList, MergeLists, Rebuilds, AnyConflict, MergedParts, MergedElements;
    match a {
      case ListValue(items) =>
        if p.Some? ==> p.value.ListValue? {
          Stored(st, items);
          Stored(st, if p.Some? then p.value.items else []);
          ListTrivial(st, items, items, if p.Some? then p.value.items else []);
        }
      case RefValue(target) =>
        if p.Some? ==> p.value.RefValue? {
          IdenticalExactly(st, resolve, target, if p.Some? then Some(p.value.target) else None);
        }
      case SetValue(x) =>
        var z := if p.Some? && p.value.SetValue? then p.value.elements else {};
        ElementsOf(x, x, z);
        assert (z * x * x) + (x - z) + (x - z) == x;
      case MapValue(_) =>
        PartsStay(st, resolve, a, a, if p.Some? && p.value.MapValue? then p.value.entries else map[]);
      case StructValue(_, _) =>
        PartsStay(st, resolve, a, a, if p.Some? && p.value.StructValue? then p.value.fields else map[]);
      case Primitive(_) =>
    }
  }

  /** A side that did not change gives way to the other under exactly the same condition. */
  lemma {:induction false} UnchangedExactly(st: Storage, resolve: Resolver, a: Value, p: Value)
    requires Works(st) && Small(a) && Small(p)
    ensures MergeValues(st, resolve, a, p, Some(p)) == Merged(a) <==> Stays(st, a, Some(p))
    decreases a
  {
    hide Works, StoredList, MergeLists, Rebuilds, AnyConflict, MergedParts, MergedElements;
    match a {
      case ListValue(items) =>
        if p.ListValue? {
          Stored(st, items);
          Stored(st, p.items);
          ListTrivial(st, items, p.items, p.items);
        }
      case RefValue(target) =>
        if p.RefValue? {
          UnchangedExactly(st, resolve, target, p.target);
        }
      case SetValue(x) =>
        if p.SetValue? {
          ElementsOf(x, p.elements, p.elements);
          assert (p.elements * x * p.elements) + (x - p.elements) + (p.elements - p.elements) == x;
        }
      case MapValue(_) =>
        if p.MapValue? {
          PartsStay(st, resolve, a, p, p.entries);
        }
      case StructValue(_, _) =>
        if p.StructValue? {
          PartsStay(st, resolve, a, p, p.fields);
        }
      case Primitive(_) =>
    }
  }

  // ---------- lists of one chunk ----------

  lemma {:induction false} LeafDiff(last: Level<Value>, current: Level<Value>, limit: nat, splices: seq<Splice>, k: nat)
    requires k <= |splices| && forall i :: 0 <= i < |splices| ==> D.Within(last, current, splices[i])
    ensures D.DiffedUpTo(last, 0, 0, current, 0, limit, splices, k) == splices[..k]
  {
    if k > 0 {
      LeafDiff(last, current, limit, splices, k - 1);
      assert D.LeafSent(0, 0, splices[k - 1]) == splices[k - 1];
      assert splices[..k] == splices[..k - 1] + [splices[k - 1]];
    } else {
      assert splices[..0] == [];
    }
  }

  /** Where one of the two has no elements, or they are the same, the diff is right and within every limit. */
  lemma NoMatrix(x: Level<Value>, z: Level<Value>)
    requires x == [] || z == [] || x == z
    ensures Exact(z, x, DEFAULT_MAX_SPLICE_MATRIX_SIZE)
  {
    if x == z {
      SharedTrims(z, x);
      SameThroughout(z, 0);
    }
  }

  lemma {:induction false} SameThroughout(z: Level<Value>, n: nat)
    requires n <= |z|
    ensures PrefixLength(z, z, n) == |z|
    decreases |z| - n
  {
    if n < |z| {
      SameThroughout(z, n + 1);
    }
  }

  /** The diff of lists of one chunk each is that of their items. */
  lemma FlatDiff(last: D.List<Value>, l: D.List<Value>, limit: nat)
    requires last.height == 0 && l.height == 0 && |l.root| < SPLICE_UNASSIGNED
    ensures D.Diffed(last.root, 0, 0, l.root, 0, 0, limit) == SpliceList(last.root, l.root, limit)
  {
    hide SpliceList, D.DiffedUpTo, Fit, Patched, Exact;
    var splices := SpliceList(last.root, l.root, limit);
    ExactlyWhen(last.root, l.root, limit);
    D.FitEach(last.root, l.root, splices);
    LeafDiff(last.root, l.root, limit, splices, |splices|);
    assert splices[..|splices|] == splices;
  }

  /** What the diff of two lists of one chunk each makes of the first. */
  lemma FlatPatched(last: D.List<Value>, l: D.List<Value>)
    requires last.height == 0 && l.height == 0 && D.Valid(last) && D.Valid(l) && D.Values(last) == last.root
             && D.Values(l) == l.root
    ensures L.Rebuilt(last, l) == l.root <==> Exact(last.root, l.root, DEFAULT_MAX_SPLICE_MATRIX_SIZE)
  {
    var z, x, d := last.root, l.root, L.DiffFrom(last, l);
    O.ListDiffOrderly(last, l, DEFAULT_MAX_SPLICE_MATRIX_SIZE);
    OrderlyFits(z, x, d);
    hide D.Valid, D.Values, D.Diffed, Exact;
    if l == last {
      NoMatrix(x, z);
      assert z[0..] == z;
    } else if x == [] || z == [] {
      NoMatrix(x, z);
      OneSplice(z, x, Splice(0, |z|, |x|, 0));
    } else {
      FlatDiff(last, l, DEFAULT_MAX_SPLICE_MATRIX_SIZE);
      ExactlyWhen(z, x, DEFAULT_MAX_SPLICE_MATRIX_SIZE);
    }
  }

  /**
   For lists that are one chunk each, the diff is right exactly within the splice limit or without a shared prefix.
   */
  lemma {:induction false} OneChunkExactly(st: Storage, p: seq<Value>, a: seq<Value>)
    requires StoredList(st, p) && StoredList(st, a) && st.listTree(p).height == 0 && st.listTree(a).height == 0
    ensures Rebuilds(st, p, a) <==> Exact(ItemsFor(st, p), ItemsFor(st, a), DEFAULT_MAX_SPLICE_MATRIX_SIZE)
  {
    var last, l := st.listTree(p), st.listTree(a);
    ValuesFlatten(last.root, |last.root|);
    ValuesFlatten(l.root, |l.root|);
    assert D.Values(last) == last.root && D.Values(l) == l.root;
    hide D.Values, Exact, L.Rebuilt;
    FlatPatched(last, l);
  }

  /** Zero and then five thousand numbers, of either sign. */
  function Numbers(sign: int): seq<Value> {
    [Primitive(0)] + seq(5000, i requires 0 <= i < 5000 => Primitive(sign * (i + 1)))
  }

  lemma PastLimit(z: Level<Value>, x: Level<Value>)
    requires |z| == |x| == 5001 && z[0] == x[0] && z[1] != x[1] && z[5000] != x[5000]
    ensures !Exact(z, x, DEFAULT_MAX_SPLICE_MATRIX_SIZE)
  {
    assert PrefixLength(z, x, 0) == PrefixLength(z, x, 1) == 1 && SuffixLength(z, x, 1, 0) == 0;
    assert Shared(z, x) == (1, 0) && TooLarge(5000, 5000, DEFAULT_MAX_SPLICE_MATRIX_SIZE);
  }

  lemma NumbersDiffer(st: Storage)
    ensures var z, x := ItemsFor(st, Numbers(1)), ItemsFor(st, Numbers(-1));
            |z| == |x| == |Numbers(1)| == |Numbers(-1)| == 5001 && z[0] == x[0] && z[1] != x[1] && z[5000] != x[5000]
  {
    var p, a := Numbers(1), Numbers(-1);
    assert p[1] == Primitive(1) && a[1] == Primitive(-1) && p[5000] == Primitive(5000) && a[5000] == Primitive(-5000);
    var z, x := ItemsFor(st, p), ItemsFor(st, a);
    assert z[1].value.value == p[1] && x[1].value.value == a[1] && z[5000].value.value == p[5000]
           && x[5000].value.value == a[5000];
  }

  /**
   A list that is longer than the splice limit allows, and shares its first element with the parent, does not stay.
   */
  lemma IdenticalListExample()
    ensures var a, p := ListValue(Numbers(-1)), ListValue(Numbers(1));
            Works(OneChunk()) && MergeValues(OneChunk(), Unresolved, a, a, Some(p)) != Merged(a)
  {
    var st, a, p := OneChunk(), Numbers(-1), Numbers(1);
    assert st.listTree(a).height == 0 && st.listTree(p).height == 0;
    NumbersDiffer(st);
    OneChunkWorks();
    hide OneChunk, Works, ItemsFor, Rebuilds, Exact, StoredList, MergeValues, Numbers;
    Stored(st, a);
    Stored(st, p);
    PastLimit(ItemsFor(st, p), ItemsFor(st, a));
    OneChunkExactly(st, p, a);
    IdenticalExactly(st, Unresolved, ListValue(a), Some(ListValue(p)));
  }

  /** Two equal primitives are not merged, although they are what a merge of equal values would be expected to keep. */
  lemma IdenticalExample(st: Storage)
    ensures MergeValues(st, Unresolved, Primitive(1), Primitive(1), Some(Primitive(0))) == MergeConflict
  {
  }

  /** Sets never conflict: what either side added is there, what either removed is not, and nothing else changes. */
  lemma SetsNeverConflict(st: Storage, resolve: Resolver, x: set<nat>, y: set<nat>, p: Option<Value>)
    requires p.Some? ==> p.value.SetValue?
    ensures var z := if p.Some? then p.value.elements else {};
            MergeValues(st, resolve, SetValue(x), SetValue(y), p) == Merged(SetValue((z * x * y) + (x - z) + (y - z)))
  {
    ElementsOf(x, y, if p.Some? then p.value.elements else {});
  }
}
