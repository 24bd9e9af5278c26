/** What a merge comes to for each kind of value, told from what the two sides and the parent hold. */
module MergeMeaning {
  import opened Options
  import opened Splices
  import opened OrderedDiff
  import opened MergeSpec
  import E = EditDistance
  import L = ListMerge
  import O = OrderlyDiff

  /** The kinds of values that are told apart; all primitive kinds are one. */
  function KindOf(v: Value): nat {
    match v
    case Primitive(_) => 0
    case ListValue(_) => 1
    case MapValue(_) => 2
    case RefValue(_) => 3
    case SetValue(_) => 4
    case StructValue(_, _) => 5
  }

  /** Two values are merged in turn exactly if they are of one kind, and not a primitive one. */
  lemma MergeableExactly(x: Value, y: Value)
    ensures !Unmergeable(x, y) <==> KindOf(x) == KindOf(y) > 0
  {
  }

  /** Values of different kinds, of a kind other than the parent's, or primitive ones always conflict. */
  lemma KindsConflict(st: Storage, resolve: Resolver, a: Value, b: Value, p: Option<Value>)
    requires KindOf(a) != KindOf(b) || KindOf(a) == 0 || (p.Some? && KindOf(p.value) != KindOf(a))
    ensures MergeValues(st, resolve, a, b, p) == MergeConflict
  {
  }

  // ---------- keys ----------

  /** How one side changed a key: it added, removed or modified it. */
  function ChangeOf(p: Option<Value>, x: Option<Value>): ChangeType {
    if p.None? then Added else if x.None? then Removed else Modified
  }

  /** Both sides changed a key, and not in the same way. */
  predicate Disagree(x: Option<Value>, y: Option<Value>, p: Option<Value>) {
    x != p && y != p && x != y
  }

  /** Two values of a key that are merged in turn. */
  predicate Nested(x: Option<Value>, y: Option<Value>) {
    x.Some? && y.Some? && KindOf(x.value) == KindOf(y.value) > 0
  }

  /**
   Nothing can become of a key: the sides disagree, and their values conflict in turn or cannot be merged and are not
   resolved.
   */
  ghost predicate Torn(st: Storage, resolve: Resolver, x: Option<Value>, y: Option<Value>, p: Option<Value>) {
    && Disagree(x, y, p)
    && if Nested(x, y) then MergeValues(st, resolve, x.value, y.value, p) == MergeConflict
       else
         match resolve
         case Unresolved => true
         case Ours => false
         case Theirs => false
         case Other(choose) => choose(ChangeOf(p, x), ChangeOf(p, y), x, y) == None
  }

  /** `r` becomes of a key: what the side made of it that changed it, or what they agree on, merge or resolve to. */
  ghost predicate Becomes(st: Storage, resolve: Resolver, x: Option<Value>, y: Option<Value>, p: Option<Value>,
                          r: Option<Value>) {
    && (x == p ==> r == y)
    && (y == p ==> r == x)
    && (x == y ==> r == x)
    && (Disagree(x, y, p) ==>
          if Nested(x, y) then r.Some? && MergeValues(st, resolve, x.value, y.value, p) == Merged(r.value)
          else
            match resolve
            case Unresolved => false
            case Ours => r == x
            case Theirs => r == y
            case Other(choose) => choose(ChangeOf(p, x), ChangeOf(p, y), x, y) == Some(r))
  }

  lemma KeyMeaning(st: Storage, resolve: Resolver, a: Value, b: Value, z: map<nat, Value>, k: nat)
    ensures var x, y, p := Lookup(Parts(a), k), Lookup(Parts(b), k), Lookup(z, k);
            var m := MergeKey(st, resolve, a, b, z, k);
            && (m == MergeConflict <==> Torn(st, resolve, x, y, p))
            && (forall r :: m == Merged(r) <==> Becomes(st, resolve, x, y, p, r))
  {
    hide MergeValues;
  }

  /** Some key is torn. */
  ghost predicate AnyTorn(st: Storage, resolve: Resolver, x: map<nat, Value>, y: map<nat, Value>, z: map<nat, Value>) {
    exists k: nat :: Torn(st, resolve, Lookup(x, k), Lookup(y, k), Lookup(z, k))
  }

  /** Every key of `m` is what becomes of it, and there are no others. */
  ghost predicate AllBecome(st: Storage, resolve: Resolver, x: map<nat, Value>, y: map<nat, Value>, z: map<nat, Value>,
                            m: map<nat, Value>) {
    forall k: nat :: Becomes(st, resolve, Lookup(x, k), Lookup(y, k), Lookup(z, k), Lookup(m, k))
  }

  lemma {:induction false} PartsMeaning(st: Storage, resolve: Resolver, a: Value, b: Value, z: map<nat, Value>)
    ensures AnyConflict(st, resolve, a, b, z) <==> AnyTorn(st, resolve, Parts(a), Parts(b), z)
    ensures !AnyConflict(st, resolve, a, b, z) ==>
              AllBecome(st, resolve, Parts(a), Parts(b), z, MergedParts(st, resolve, a, b, z))
  {
    hide AnyConflict, MergeKey, Torn, Becomes, MergedParts, Parts, Lookup;
    if k: nat :| Torn(st, resolve, Lookup(Parts(a), k), Lookup(Parts(b), k), Lookup(z, k)) {
      KeyMeaning(st, resolve, a, b, z, k);
      ConflictAt(st, resolve, a, b, z, k);
    } else {
      forall k: nat ensures MergeKey(st, resolve, a, b, z, k).Merged? {
        KeyMeaning(st, resolve, a, b, z, k);
      }
      NoConflict(st, resolve, a, b, z);
      forall k: nat
        ensures Becomes(st, resolve, Lookup(Parts(a), k), Lookup(Parts(b), k), Lookup(z, k),
                        Lookup(MergedParts(st, resolve, a, b, z), k)) {
        KeyByKey(st, resolve, a, b, z, k);
        KeyMeaning(st, resolve, a, b, z, k);
      }
    }
  }

  /** At most one map is what becomes of all keys. */
  lemma BecomeOne(st: Storage, resolve: Resolver, x: map<nat, Value>, y: map<nat, Value>, z: map<nat, Value>,
                  m: map<nat, Value>, m': map<nat, Value>)
    requires AllBecome(st, resolve, x, y, z, m) && AllBecome(st, resolve, x, y, z, m')
    ensures m == m'
  {
    forall k: nat ensures Lookup(m, k) == Lookup(m', k) {
      assert Becomes(st, resolve, Lookup(x, k), Lookup(y, k), Lookup(z, k), Lookup(m, k));
      assert Becomes(st, resolve, Lookup(x, k), Lookup(y, k), Lookup(z, k), Lookup(m', k));
    }
    SameLookups(m, m');
  }

  // ---------- each kind ----------

  /** Maps conflict exactly if a key is torn, and otherwise merge exactly to what becomes of all keys. */
  lemma {:induction false} MapsMergeExactly(st: Storage, resolve: Resolver, x: map<nat, Value>, y: map<nat, Value>,
                                            z: map<nat, Value>, p: Option<Value>)
    requires p == Some(MapValue(z)) || (p == None && z == map[])
    ensures var r := MergeValues(st, resolve, MapValue(x), MapValue(y), p);
            && (r == MergeConflict <==> AnyTorn(st, resolve, x, y, z))
            && forall m :: r == Merged(MapValue(m)) <==>
                   !AnyTorn(st, resolve, x, y, z) && AllBecome(st, resolve, x, y, z, m)
  {
    var a, b := MapValue(x), MapValue(y);
    PartsMeaning(st, resolve, a, b, z);
    hide AnyConflict, MergedParts, AnyTorn, AllBecome;
    if !AnyConflict(st, resolve, a, b, z) {
      forall m | AllBecome(st, resolve, x, y, z, m) ensures m == MergedParts(st, resolve, a, b, z) {
        BecomeOne(st, resolve, x, y, z, m, MergedParts(st, resolve, a, b, z));
      }
    }
  }

  /** So do structs of one name, field by field, and the parent's name stays. */
  lemma {:induction false} StructsMergeExactly(st: Storage, resolve: Resolver, n: nat, x: map<nat, Value>,
                                               y: map<nat, Value>, q: nat, z: map<nat, Value>, p: Option<Value>)
    requires p == Some(StructValue(q, z)) || (p == None && q == n && z == map[])
    ensures var r := MergeValues(st, resolve, StructValue(n, x), StructValue(n, y), p);
            && (r == MergeConflict <==> AnyTorn(st, resolve, x, y, z))
            && forall m :: r == Merged(StructValue(q, m)) <==>
                           !AnyTorn(st, resolve, x, y, z) && AllBecome(st, resolve, x, y, z, m)
  {
    var a, b := StructValue(n, x), StructValue(n, y);
    PartsMeaning(st, resolve, a, b, z);
    hide AnyConflict, MergedParts, AnyTorn, AllBecome;
    if !AnyConflict(st, resolve, a, b, z) {
      forall m | AllBecome(st, resolve, x, y, z, m) ensures m == MergedParts(st, resolve, a, b, z) {
        BecomeOne(st, resolve, x, y, z, m, MergedParts(st, resolve, a, b, z));
      }
    }
  }

  /** Structs of different names conflict. */
  lemma NamesConflict(st: Storage, resolve: Resolver, n: nat, x: map<nat, Value>, n': nat, y: map<nat, Value>,
                      p: Option<Value>)
    requires n != n'
    ensures MergeValues(st, resolve, StructValue(n, x), StructValue(n', y), p) == MergeConflict
  {
  }

  /** References merge to a reference to what their targets merge to. */
  lemma RefsMergeExactly(st: Storage, resolve: Resolver, x: Value, y: Value, t: Option<Value>, p: Option<Value>)
    requires p == if t.Some? then Some(RefValue(t.value)) else None
    ensures var r := MergeValues(st, resolve, RefValue(x), RefValue(y), p);
            && (r == MergeConflict <==> MergeValues(st, resolve, x, y, t) == MergeConflict)
            && forall v :: r == Merged(RefValue(v)) <==> MergeValues(st, resolve, x, y, t) == Merged(v)
  {
  }

  /** Lists conflict exactly if two of their splices clash, and otherwise merge to the parent with all of them made. */
  lemma {:induction false} ListsMergeExactly(st: Storage, resolve: Resolver, a: seq<Value>, b: seq<Value>,
                                             z: seq<Value>,
                                             p: Option<Value>)
    requires Works(st) && |a| < LIST_LIMIT && |b| < LIST_LIMIT && |z| < LIST_LIMIT
    requires p == Some(ListValue(z)) || (p == None && z == [])
    ensures var r := MergeValues(st, resolve, ListValue(a), ListValue(b), p);
            var dx, dy := L.DiffFrom(st.listTree(z), st.listTree(a)), L.DiffFrom(st.listTree(z), st.listTree(b));
            var x, y := ItemsFor(st, a), ItemsFor(st, b);
            && L.Within(x, dx) && L.Within(y, dy)
            && (r == MergeConflict <==> L.Conflict(x, y, dx, dy))
            && (r != MergeConflict ==>
                  exists m :: L.IsMerge(ItemsFor(st, z), x, y, dx, dy, m) && r == Merged(ListValue(ValuesOf(m))))
  {
    hide *;
    var x, y, dx, dy := ItemsFor(st, a), ItemsFor(st, b), L.DiffFrom(st.listTree(z), st.listTree(a)),
      L.DiffFrom(st.listTree(z), st.listTree(b));
    ListDiffs(st, a, b, z);
    var m := L.MergeExists(ItemsFor(st, z), x, y, dx, dy);
    ListCase(st, resolve, a, b, z, p);
    if L.Conflict(x, y, dx, dy) {
      ListsClash(st, a, b, z);
    } else {
      MergedBy(st, a, b, z, m);
    }
  }

  lemma ListDiffs(st: Storage, a: seq<Value>, b: seq<Value>, z: seq<Value>)
    requires Works(st) && |a| < LIST_LIMIT && |b| < LIST_LIMIT && |z| < LIST_LIMIT
    ensures var dx, dy := L.DiffFrom(st.listTree(z), st.listTree(a)), L.DiffFrom(st.listTree(z), st.listTree(b));
            var x, y, w := ItemsFor(st, a), ItemsFor(st, b), ItemsFor(st, z);
            && Orderly(|w|, |x|, dx) && Orderly(|w|, |y|, dy) && |w| + |x| + |y| < E.SPLICE_UNASSIGNED
  {
    Stored(st, a);
    Stored(st, b);
    Stored(st, z);
    O.ListDiffOrderly(st.listTree(z), st.listTree(a), E.DEFAULT_MAX_SPLICE_MATRIX_SIZE);
    O.ListDiffOrderly(st.listTree(z), st.listTree(b), E.DEFAULT_MAX_SPLICE_MATRIX_SIZE);
    hide Works, Orderly;
  }

  lemma ListCase(st: Storage, resolve: Resolver, a: seq<Value>, b: seq<Value>, z: seq<Value>, p: Option<Value>)
    requires p == Some(ListValue(z)) || (p == None && z == [])
    ensures var m := MergeLists(st, a, b, z);
            MergeValues(st, resolve, ListValue(a), ListValue(b), p) ==
            if m == MergeConflict then MergeConflict else Merged(ListValue(m.value))
  {
    hide MergeLists;
  }

  lemma ListsClash(st: Storage, a: seq<Value>, b: seq<Value>, z: seq<Value>)
    requires var dx, dy := L.DiffFrom(st.listTree(z), st.listTree(a)), L.DiffFrom(st.listTree(z), st.listTree(b));
             var x, y := ItemsFor(st, a), ItemsFor(st, b);
             L.Within(x, dx) && L.Within(y, dy) && L.Conflict(x, y, dx, dy)
    ensures MergeLists(st, a, b, z) == MergeConflict
  {
    hide L.Conflict, L.Within, L.IsMerge, ItemsFor, L.DiffFrom;
  }

  /** One key changed differently on both sides: a conflict, unless it is resolved for one of them. */
  lemma ClashExample(st: Storage)
    ensures var a, b, p := MapValue(map[1 := Primitive(1)]), MapValue(map[1 := Primitive(2)]),
            MapValue(map[1 := Primitive(0)]);
            && MergeValues(st, Unresolved, a, b, Some(p)) == MergeConflict
            && MergeValues(st, Ours, a, b, Some(p)) == Merged(a)
            && MergeValues(st, Theirs, a, b, Some(p)) == Merged(b)
  {
    hide MergeValues;
    var x, y, z := map[1 := Primitive(1)], map[1 := Primitive(2)], map[1 := Primitive(0)];
    assert Torn(st, Unresolved, Lookup(x, 1), Lookup(y, 1), Lookup(z, 1));
    assert AllBecome(st, Ours, x, y, z, x) && !AnyTorn(st, Ours, x, y, z);
    assert AllBecome(st, Theirs, x, y, z, y) && !AnyTorn(st, Theirs, x, y, z);
    hide Torn, AllBecome, AnyTorn;
    TornAt(st, Unresolved, x, y, z, 1);
    MapsMergeExactly(st, Unresolved, x, y, z, Some(MapValue(z)));
    MapsMergeExactly(st, Ours, x, y, z, Some(MapValue(z)));
    MapsMergeExactly(st, Theirs, x, y, z, Some(MapValue(z)));
  }

  lemma TornAt(st: Storage, resolve: Resolver, x: map<nat, Value>, y: map<nat, Value>, z: map<nat, Value>, k: nat)
    requires Torn(st, resolve, Lookup(x, k), Lookup(y, k), Lookup(z, k))
    ensures AnyTorn(st, resolve, x, y, z)
  {
    hide Torn;
  }
}
