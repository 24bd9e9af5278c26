/** Editing a whole tree: every level is re-chunked around the edit, and what it does to its level is the edit above. */
module TreeSplice {
  import opened Chunking
  import opened LevelCursors
  import opened Chunker
  import opened ProllyTree

  /** An edit of one level: after `p` items, skip `d` and append `added`. */
  datatype Edit<V> = Edit(p: nat, d: nat, added: Level<V>)
  {
    ghost predicate Fits(f: Level<V>) {
      p + d <= |f|
    }

    ghost function Of(f: Level<V>): Level<V>
      requires Fits(f)
    {
      f[..p] + added + f[p + d..]
    }
  }

  /** The chunk that holds position `p` of a level, and the index in it. */
  method Locate<X>(chunks: seq<seq<X>>, p: nat) returns (c: nat, i: nat)
    requires chunks != [] && p <= |Flatten(chunks)|
    ensures c < |chunks| && Start(chunks, c) + i == p
    ensures i < |chunks[c]| || (c == |chunks| - 1 && i == |chunks[c]|)
  {
    c := 0;
    var cum := 0;
    while c < |chunks| - 1 && p >= cum + |chunks[c]|
      invariant c < |chunks| && cum == Start(chunks, c) <= p
    {
      cum := cum + |chunks[c]|;
      c := c + 1;
    }
    StartEnd(chunks);
    i := p - cum;
  }

  /**
   What a level's chunker leaves: the old chunks before `c` stay, `skips` of them go, `emitted` and `pending` come.
   */
  datatype Outcome<V> = Outcome(prior: seq<Level<V>>, c: nat, skips: nat, emitted: seq<Level<V>>, pending: Level<V>)

  ghost predicate IsOutcome<V>(cfg: Config, full: Level<V>, o: Outcome<V>) {
    && o.c + o.skips <= |o.prior|
    && Rechunked(cfg, full, o.prior[..o.c] + o.emitted, o.pending, o.prior[o.c + o.skips..])
  }

  /** Re-chunks an existing level around an edit. */
  method EditLevel<V>(cfg: Config, prior: seq<Level<V>>, ghost f: Level<V>, e: Edit<V>) returns (o: Outcome<V>)
    requires 0 < cfg.window && Canonical(cfg, prior, f) && e.Fits(f)
    ensures IsOutcome(cfg, e.Of(f), o) && o.prior == prior && o.skips > 0
  {
    hide Scratch, Window, ChunkList, Flatten, Canonical, Rechunked;
    Shape(cfg, prior, f);
    var c, i := Locate(prior, e.p);
    var cur := new LevelCursor(prior, c, i);
    var ch := new LevelChunker.At(cur, cfg);
    Drive(ch, e);
    o := Outcome(prior, c, ch.parentSkips, ch.emitted, ch.current);
  }

  /** Carries out an edit with a chunker that has resumed at its position. */
  method Drive<V>(ch: LevelChunker<Node<V>>, e: Edit<V>)
    requires ch.cur != null && ch.Valid() && ch.InStep() && !ch.done
    requires ch.cur.pos == e.p && e.Fits(ch.cur.items) && ch.fed == ch.cur.items[..e.p]
    modifies ch`rv, ch`current, ch`emitted, ch`fed, ch`parentSkips, ch`done, ch.cur
    ensures ch.parentSkips > 0 && |ch.kept| + ch.parentSkips <= |ch.cur.chunks|
    ensures Rechunked(ch.cfg, e.Of(ch.cur.items), ch.kept + ch.emitted, ch.current,
                      ch.cur.chunks[|ch.kept| + ch.parentSkips..])
  {
    hide Scratch, Window, Canonical, ChunkList, Flatten, Rechunked;
    SkipAll(ch, e.d);
    AppendAll(ch, e.added);
    assert ch.fed + ch.cur.items[ch.cur.pos..] == e.Of(ch.cur.items);
    ch.Done();
  }

  method SkipAll<V>(ch: LevelChunker<Node<V>>, d: nat)
    requires ch.cur != null && ch.Valid() && ch.InStep() && ch.cur.pos + d <= |ch.cur.items|
    modifies ch`parentSkips, ch.cur
    ensures ch.Valid() && ch.InStep() && ch.cur.pos == old(ch.cur.pos) + d
  {
    for k := 0 to d
      invariant ch.Valid() && ch.InStep() && ch.cur.pos == old(ch.cur.pos) + k
    {
      ch.Skip();
    }
  }

  method AppendAll<V>(ch: LevelChunker<Node<V>>, items: Level<V>)
    requires ch.Valid()
    modifies ch`rv, ch`current, ch`emitted, ch`fed
    ensures ch.Valid() && ch.fed == old(ch.fed) + items
  {
    for k := 0 to |items|
      invariant ch.Valid() && ch.fed == old(ch.fed) + items[..k]
    {
      ch.Append(items[k]);
      assert items[..k + 1] == items[..k] + [items[k]];
    }
    assert items[..|items|] == items;
  }

  /** Chunks a level that did not exist before. */
  method NewLevel<V>(cfg: Config, items: Level<V>) returns (o: Outcome<V>)
    requires 0 < cfg.window
    ensures IsOutcome(cfg, items, o) && o.prior == []
  {
    var ch := new LevelChunker<Node<V>>.Empty(cfg);
    AppendAll(ch, items);
    assert [] + items == items;
    ch.Done();
    o := Outcome([], 0, 0, ch.emitted, ch.current);
    assert [] + ch.emitted == ch.emitted;
  }

  // ---------- from one level to the next ----------

  function EditAbove<V>(tc: TreeConfig<V>, o: Outcome<V>): Edit<V> {
    Edit(o.c, o.skips, Tuples(tc, Run(o.emitted, o.pending).All()))
  }

  /** What a level's chunker tells its parent is exactly the edit that turns the old level above into the new one. */
  lemma NextLevel<V>(tc: TreeConfig<V>, full: Level<V>, o: Outcome<V>)
    requires IsOutcome(tc.cfg, full, o)
    ensures EditAbove(tc, o).Fits(Tuples(tc, o.prior))
    ensures EditAbove(tc, o).Of(Tuples(tc, o.prior)) == Tuples(tc, ChunkList(tc.cfg, full))
  {
    var x, y, z := o.prior[..o.c], Run(o.emitted, o.pending).All(), o.prior[o.c + o.skips..];
    RunAll(x, Run(o.emitted, o.pending));
    TuplesConcat(tc, x + y, z);
    TuplesConcat(tc, x, y);
    TuplesSlices(tc, o.prior, o.c, o.c + o.skips);
  }

  lemma TuplesSlices<V>(tc: TreeConfig<V>, chunks: seq<Level<V>>, a: nat, b: nat)
    requires a <= |chunks| && b <= |chunks|
    ensures Tuples(tc, chunks[..a]) == Tuples(tc, chunks)[..a]
    ensures Tuples(tc, chunks[b..]) == Tuples(tc, chunks)[b..]
  {
  }

  /** Nothing was closed: the whole level is pending and is one chunk. */
  lemma AllPending<V>(cfg: Config, full: Level<V>, o: Outcome<V>)
    requires IsOutcome(cfg, full, o) && o.c == 0 && o.emitted == []
    ensures o.pending == full && |ChunkList(cfg, full)| <= 1
  {
    ChunkListPartitions(cfg, full);
    assert o.prior[..o.c] + o.emitted == [];
    assert ChunkList(cfg, full) == Run([], o.pending).All();
    FlattenOne(o.pending);
  }

  /** Something was closed: the level has an explicit boundary and the level above it has items. */
  lemma SomeClosed<V>(cfg: Config, full: Level<V>, o: Outcome<V>)
    requires IsOutcome(cfg, full, o) && (o.c > 0 || o.emitted != [])
    ensures Scratch(cfg, full, |full|).chunks != [] && ChunkList(cfg, full) != []
  {
    assert o.prior[..o.c] + o.emitted != [];
  }

  // ---------- what is pending above ----------

  /** The tuples that a chunker which has been fed `fed` has handed to its parent. */
  ghost function HandedUp<V>(tc: TreeConfig<V>, fed: Level<V>): Level<V> {
    Tuples(tc, Scratch(tc.cfg, fed, |fed|).chunks)
  }

  /** A chunker fed `fed`, or one of the `n` above it, has items that are not in a chunk yet. */
  ghost predicate AnyPending<V>(tc: TreeConfig<V>, fed: Level<V>, n: nat)
    decreases n
  {
    Scratch(tc.cfg, fed, |fed|).pending != [] || (n > 0 && AnyPending(tc, HandedUp(tc, fed), n - 1))
  }

  /** At most `n` of the chunkers from here up have handed anything to their parents. */
  ghost predicate Tower<V>(tc: TreeConfig<V>, fed: Level<V>, n: nat)
    decreases n
  {
    Scratch(tc.cfg, fed, |fed|).chunks == [] || (n > 0 && Tower(tc, HandedUp(tc, fed), n - 1))
  }

  /** Something is pending from some level up exactly when that level has been fed anything at all. */
  lemma {:induction false} AnyPendingExactly<V>(tc: TreeConfig<V>, fed: Level<V>, n: nat)
    requires Tower(tc, fed, n)
    ensures AnyPending(tc, fed, n) <==> fed != []
    decreases n
  {
    ScratchSize(tc.cfg, fed, |fed|);
    if n > 0 && Scratch(tc.cfg, fed, |fed|).chunks != [] {
      AnyPendingExactly(tc, HandedUp(tc, fed), n - 1);
    } else if n > 0 && fed == [] {
      NothingPending(tc, n - 1);
    }
  }

  lemma {:induction false} NothingPending<V>(tc: TreeConfig<V>, n: nat)
    ensures !AnyPending(tc, [], n)
  {
    if n > 0 {
      NothingPending(tc, n - 1);
    }
  }

  /**
   Once a level has ended, some chunker above it has something pending exactly when the level has kept or closed a
   chunk, which is what climbing on depends on.
   */
  lemma ClimbsExactly<V>(tc: TreeConfig<V>, full: Level<V>, o: Outcome<V>, n: nat)
    requires IsOutcome(tc.cfg, full, o) && Tower(tc, Tuples(tc, o.prior[..o.c] + o.emitted), n)
    ensures AnyPending(tc, Tuples(tc, o.prior[..o.c] + o.emitted), n) <==> o.c > 0 || o.emitted != []
  {
    AnyPendingExactly(tc, Tuples(tc, o.prior[..o.c] + o.emitted), n);
  }

  // ---------- whole trees ----------

  /** A stored tree: the chunks of each level, up to the level that is one chunk.  No levels: no tree yet. */
  ghost predicate Stores<V>(tc: TreeConfig<V>, levels: seq<seq<Level<V>>>, f: Level<V>) {
    && (if levels == [] then f == [] else |levels[|levels| - 1]| == 1)
    && (forall k :: 0 <= k < |levels| ==> Canonical(tc.cfg, levels[k], LevelAt(tc, f, k)))
    && (forall k :: 0 <= k < |levels| - 1 ==> |levels[k]| > 1)
  }

  /** The items of an old level; there are none above the root. */
  ghost function OldLevel<V>(tc: TreeConfig<V>, levels: seq<seq<Level<V>>>, f: Level<V>, k: nat): Level<V> {
    if k < |levels| then LevelAt(tc, f, k) else []
  }

  lemma OldLevelAbove<V>(tc: TreeConfig<V>, levels: seq<seq<Level<V>>>, f: Level<V>, k: nat)
    requires Stores(tc, levels, f) && k + 1 < |levels|
    ensures OldLevel(tc, levels, f, k + 1) == Tuples(tc, levels[k])
  {
    assert Canonical(tc.cfg, levels[k], LevelAt(tc, f, k)) && |levels[k]| > 1;
    assert levels[k] == ChunkList(tc.cfg, LevelAt(tc, f, k));
  }

  /** The outcome is of the old level `k`, at least one chunk of which is always skipped, or of a new level. */
  ghost predicate OfLevel<V>(levels: seq<seq<Level<V>>>, k: nat, o: Outcome<V>) {
    if k < |levels| then o.prior == levels[k] && o.skips > 0 else o.prior == []
  }

  ghost predicate Turns<V>(e: Edit<V>, f: Level<V>, full: Level<V>) {
    e.Fits(f) && e.Of(f) == full
  }

  lemma NothingLeft<V>(e: Edit<V>, t: Level<V>)
    requires e.Fits(t) && e.p == 0 && e.d == |t|
    ensures e.Of(t) == e.added == Edit(0, 0, e.added).Of([])
  {
  }

  /** The edit of the next level; above the old root there is nothing to resume or skip. */
  method Above<V>(tc: TreeConfig<V>, levels: seq<seq<Level<V>>>, ghost f: Level<V>, k: nat, o: Outcome<V>,
                  ghost full: Level<V>)
    returns (e: Edit<V>)
    requires Stores(tc, levels, f)
    requires IsOutcome(tc.cfg, full, o) && OfLevel(levels, k, o)
    ensures Turns(e, OldLevel(tc, levels, f, k + 1), Tuples(tc, ChunkList(tc.cfg, full)))
    ensures k + 1 >= |levels| ==> e.p == 0 && e.d == 0
  {
    NextLevel(tc, full, o);
    e := EditAbove(tc, o);
    if k + 1 < |levels| {
      OldLevelAbove(tc, levels, f, k);
    } else {
      NothingLeft(e, Tuples(tc, o.prior));
      e := Edit(0, 0, e.added);
    }
  }

  /** Re-chunks level `k` of a tree. */
  method RunLevel<V>(tc: TreeConfig<V>, levels: seq<seq<Level<V>>>, ghost f: Level<V>, k: nat, e: Edit<V>,
                     ghost full: Level<V>)
    returns (o: Outcome<V>)
    requires 0 < tc.cfg.window && Stores(tc, levels, f) && Turns(e, OldLevel(tc, levels, f, k), full)
    requires k >= |levels| ==> e.p == 0 && e.d == 0
    ensures IsOutcome(tc.cfg, full, o) && OfLevel(levels, k, o)
  {
    if k < |levels| {
      o := EditLevel(tc.cfg, levels[k], LevelAt(tc, f, k), e);
    } else {
      assert e.Of([]) == e.added;
      o := NewLevel(tc.cfg, e.added);
    }
  }

  ghost predicate NoBoundary<V>(cfg: Config, full: Level<V>) {
    Scratch(cfg, full, |full|).chunks == []
  }

  /** Going up from `full`, at most `n` levels have an explicit boundary. */
  ghost predicate Ends<V>(tc: TreeConfig<V>, full: Level<V>, n: nat)
    decreases n
  {
    NoBoundary(tc.cfg, full) || (n > 0 && Ends(tc, Tuples(tc, ChunkList(tc.cfg, full)), n - 1))
  }

  /** Level `k` of the new tree is `full` and has been re-chunked with outcome `o`. */
  ghost predicate Reached<V>(cfg: Config, levels: seq<seq<Level<V>>>, k: nat, full: Level<V>, o: Outcome<V>) {
    && IsOutcome(cfg, full, o) && OfLevel(levels, k, o)
    && (k > 0 ==> full != [])
  }

  /** From a level with closed chunks to the one above. */
  method Climb<V>(tc: TreeConfig<V>, levels: seq<seq<Level<V>>>, ghost f: Level<V>, k: nat, ghost full: Level<V>,
                  o: Outcome<V>)
    returns (up: Outcome<V>, ghost above: Level<V>)
    requires 0 < tc.cfg.window && Stores(tc, levels, f) && Reached(tc.cfg, levels, k, full, o)
             && (o.c > 0 || o.emitted != [])
    ensures Reached(tc.cfg, levels, k + 1, above, up) && above == Tuples(tc, ChunkList(tc.cfg, full))
            && !NoBoundary(tc.cfg, full)
  {
    hide Stores, ChunkList;
    SomeClosed(tc.cfg, full, o);
    above := Tuples(tc, ChunkList(tc.cfg, full));
    var e := Above(tc, levels, f, k, o, full);
    up := RunLevel(tc, levels, f, k + 1, e, above);
  }

  /** Climbs to the first level that has nothing closed. */
  method ClimbAll<V>(tc: TreeConfig<V>, levels: seq<seq<Level<V>>>, ghost f: Level<V>, ghost g: Level<V>,
                     first: Outcome<V>, ghost bound: nat)
    returns (k: nat, o: Outcome<V>, ghost full: Level<V>)
    requires 0 < tc.cfg.window && Stores(tc, levels, f) && Reached(tc.cfg, levels, 0, g, first)
    requires Ends(tc, g, bound)
    ensures Reached(tc.cfg, levels, k, full, o) && full == LevelAt(tc, g, k) && o.c == 0 && o.emitted == []
  {
    k, o, full := 0, first, g;
    ghost var left := bound;
    while o.c > 0 || o.emitted != []
      invariant Reached(tc.cfg, levels, k, full, o)
      invariant full == LevelAt(tc, g, k) && Ends(tc, full, left)
      decreases left
    {
      ghost var above;
      o, above := Climb(tc, levels, f, k, full, o);
      k, full, left := k + 1, above, left - 1;
    }
  }

  /** The root, from a level that is all pending: itself, unless it is a single tuple. */
  method FindRoot<V>(tc: TreeConfig<V>, levels: seq<seq<Level<V>>>, ghost g: Level<V>, k: nat, ghost full: Level<V>,
                     o: Outcome<V>)
    returns (root: Level<V>, ghost n: nat)
    requires Reached(tc.cfg, levels, k, full, o) && full == LevelAt(tc, g, k) && o.c == 0 && o.emitted == []
             && HasDepth(g, 0)
    ensures IsRoot(tc, g, n, root)
  {
    AllPending(tc.cfg, full, o);
    if k == 0 || |o.pending| > 1 {
      root, n := o.pending, k;
      RootAt(tc, g, n);
    } else {
      root, n := Descend(tc, g, k, o.pending[0]);
    }
  }

  /**
   Splices a stored tree of the values `f`.  Whatever tree it was, the result is the canonical root of the new
   values: the one that building them from scratch gives.
   */
  method Splice<V>(tc: TreeConfig<V>, levels: seq<seq<Level<V>>>, ghost f: Level<V>, idx: nat, deleteCount: nat,
                   vs: Level<V>,
                   ghost bound: nat)
    returns (root: Level<V>)
    requires 0 < tc.cfg.window && levels != [] && Stores(tc, levels, f) && idx + deleteCount <= |f|
    requires HasDepth(f, 0) && HasDepth(vs, 0)
    requires Ends(tc, Edit(idx, deleteCount, vs).Of(f), bound)
    ensures RootOf(tc, Edit(idx, deleteCount, vs).Of(f), root)
  {
    if deleteCount == 0 && |vs| == 0 {
      root := levels[|levels| - 1][0];
      assert Edit(idx, deleteCount, vs).Of(f) == f;
      StoredRoot(tc, levels, f);
      return;
    }
    var e := Edit(idx, deleteCount, vs);
    EditValues(e, f);
    ghost var n;
    root, n := Rebuild(tc, levels, f, e, e.Of(f), bound);
  }

  /** Builds a tree of `vs` from scratch. */
  method Build<V>(tc: TreeConfig<V>, vs: Level<V>, ghost bound: nat) returns (root: Level<V>)
    requires 0 < tc.cfg.window && HasDepth(vs, 0) && Ends(tc, vs, bound)
    ensures RootOf(tc, vs, root)
  {
    assert Edit(0, 0, vs).Of([]) == vs;
    ghost var n;
    root, n := Rebuild(tc, [], [], Edit(0, 0, vs), vs, bound);
  }

  method Rebuild<V>(tc: TreeConfig<V>, levels: seq<seq<Level<V>>>, ghost f: Level<V>, e: Edit<V>, ghost g: Level<V>,
                    ghost bound: nat)
    returns (root: Level<V>, ghost n: nat)
    requires 0 < tc.cfg.window && Stores(tc, levels, f) && Turns(e, f, g) && HasDepth(g, 0) && Ends(tc, g, bound)
    requires levels == [] ==> e.p == 0 && e.d == 0
    ensures IsRoot(tc, g, n, root)
  {
    var first := RunLevel(tc, levels, f, 0, e, g);
    ghost var full;
    var k, o;
    k, o, full := ClimbAll(tc, levels, f, g, first, bound);
    root, n := FindRoot(tc, levels, g, k, full, o);
  }

  lemma EditValues<V>(e: Edit<V>, f: Level<V>)
    requires e.Fits(f) && HasDepth(f, 0) && HasDepth(e.added, 0)
    ensures HasDepth(e.Of(f), 0)
  {
  }

  /** A stored tree's root is canonical. */
  lemma StoredRoot<V>(tc: TreeConfig<V>, levels: seq<seq<Level<V>>>, f: Level<V>)
    requires levels != [] && Stores(tc, levels, f)
    ensures IsRoot(tc, f, |levels| - 1, levels[|levels| - 1][0])
  {
    var top := |levels| - 1;
    assert Canonical(tc.cfg, levels[top], LevelAt(tc, f, top));
    Shape(tc.cfg, levels[top], LevelAt(tc, f, top));
    FlattenOne(levels[top][0]);
    assert levels[top] == [levels[top][0]];
    forall m: nat | m < top ensures !OneChunk(tc, LevelAt(tc, f, m)) {
      assert Canonical(tc.cfg, levels[m], LevelAt(tc, f, m)) && |levels[m]| > 1;
    }
  }

  /** A level with a single tuple is not canonical: walks down to a leaf or to a level with more items. */
  method Descend<V>(tc: TreeConfig<V>, ghost g: Level<V>, ghost k: nat, top: Item<Node<V>>)
    returns (root: Level<V>, ghost n: nat)
    requires k > 0 && LevelAt(tc, g, k) == [top] && HasDepth(g, 0)
    ensures IsRoot(tc, g, n, root)
  {
    hide LevelAt, OneChunk, IsRoot, HasDepth;
    var mt := top;
    n := k;
    OnlyChild(tc, g, n, mt);
    while |mt.value.items| == 1 && mt.value.items[0].value.Chunk?
      invariant n > 0 && LevelAt(tc, g, n) == [mt]
      invariant mt.value.Chunk? && mt.value.items != [] && LevelAt(tc, g, n - 1) == mt.value.items
      invariant OneChunk(tc, LevelAt(tc, g, n - 1))
      decreases n
    {
      NotValues(tc, g, n - 1);
      mt := mt.value.items[0];
      n := n - 1;
      OnlyChild(tc, g, n, mt);
    }
    n := n - 1;
    root := mt.value.items;
    if |root| == 1 {
      ValuesAtBottom(tc, g, n);
    }
    RootAt(tc, g, n);
  }

  /** A level that holds tuples is not the lowest. */
  lemma NotValues<V>(tc: TreeConfig<V>, g: Level<V>, n: nat)
    requires HasDepth(g, 0) && LevelAt(tc, g, n) != [] && LevelAt(tc, g, n)[0].value.Chunk?
    ensures n > 0
  {
  }

  /** Only the lowest level holds values. */
  lemma ValuesAtBottom<V>(tc: TreeConfig<V>, g: Level<V>, n: nat)
    requires LevelAt(tc, g, n) != []
    ensures n > 0 ==> LevelAt(tc, g, n)[0].value.Chunk?
  {
  }

  lemma OnlyChild<V>(tc: TreeConfig<V>, g: Level<V>, n: nat, mt: Item<Node<V>>)
    requires n > 0 && LevelAt(tc, g, n) == [mt]
    ensures mt.value.Chunk? && mt.value.items != [] && LevelAt(tc, g, n - 1) == mt.value.items
    ensures OneChunk(tc, LevelAt(tc, g, n - 1))
  {
    SoleChunk(tc, LevelAt(tc, g, n - 1), ChunkList(tc.cfg, LevelAt(tc, g, n - 1)));
    assert LevelAt(tc, g, n)[0] == mt;
  }

  lemma SoleChunk<V>(tc: TreeConfig<V>, h: Level<V>, cl: seq<Level<V>>)
    requires cl == ChunkList(tc.cfg, h) && |Tuples(tc, cl)| == 1
    ensures |cl| == 1 && Tuples(tc, cl)[0] == Tuple(tc, cl[0]) && cl[0] == h && h != []
  {
    ChunkListPartitions(tc.cfg, h);
    assert cl == [cl[0]];
    FlattenOne(cl[0]);
  }
}
