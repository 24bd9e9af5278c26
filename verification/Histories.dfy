/** Editing a tree again and again: only the values it ends up with matter. */
module Histories {
  import opened Chunking
  import opened Chunker
  import opened ProllyTree
  import opened TreeCursors
  import opened TreeSplice

  // ---------- what a splice gives can be spliced again ----------

  /** The chunks of every level under a root that is `n` levels above the values. */
  function LevelsOf<V>(root: Level<V>, n: nat): seq<seq<Level<V>>> {
    seq(n + 1, j requires 0 <= j < n + 1 => ChunksAt(root, n, j))
  }

  lemma BelowTuples<V>(tc: TreeConfig<V>, chunks: seq<Level<V>>)
    ensures Below(Tuples(tc, chunks)) == chunks
  {
  }

  lemma {:induction false} TopLevel<V>(root: Level<V>, n: nat)
    ensures ItemsAt(root, n, n) == root
  {
    FlattenOne(root);
  }

  lemma {:induction false} OneDown<V>(tc: TreeConfig<V>, f: Level<V>, n: nat, root: Level<V>, j: nat, g: Level<V>,
                                      cl: seq<Level<V>>)
    requires j < n && g == LevelAt(tc, f, j) && cl == ChunkList(tc.cfg, g) && ItemsAt(root, n, j + 1) == Tuples(tc, cl)
    ensures ChunksAt(root, n, j) == cl && ItemsAt(root, n, j) == g
  {
    hide LevelAt, ChunkList, Tuples;
    BelowTuples(tc, cl);
    ChunkListPartitions(tc.cfg, g);
    hide Below, Flatten;
  }

  /** Under a canonical root the items at each distance from the values are the canonical level. */
  lemma {:induction false} LevelsUnder<V>(tc: TreeConfig<V>, f: Level<V>, n: nat, root: Level<V>, j: nat)
    requires root == LevelAt(tc, f, n) && j <= n
    ensures ItemsAt(root, n, j) == LevelAt(tc, f, j)
    ensures j < n ==> ChunksAt(root, n, j) == ChunkList(tc.cfg, LevelAt(tc, f, j))
    decreases n - j
  {
    hide ItemsAt, ChunksAt, ChunkList, Tuples;
    if j == n {
      TopLevel(root, n);
    } else {
      LevelsUnder(tc, f, n, root, j + 1);
      OneDown(tc, f, n, root, j, LevelAt(tc, f, j), ChunkList(tc.cfg, LevelAt(tc, f, j)));
    }
  }

  lemma OnlyChunk<V>(cfg: Config, f: Level<V>)
    requires |ChunkList(cfg, f)| <= 1
    ensures Canonical(cfg, [f], f)
  {
    ChunkListPartitions(cfg, f);
    ChunkCount(cfg, f);
    if f != [] {
      FlattenOne(ChunkList(cfg, f)[0]);
      assert ChunkList(cfg, f) == [ChunkList(cfg, f)[0]];
    }
  }

  /** A canonical root is that of a stored tree. */
  lemma RootIsStored<V>(tc: TreeConfig<V>, f: Level<V>, n: nat, root: Level<V>)
    requires IsRoot(tc, f, n, root)
    ensures Stores(tc, LevelsOf(root, n), f)
  {
    var levels := LevelsOf(root, n);
    forall k | 0 <= k < |levels|
      ensures Canonical(tc.cfg, levels[k], LevelAt(tc, f, k)) && (k < n ==> |levels[k]| > 1) {
      LevelsUnder(tc, f, n, root, k);
      if k == n {
        OnlyChunk(tc.cfg, root);
      } else {
        assert !OneChunk(tc, LevelAt(tc, f, k));
        ChunkCount(tc.cfg, LevelAt(tc, f, k));
      }
    }
  }

  /** How many levels of chunks are under a root, as a cursor finds by going down. */
  function Height<V>(root: Level<V>): nat {
    if root != [] && root[0].value.Chunk? then Height(root[0].value.items) + 1 else 0
  }

  lemma {:induction false} HeightIs<V>(root: Level<V>, n: nat)
    requires HasDepth(root, n) && (root == [] ==> n == 0)
    ensures Height(root) == n
    decreases n
  {
    if n > 0 {
      assert root[0].value.Chunk?;
      HeightIs(root[0].value.items, n - 1);
    } else if root != [] {
      assert root[0].value.Value?;
    }
  }

  // ---------- histories ----------

  /** The values after the first `k` edits. */
  ghost function After<V>(f: Level<V>, edits: seq<Edit<V>>, k: nat): Level<V>
    requires k <= |edits|
  {
    if k == 0 then f
    else
      var before := After(f, edits, k - 1);
      if edits[k - 1].Fits(before) then edits[k - 1].Of(before) else before
  }

  /** Every edit is within the values it is made on, and brings only values. */
  ghost predicate AllFit<V>(f: Level<V>, edits: seq<Edit<V>>) {
    HasDepth(f, 0) && forall k :: 0 <= k < |edits| ==> edits[k].Fits(After(f, edits, k)) && HasDepth(edits[k].added, 0)
  }

  /** Every tree on the way has a top. */
  ghost predicate AllEnd<V>(tc: TreeConfig<V>, f: Level<V>, edits: seq<Edit<V>>, bound: nat) {
    forall k :: 0 <= k <= |edits| ==> Ends(tc, After(f, edits, k), bound)
  }

  lemma AfterNext<V>(f: Level<V>, edits: seq<Edit<V>>, k: nat)
    requires AllFit(f, edits) && k < |edits|
    ensures edits[k].Fits(After(f, edits, k)) && After(f, edits, k + 1) == edits[k].Of(After(f, edits, k))
            && HasDepth(edits[k].added, 0)
  {
    hide HasDepth;
  }

  lemma AfterNothing<V>(f: Level<V>, edits: seq<Edit<V>>)
    requires AllFit(f, edits)
    ensures After(f, edits, 0) == f && HasDepth(f, 0)
  {
    hide HasDepth;
  }

  lemma {:induction false} AfterValues<V>(f: Level<V>, edits: seq<Edit<V>>, k: nat)
    requires AllFit(f, edits) && k <= |edits|
    ensures HasDepth(After(f, edits, k), 0)
  {
    hide *;
    if k == 0 {
      AfterNothing(f, edits);
    } else {
      AfterValues(f, edits, k - 1);
      AfterNext(f, edits, k - 1);
      EditValues(edits[k - 1], After(f, edits, k - 1));
    }
  }

  lemma RootIsDeep<V>(tc: TreeConfig<V>, f: Level<V>, root: Level<V>) returns (n: nat)
    requires HasDepth(f, 0) && RootOf(tc, f, root)
    ensures IsRoot(tc, f, n, root) && Height(root) == n && Stores(tc, LevelsOf(root, n), f)
  {
    n :| IsRoot(tc, f, n, root);
    var g := LevelFlattens(tc, f, n);
    RootShape(tc, f, n, root);
    HeightIs(root, n);
    RootIsStored(tc, f, n, root);
  }

  /** Builds a tree and edits it, again and again, in place of building the final values. */
  method EditAll<V>(tc: TreeConfig<V>, vs: Level<V>, edits: seq<Edit<V>>, ghost bound: nat) returns (root: Level<V>)
    requires 0 < tc.cfg.window && AllFit(vs, edits) && AllEnd(tc, vs, edits, bound)
    ensures RootOf(tc, After(vs, edits, |edits|), root)
  {
    assert Ends(tc, After(vs, edits, 0), bound);
    root := Build(tc, vs, bound);
    hide Ends, RootOf, Stores, HasDepth;
    for k := 0 to |edits|
      invariant RootOf(tc, After(vs, edits, k), root)
    {
      root := EditOnce(tc, vs, edits, k, root, bound);
    }
  }

  method EditOnce<V>(tc: TreeConfig<V>, ghost vs: Level<V>, edits: seq<Edit<V>>, k: nat, root: Level<V>,
                     ghost bound: nat) returns (root': Level<V>)
    requires 0 < tc.cfg.window && AllFit(vs, edits) && AllEnd(tc, vs, edits, bound) && k < |edits|
             && RootOf(tc, After(vs, edits, k), root)
    ensures RootOf(tc, After(vs, edits, k + 1), root')
  {
    ghost var f := After(vs, edits, k);
    AfterValues(vs, edits, k);
    ghost var n := RootIsDeep(tc, f, root);
    var e := edits[k];
    assert Ends(tc, After(vs, edits, k + 1), bound);
    assert Edit(e.p, e.d, e.added) == e;
    hide Ends, RootOf, Stores, IsRoot, LevelsOf;
    var levels := Levels(root);
    root' := Splice(tc, levels, f, e.p, e.d, e.added, bound);
  }

  method Levels<V>(root: Level<V>) returns (levels: seq<seq<Level<V>>>)
    ensures levels == LevelsOf(root, Height(root)) && levels != []
  {
    levels := LevelsOf(root, Height(root));
  }

  /**
   History independence: whatever two trees start from and however they are edited, they have the same root exactly when
   they end with the same values.
   */
  lemma HistoryForgotten<V>(tc: TreeConfig<V>, vs: Level<V>, edits: seq<Edit<V>>, root: Level<V>, vs': Level<V>,
                            edits': seq<Edit<V>>, root': Level<V>)
    requires AllFit(vs, edits) && RootOf(tc, After(vs, edits, |edits|), root)
    requires AllFit(vs', edits') && RootOf(tc, After(vs', edits', |edits'|), root')
    ensures After(vs, edits, |edits|) == After(vs', edits', |edits'|) <==> root == root'
  {
    AfterValues(vs, edits, |edits|);
    AfterValues(vs', edits', |edits'|);
    RootsAgree(tc, After(vs, edits, |edits|), root, After(vs', edits', |edits'|), root');
  }
}
