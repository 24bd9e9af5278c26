/**
 Whole trees.  A level above the leaves has one tuple per chunk of the level below, so chunking a level
 determines the next one, and the root is the first level that is a single chunk.
 */
module ProllyTree {
  import opened ByteSeqs
  import opened Chunking

  /** What an item stands for: a value of the collection, or a chunk of the level below with its leaf count. */
  datatype Node<V> = Value(value: V) | Chunk(items: seq<Item<Node<V>>>, numLeaves: nat)

  type Level<V> = seq<Item<Node<V>>>

  /** `tupleBytes` are the bytes of a tuple's reference and key, which its chunk determines. */
  datatype TreeConfig<!V> = TreeConfig(cfg: Config, tupleBytes: Level<V> -> seq<Byte>)

  function LeafCount<V>(item: Item<Node<V>>): nat {
    match item.value
    case Value(_) => 1
    case Chunk(_, n) => n
  }

  function LeafSum<V>(chunk: Level<V>, k: nat): nat
    requires k <= |chunk|
  {
    if k == 0 then 0 else LeafSum(chunk, k - 1) + LeafCount(chunk[k - 1])
  }

  function Tuple<V>(tc: TreeConfig<V>, chunk: Level<V>): Item<Node<V>> {
    Item(Chunk(chunk, LeafSum(chunk, |chunk|)), tc.tupleBytes(chunk))
  }

  function Tuples<V>(tc: TreeConfig<V>, chunks: seq<Level<V>>): Level<V> {
    seq(|chunks|, i requires 0 <= i < |chunks| => Tuple(tc, chunks[i]))
  }

  /** The `n`-th level above the items `f`. */
  function LevelAt<V>(tc: TreeConfig<V>, f: Level<V>, n: nat): Level<V> {
    if n == 0 then f else Tuples(tc, ChunkList(tc.cfg, LevelAt(tc, f, n - 1)))
  }

  ghost predicate OneChunk<V>(tc: TreeConfig<V>, f: Level<V>) {
    |ChunkList(tc.cfg, f)| <= 1
  }

  /** The canonical root of the items `f`: the first level that is a single chunk. */
  ghost predicate IsRoot<V>(tc: TreeConfig<V>, f: Level<V>, n: nat, root: Level<V>) {
    && root == LevelAt(tc, f, n) && OneChunk(tc, LevelAt(tc, f, n))
    && forall m: nat :: m < n ==> !OneChunk(tc, LevelAt(tc, f, m))
  }

  /** No two levels of the same items are the first that is a single chunk. */
  lemma RootUnique<V>(tc: TreeConfig<V>, f: Level<V>, n: nat, root: Level<V>, n': nat, root': Level<V>)
    requires IsRoot(tc, f, n, root) && IsRoot(tc, f, n', root')
    ensures n == n' && root == root'
  {
  }

  lemma TuplesConcat<V>(tc: TreeConfig<V>, xs: seq<Level<V>>, ys: seq<Level<V>>)
    ensures Tuples(tc, xs + ys) == Tuples(tc, xs) + Tuples(tc, ys)
  {
  }

  // ---------- flattening ----------

  /** The items of the chunk that a tuple stands for. */
  function ItemsOf<V>(item: Item<Node<V>>): Level<V> {
    if item.value.Chunk? then item.value.items else []
  }

  /** The values under the first `k` items of a level, in order. */
  function Leaves<V>(items: Level<V>, k: nat): Level<V>
    requires k <= |items|
    decreases items, k
  {
    if k == 0 then []
    else Leaves(items, k - 1) + LeavesOf(items[k - 1])
  }

  function LeavesOf<V>(item: Item<Node<V>>): Level<V>
    decreases item, 0
  {
    match item.value
    case Value(_) => [item]
    case Chunk(items, _) => Leaves(items, |items|)
  }

  /** Every path from a level to the values has `n` steps, and no chunk on it is empty. */
  ghost predicate HasDepth<V>(items: Level<V>, n: nat)
    decreases n
  {
    forall i :: 0 <= i < |items| ==>
      if n == 0 then items[i].value.Value?
      else items[i].value.Chunk? && items[i].value.items != [] && HasDepth(items[i].value.items, n - 1)
  }

  /** Every tuple states how many values are under it. */
  ghost predicate Counted<V>(items: Level<V>, n: nat)
    decreases n
  {
    forall i :: 0 <= i < |items| && items[i].value.Chunk? ==>
      && items[i].value.numLeaves == |Leaves(items[i].value.items, |items[i].value.items|)|
      && (n > 0 ==> Counted(items[i].value.items, n - 1))
  }

  lemma {:induction false} LeafSumIsCount<V>(items: Level<V>, n: nat, k: nat)
    requires Counted(items, n) && k <= |items|
    ensures LeafSum(items, k) == |Leaves(items, k)|
  {
    if k > 0 {
      LeafSumIsCount(items, n, k - 1);
    }
  }

  lemma {:induction false} LeavesAlike<V>(xs: Level<V>, ys: Level<V>, k: nat)
    requires Alike(xs, 0, ys, 0, k)
    ensures Leaves(xs, k) == Leaves(ys, k)
  {
    if k > 0 {
      LeavesAlike(xs, ys, k - 1);
      assert xs[k - 1] == ys[k - 1];
    }
  }

  lemma {:induction false} LeavesConcat<V>(xs: Level<V>, ys: Level<V>, k: nat)
    requires k <= |ys|
    ensures Leaves(xs + ys, |xs| + k) == Leaves(xs, |xs|) + Leaves(ys, k)
  {
    if k == 0 {
      LeavesAlike(xs, xs + ys, |xs|);
    } else {
      LeavesConcat(xs, ys, k - 1);
      assert (xs + ys)[|xs| + (k - 1)] == ys[k - 1];
      assert Leaves(xs, |xs|) + (Leaves(ys, k - 1) + LeavesOf(ys[k - 1]))
          == Leaves(xs, |xs|) + Leaves(ys, k - 1) + LeavesOf(ys[k - 1]);
    }
  }

  /** The values under a level of tuples are the values under the chunks they stand for. */
  lemma {:induction false} LeavesOfTuples<V>(tc: TreeConfig<V>, chunks: seq<Level<V>>)
    ensures Leaves(Tuples(tc, chunks), |chunks|) == Leaves(Flatten(chunks), |Flatten(chunks)|)
  {
    if chunks != [] {
      var init, last := chunks[..|chunks| - 1], chunks[|chunks| - 1];
      LeavesOfTuples(tc, init);
      LeavesAlike(Tuples(tc, init), Tuples(tc, chunks), |init|);
      LeavesConcat(Flatten(init), last, |last|);
      assert Tuples(tc, chunks)[|init|] == Tuple(tc, last);
    }
  }

  /** A slice of a level is as deep and as well counted as the level. */
  lemma PartOf<V>(chunk: Level<V>, f: Level<V>, a: nat, n: nat)
    requires Alike(f, a, chunk, 0, |chunk|) && HasDepth(f, n) && Counted(f, n)
    ensures HasDepth(chunk, n) && Counted(chunk, n)
  {
    forall i | 0 <= i < |chunk| ensures chunk[i] == f[a + i] {
      assert f[a + i] == chunk[a + i - a + 0];
    }
  }

  /**
   For values `f`, the `n`-th level flattens to `f`, is uniformly `n` deep, and every tuple of it counts its values.
   */
  lemma {:induction false} LevelFlattens<V>(tc: TreeConfig<V>, f: Level<V>, n: nat) returns (g: Level<V>)
    requires HasDepth(f, 0)
    ensures g == LevelAt(tc, f, n)
    ensures Leaves(g, |g|) == f && HasDepth(g, n) && Counted(g, n)
  {
    hide HasDepth, Counted, Tuples;
    if n == 0 {
      ValuesFlatten(f, |f|);
      g := f;
      assert f[..|f|] == f;
    } else {
      hide Leaves;
      var h := LevelFlattens(tc, f, n - 1);
      g := Tuples(tc, ChunkList(tc.cfg, h));
      TuplesFlatten(tc, h, ChunkList(tc.cfg, h), n - 1);
    }
  }

  /** One level up. */
  lemma TuplesFlatten<V>(tc: TreeConfig<V>, g: Level<V>, cl: seq<Level<V>>, n: nat)
    requires HasDepth(g, n) && Counted(g, n) && cl == ChunkList(tc.cfg, g)
    ensures var t := Tuples(tc, cl);
            Leaves(t, |t|) == Leaves(g, |g|) && HasDepth(t, n + 1) && Counted(t, n + 1)
  {
    ChunkListPartitions(tc.cfg, g);
    LeavesOfTuples(tc, cl);
    forall i | 0 <= i < |cl|
      ensures HasDepth(cl[i], n) && Counted(cl[i], n) && LeafSum(cl[i], |cl[i]|) == |Leaves(cl[i], |cl[i]|)|
    {
      ChunkAt(cl, i);
      PartOf(cl[i], g, Start(cl, i), n);
      LeafSumIsCount(cl[i], n, |cl[i]|);
    }
    TuplesDeep(tc, cl, n);
  }

  lemma TuplesDeep<V>(tc: TreeConfig<V>, cl: seq<Level<V>>, n: nat)
    requires NonEmpty(cl)
    requires forall i :: 0 <= i < |cl| ==>
      HasDepth(cl[i], n) && Counted(cl[i], n) && LeafSum(cl[i], |cl[i]|) == |Leaves(cl[i], |cl[i]|)|
    ensures HasDepth(Tuples(tc, cl), n + 1) && Counted(Tuples(tc, cl), n + 1)
  {
  }

  lemma {:induction false} ValuesFlatten<V>(f: Level<V>, k: nat)
    requires HasDepth(f, 0) && k <= |f|
    ensures Leaves(f, k) == f[..k] && Counted(f, 0)
  {
    if k > 0 {
      ValuesFlatten(f, k - 1);
    }
  }

  // ---------- sizes ----------

  lemma {:induction false} ScratchSize<T>(cfg: Config, f: seq<Item<T>>, k: nat)
    requires k <= |f|
    ensures var r := Scratch(cfg, f, k);
            |r.chunks| + |r.pending| <= k && (k > 0 ==> |r.chunks| + |r.pending| > 0)
  {
    if k > 0 {
      ScratchSize(cfg, f, k - 1);
    }
  }

  /** A level has at most as many chunks as items, and none only if it is empty. */
  lemma ChunkCount<T>(cfg: Config, f: seq<Item<T>>)
    ensures |ChunkList(cfg, f)| <= |f| && (f != [] ==> ChunkList(cfg, f) != [])
  {
    ScratchSize(cfg, f, |f|);
  }

  lemma {:induction false} LevelShrinks<V>(tc: TreeConfig<V>, f: Level<V>, m: nat, n: nat)
    requires m <= n
    ensures |LevelAt(tc, f, n)| <= |LevelAt(tc, f, m)|
  {
    if m < n {
      LevelShrinks(tc, f, m, n - 1);
      ChunkCount(tc.cfg, LevelAt(tc, f, n - 1));
    }
  }

  /** A root that is a leaf or has at least two items is canonical when it is one chunk. */
  lemma RootAt<V>(tc: TreeConfig<V>, f: Level<V>, n: nat)
    requires OneChunk(tc, LevelAt(tc, f, n)) && (n == 0 || |LevelAt(tc, f, n)| > 1)
    ensures IsRoot(tc, f, n, LevelAt(tc, f, n))
  {
    forall m: nat | m < n ensures !OneChunk(tc, LevelAt(tc, f, m)) {
      BelowRoot(tc, f, m, n);
    }
  }

  lemma BelowRoot<V>(tc: TreeConfig<V>, f: Level<V>, m: nat, n: nat)
    requires m < n && |LevelAt(tc, f, n)| > 1
    ensures !OneChunk(tc, LevelAt(tc, f, m))
  {
    LevelShrinks(tc, f, m + 1, n);
    LevelCount(tc, f, m);
  }

  lemma LevelCount<V>(tc: TreeConfig<V>, f: Level<V>, m: nat)
    ensures |LevelAt(tc, f, m + 1)| == |ChunkList(tc.cfg, LevelAt(tc, f, m))|
  {
  }

  /** The converse: a canonical root is a leaf or has at least two children. */
  lemma RootShape<V>(tc: TreeConfig<V>, f: Level<V>, n: nat, root: Level<V>)
    requires IsRoot(tc, f, n, root)
    ensures n == 0 || |root| > 1
  {
    if n > 0 {
      assert !OneChunk(tc, LevelAt(tc, f, n - 1));
    }
  }

  /** `root` is the root of the canonical tree of the values `f`, of some height. */
  ghost predicate RootOf<V>(tc: TreeConfig<V>, f: Level<V>, root: Level<V>) {
    exists n: nat :: IsRoot(tc, f, n, root)
  }

  /**
   The root of the values `f` flattens to exactly `f`, all its values are at the same depth, every tuple under it
   counts its values, and it is a leaf or has at least two children.
   */
  lemma RootMeaning<V>(tc: TreeConfig<V>, f: Level<V>, root: Level<V>) returns (n: nat)
    requires HasDepth(f, 0) && RootOf(tc, f, root)
    ensures Leaves(root, |root|) == f && HasDepth(root, n) && Counted(root, n) && (n == 0 || |root| > 1)
  {
    n :| IsRoot(tc, f, n, root);
    var g := LevelFlattens(tc, f, n);
    RootShape(tc, f, n, root);
  }

  /** Two trees with the same root have the same values, and two with the same values the same root. */
  lemma RootsAgree<V>(tc: TreeConfig<V>, f: Level<V>, root: Level<V>, f': Level<V>, root': Level<V>)
    requires HasDepth(f, 0) && HasDepth(f', 0) && RootOf(tc, f, root) && RootOf(tc, f', root')
    ensures f == f' <==> root == root'
  {
    var n := RootMeaning(tc, f, root);
    var n' := RootMeaning(tc, f', root');
    if f == f' {
      var m :| IsRoot(tc, f, m, root);
      var m' :| IsRoot(tc, f', m', root');
      RootUnique(tc, f, m, root, m', root');
    }
  }
}
