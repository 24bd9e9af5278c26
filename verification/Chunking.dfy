/**
 What it means to chunk one level of a prolly tree, independent of how the chunker gets there.

 An item carries the bytes that its hash function feeds to the rolling hasher.  The hasher is
 never reset between chunks, so an item ends a chunk exactly when some byte of it completes a
 window that the pattern accepts; the window is the last `window` bytes of the whole level.
 */
module Chunking {
  import opened ByteSeqs
  import opened BuzHash

  datatype Item<T> = Item(value: T, bytes: seq<Byte>)

  /** `hits` accepts the windows whose hash matches the chunk pattern. */
  datatype Config = Config(window: nat, hits: seq<Byte> -> bool)

  /** Some of the first `k` bytes, hashed when the window is `w`, completes an accepted window. */
  predicate CrossesBy(cfg: Config, w: seq<Byte>, bytes: seq<Byte>, k: nat)
    requires k <= |bytes|
  {
    k > 0 && (CrossesBy(cfg, w, bytes, k - 1) || cfg.hits(Last(w + bytes[..k], cfg.window)))
  }

  predicate Crosses(cfg: Config, w: seq<Byte>, bytes: seq<Byte>) {
    CrossesBy(cfg, w, bytes, |bytes|)
  }

  /** An item crosses a boundary exactly if some of its bytes, the last or another, completes an accepted window. */
  lemma {:induction false} CrossesExactly(cfg: Config, w: seq<Byte>, bytes: seq<Byte>, k: nat)
    requires k <= |bytes|
    ensures CrossesBy(cfg, w, bytes, k) <==>
            exists j :: 0 < j <= k && cfg.hits(Last(w + bytes[..j], cfg.window))
  {
    if k > 0 {
      CrossesExactly(cfg, w, bytes, k - 1);
    }
  }

  /** The window after hashing the items from `m` up to `k`. */
  function Window<T>(cfg: Config, f: seq<Item<T>>, m: nat, k: nat): seq<Byte>
    requires k <= |f|
  {
    if k <= m then [] else Last(Window(cfg, f, m, k - 1) + f[k - 1].bytes, cfg.window)
  }

  /** The chunks closed by an explicit boundary, and the items after the last one. */
  datatype Run<T> = Run(chunks: seq<seq<Item<T>>>, pending: seq<Item<T>>)
  {
    /** The end of input is an implicit boundary. */
    function All(): seq<seq<Item<T>>> {
      if pending == [] then chunks else chunks + [pending]
    }
  }

  function Step<T>(cfg: Config, w: seq<Byte>, r: Run<T>, item: Item<T>): Run<T> {
    if Crosses(cfg, w, item.bytes) then Run(r.chunks + [r.pending + [item]], [])
    else Run(r.chunks, r.pending + [item])
  }

  /** Chunking the first `k` items of a level from scratch. */
  function Scratch<T>(cfg: Config, f: seq<Item<T>>, k: nat): Run<T>
    requires k <= |f|
  {
    if k == 0 then Run([], []) else Step(cfg, Window(cfg, f, 0, k - 1), Scratch(cfg, f, k - 1), f[k - 1])
  }

  /** The chunk list of a level chunked from scratch. */
  function ChunkList<T>(cfg: Config, f: seq<Item<T>>): seq<seq<Item<T>>> {
    Scratch(cfg, f, |f|).All()
  }

  function Flatten<X>(chunks: seq<seq<X>>): seq<X> {
    if chunks == [] then [] else Flatten(chunks[..|chunks| - 1]) + chunks[|chunks| - 1]
  }

  ghost predicate NonEmpty<X>(chunks: seq<seq<X>>) {
    forall c :: 0 <= c < |chunks| ==> chunks[c] != []
  }

  /** The position of the first item of chunk `c`. */
  function Start<X>(chunks: seq<seq<X>>, c: nat): nat
    requires c <= |chunks|
  {
    if c == 0 then 0 else Start(chunks, c - 1) + |chunks[c - 1]|
  }

  // ---------- the window ----------

  function Size<T>(f: seq<Item<T>>, i: nat, j: nat): nat
    requires j <= |f|
  {
    if j <= i then 0 else Size(f, i, j - 1) + |f[j - 1].bytes|
  }

  function Bytes<T>(f: seq<Item<T>>, i: nat, j: nat): seq<Byte>
    requires j <= |f|
  {
    if j <= i then [] else Bytes(f, i, j - 1) + f[j - 1].bytes
  }

  lemma {:induction false} SizeIsLength<T>(f: seq<Item<T>>, i: nat, j: nat)
    requires j <= |f|
    ensures Size(f, i, j) == |Bytes(f, i, j)|
  {
    if i < j {
      SizeIsLength(f, i, j - 1);
    }
  }

  lemma {:induction false} SizeCons<T>(f: seq<Item<T>>, i: nat, j: nat)
    requires i < j <= |f|
    ensures Size(f, i, j) == |f[i].bytes| + Size(f, i + 1, j)
  {
    if i + 1 < j {
      SizeCons(f, i, j - 1);
    }
  }

  lemma {:induction false} BytesSplit<T>(f: seq<Item<T>>, i: nat, j: nat, k: nat)
    requires i <= j <= k <= |f|
    ensures Bytes(f, i, k) == Bytes(f, i, j) + Bytes(f, j, k)
  {
    if j < k {
      BytesSplit(f, i, j, k - 1);
    }
  }

  lemma LastOfSuffix(v: seq<Byte>, b: seq<Byte>, n: nat)
    requires |b| >= n
    ensures Last(v + b, n) == Last(b, n)
  {
  }

  /** The window is the last bytes of everything hashed. */
  lemma {:induction false} WindowIsLast<T>(cfg: Config, f: seq<Item<T>>, m: nat, k: nat)
    requires k <= |f|
    ensures Window(cfg, f, m, k) == Last(Bytes(f, m, k), cfg.window)
  {
    if m < k {
      WindowIsLast(cfg, f, m, k - 1);
      LastLast(Bytes(f, m, k - 1), f[k - 1].bytes, cfg.window);
    }
  }

  /** Two levels are alike on `n` items, at `a` in the one and at `b` in the other. */
  ghost predicate Alike<X>(f: seq<X>, a: nat, g: seq<X>, b: nat, n: nat) {
    && a + n <= |f| && b + n <= |g|
    && forall i :: a <= i < a + n ==> f[i] == g[i - a + b]
  }

  lemma {:induction false} BytesAlike<T>(f: seq<Item<T>>, a: nat, g: seq<Item<T>>, b: nat, n: nat)
    requires Alike(f, a, g, b, n)
    ensures Bytes(f, a, a + n) == Bytes(g, b, b + n)
  {
    if n > 0 {
      BytesAlike(f, a, g, b, n - 1);
    }
  }

  /** Once a window's worth of bytes has been hashed, what came before is forgotten. */
  lemma WindowForgets<T>(cfg: Config, f: seq<Item<T>>, m: nat, a: nat, g: seq<Item<T>>, m': nat, b: nat, n: nat)
    requires Alike(f, a, g, b, n) && m <= a && m' <= b
    requires Size(f, a, a + n) >= cfg.window
    ensures Window(cfg, f, m, a + n) == Window(cfg, g, m', b + n)
  {
    hide Window, Bytes, Last, Size;
    WindowIsLast(cfg, f, m, a + n);
    WindowIsLast(cfg, g, m', b + n);
    BytesSplit(f, m, a, a + n);
    BytesSplit(g, m', b, b + n);
    BytesAlike(f, a, g, b, n);
    SizeIsLength(f, a, a + n);
    LastOfSuffix(Bytes(f, m, a), Bytes(f, a, a + n), cfg.window);
    LastOfSuffix(Bytes(g, m', b), Bytes(g, b, b + n), cfg.window);
  }

  // ---------- chunking ----------

  lemma {:induction false} ScratchAlike<T>(cfg: Config, f: seq<Item<T>>, g: seq<Item<T>>, k: nat)
    requires Alike(f, 0, g, 0, k)
    ensures Scratch(cfg, f, k) == Scratch(cfg, g, k) && Window(cfg, f, 0, k) == Window(cfg, g, 0, k)
  {
    if k > 0 {
      ScratchAlike(cfg, f, g, k - 1);
    }
  }

  lemma FlattenSnoc<X>(xs: seq<seq<X>>, y: seq<X>)
    ensures Flatten(xs + [y]) == Flatten(xs) + y
  {
    assert (xs + [y])[..|xs|] == xs;
  }

  lemma FlattenOne<X>(chunk: seq<X>)
    ensures Flatten([chunk]) == chunk
  {
    assert [chunk][..0] == [];
  }

  lemma {:induction false} ScratchPartitions<T>(cfg: Config, f: seq<Item<T>>, k: nat)
    requires k <= |f|
    ensures var r := Scratch(cfg, f, k);
            Flatten(r.chunks) + r.pending == f[..k] && NonEmpty(r.chunks)
  {
    if k > 0 {
      ScratchPartitions(cfg, f, k - 1);
      StepPartitions(cfg, Window(cfg, f, 0, k - 1), Scratch(cfg, f, k - 1), f[k - 1]);
      assert f[..k] == f[..k - 1] + [f[k - 1]];
    }
  }

  lemma StepPartitions<T>(cfg: Config, w: seq<Byte>, m: Run<T>, x: Item<T>)
    ensures var r := Step(cfg, w, m, x);
            Flatten(r.chunks) + r.pending == Flatten(m.chunks) + m.pending + [x]
              && (NonEmpty(m.chunks) ==> NonEmpty(r.chunks))
  {
    var a, c := Flatten(m.chunks), m.pending + [x];
    assert a + c == a + m.pending + [x];
    if Crosses(cfg, w, x.bytes) {
      FlattenSnoc(m.chunks, c);
    }
  }

  /** A chunk list partitions its items into non-empty chunks. */
  lemma ChunkListPartitions<T>(cfg: Config, f: seq<Item<T>>)
    ensures Flatten(ChunkList(cfg, f)) == f
    ensures NonEmpty(ChunkList(cfg, f))
  {
    var r := Scratch(cfg, f, |f|);
    ScratchPartitions(cfg, f, |f|);
    FlattenSnoc(r.chunks, r.pending);
    assert f[..|f|] == f;
  }

  /** Chunking more items extends the open chunk and leaves the closed ones alone. */
  lemma {:induction false} ScratchExtends<T>(cfg: Config, f: seq<Item<T>>, k: nat, n: nat)
    requires k < n <= |f|
    ensures var r, cl := Scratch(cfg, f, k), Scratch(cfg, f, n).All();
            && |r.chunks| < |cl| && cl[..|r.chunks|] == r.chunks
            && |r.pending| < |cl[|r.chunks|]| && cl[|r.chunks|][..|r.pending|] == r.pending
  {
    var s := Scratch(cfg, f, n - 1);
    assert Scratch(cfg, f, n).All() == s.chunks + [s.pending + [f[n - 1]]];
    if k < n - 1 {
      ScratchExtends(cfg, f, k, n - 1);
    }
  }

  // ---------- positions in a chunk list ----------

  lemma {:induction false} StartMonotone<X>(chunks: seq<seq<X>>, c: nat, e: nat)
    requires c <= e <= |chunks|
    ensures Start(chunks, c) <= Start(chunks, e)
  {
    if c < e {
      StartMonotone(chunks, c, e - 1);
    }
  }

  lemma {:induction false} StartPrefix<X>(xs: seq<seq<X>>, ys: seq<seq<X>>, c: nat)
    requires c <= |xs| && c <= |ys| && xs[..c] == ys[..c]
    ensures Start(xs, c) == Start(ys, c)
  {
    if c > 0 {
      assert xs[c - 1] == xs[..c][c - 1] == ys[..c][c - 1] == ys[c - 1];
      assert xs[..c - 1] == xs[..c][..c - 1] == ys[..c][..c - 1] == ys[..c - 1];
      StartPrefix(xs, ys, c - 1);
    }
  }

  lemma {:induction false} StartEnd<X>(chunks: seq<seq<X>>)
    ensures Start(chunks, |chunks|) == |Flatten(chunks)|
  {
    if chunks != [] {
      var init := chunks[..|chunks| - 1];
      StartEnd(init);
      StartPrefix(init, chunks, |init|);
    }
  }

  /** The items of chunk `c` sit at its start position. */
  lemma {:induction false} ChunkAt<X>(chunks: seq<seq<X>>, c: nat)
    requires c < |chunks|
    ensures Alike(Flatten(chunks), Start(chunks, c), chunks[c], 0, |chunks[c]|)
  {
    var init := chunks[..|chunks| - 1];
    StartEnd(init);
    StartPrefix(init, chunks, c);
    if c < |init| {
      ChunkAt(init, c);
    }
  }

  lemma SamePlace<X>(chunks: seq<seq<X>>, c: nat, i: nat, c': nat, i': nat)
    requires c < |chunks| && c' < |chunks|
    requires i < |chunks[c]| || (i == |chunks[c]| && c == |chunks| - 1)
    requires i' < |chunks[c']| || (i' == |chunks[c']| && c' == |chunks| - 1)
    requires Start(chunks, c) + i == Start(chunks, c') + i'
    ensures c == c' && i == i'
  {
    if c < c' {
      StartMonotone(chunks, c + 1, c');
    } else if c' < c {
      StartMonotone(chunks, c' + 1, c);
    }
  }

  /** Chunking a prefix that stops inside chunk `c` has closed exactly the earlier chunks. */
  lemma ScratchPrefix<T>(cfg: Config, f: seq<Item<T>>, c: nat, i: nat)
    requires var cl := ChunkList(cfg, f);
             c < |cl| && i < |cl[c]|
    ensures var cl := ChunkList(cfg, f);
            var k := Start(cl, c) + i;
            k < |f| && Scratch(cfg, f, k) == Run(cl[..c], cl[c][..i])
  {
    var cl := ChunkList(cfg, f);
    PlaceBound(cfg, f, c, i);
    ScratchPlaced(cfg, f, c, i, Start(cl, c) + i);
  }

  lemma PlaceBound<T>(cfg: Config, f: seq<Item<T>>, c: nat, i: nat)
    requires var cl := ChunkList(cfg, f);
             c < |cl| && i < |cl[c]|
    ensures Start(ChunkList(cfg, f), c) + i < |f|
  {
    ChunkListPartitions(cfg, f);
    ChunkAt(ChunkList(cfg, f), c);
  }

  lemma ScratchPlaced<T>(cfg: Config, f: seq<Item<T>>, c: nat, i: nat, k: nat)
    requires var cl := ChunkList(cfg, f);
             c < |cl| && i < |cl[c]| && k == Start(cl, c) + i < |f|
    ensures var cl := ChunkList(cfg, f);
            Scratch(cfg, f, k) == Run(cl[..c], cl[c][..i])
  {
    var r := Scratch(cfg, f, k);
    ScratchPlace(cfg, f, k);
    SamePlace(ChunkList(cfg, f), c, i, |r.chunks|, |r.pending|);
  }

  /** Where chunking a proper prefix stops. */
  lemma ScratchPlace<T>(cfg: Config, f: seq<Item<T>>, k: nat)
    requires k < |f|
    ensures var r, cl := Scratch(cfg, f, k), ChunkList(cfg, f);
            && |r.chunks| < |cl| && |r.pending| < |cl[|r.chunks|]|
            && r == Run(cl[..|r.chunks|], cl[|r.chunks|][..|r.pending|])
            && Start(cl, |r.chunks|) + |r.pending| == k
  {
    var r := Scratch(cfg, f, k);
    ScratchExtends(cfg, f, k, |f|);
    ScratchPartitions(cfg, f, k);
    StartEnd(r.chunks);
    StartPrefix(ChunkList(cfg, f), r.chunks, |r.chunks|);
    assert |f[..k]| == k;
  }
}
