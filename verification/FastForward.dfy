/** Moving two cursors past what their trees have in common, whole chunks at a time where possible. */
module FastForward {
  import opened Chunking
  import opened ProllyTree
  import opened LevelCursors
  import opened TreeCursors

  ghost predicate Distinct<X>(s: seq<X>) {
    forall i, k :: 0 <= i < k < |s| ==> s[i] != s[k]
  }

  lemma StartLess<X>(chunks: seq<seq<X>>, i: nat, k: nat)
    requires i < k < |chunks| && NonEmpty(chunks)
    ensures Start(chunks, i) < Start(chunks, k) < |Flatten(chunks)|
    ensures Flatten(chunks)[Start(chunks, i)] == chunks[i][0] && Flatten(chunks)[Start(chunks, k)] == chunks[k][0]
  {
    StartMonotone(chunks, i + 1, k);
    ChunkAt(chunks, i);
    ChunkAt(chunks, k);
  }

  /** Where no two values are the same, no two chunks of a level are. */
  lemma {:induction false} DistinctLevels<V>(root: Level<V>, h: nat, j: nat)
    requires HasDepth(root, h) && j <= h && Distinct(ItemsAt(root, h, 0))
    ensures Distinct(ItemsAt(root, h, j))
  {
    if j > 0 {
      DistinctLevels(root, h, j - 1);
      var items, chunks := ItemsAt(root, h, j), ChunksAt(root, h, j - 1);
      ChunksNonEmpty(root, h, j - 1);
      forall i, k | 0 <= i < k < |items| ensures items[i] != items[k] {
        StartLess(chunks, i, k);
      }
    }
  }

  lemma SameIndex<X>(chunks: seq<seq<X>>, c: nat, i: nat, k: nat)
    requires c < |chunks| && Distinct(Flatten(chunks)) && i < |chunks[c]| && k < |chunks[c]|
             && chunks[c][i] == chunks[c][k]
    ensures i == k
  {
    ChunkAt(chunks, c);
    var p, q := Start(chunks, c) + i, Start(chunks, c) + k;
    assert Flatten(chunks)[p] == chunks[c][i] && Flatten(chunks)[q] == chunks[c][k];
  }

  /** Chunks that are the same hold the same items. */
  lemma {:induction false} ChunksRun<X>(xs: seq<seq<X>>, c: nat, ys: seq<seq<X>>, d: nat, m: nat)
    requires c + m <= |xs| && d + m <= |ys| && forall i :: c <= i < c + m ==> xs[i] == ys[i - c + d]
    ensures Start(xs, c) <= Start(xs, c + m) && Start(xs, c + m) - Start(xs, c) == Start(ys, d + m) - Start(ys, d)
    ensures Alike(Flatten(xs), Start(xs, c), Flatten(ys), Start(ys, d), Start(xs, c + m) - Start(xs, c))
  {
    if m == 0 {
      StartMonotone(xs, c, |xs|);
      StartMonotone(ys, d, |ys|);
      StartEnd(xs);
      StartEnd(ys);
    } else {
      ChunksRun(xs, c, ys, d, m - 1);
      var e, f := c + m - 1, d + m - 1;
      assert xs[e] == ys[e - c + d];
      ChunkAt(xs, e);
      ChunkAt(ys, f);
      RunsJoin(Flatten(xs), Start(xs, c), Flatten(ys), Start(ys, d), Start(xs, e) - Start(xs, c), |xs[e]|);
    }
  }

  lemma RunsJoin<X>(f: seq<X>, a: nat, g: seq<X>, b: nat, n: nat, m: nat)
    requires Alike(f, a, g, b, n) && a + n + m <= |f| && b + n + m <= |g|
    requires forall i :: a + n <= i < a + n + m ==> f[i] == g[i - a + b]
    ensures Alike(f, a, g, b, n + m)
  {
  }

  lemma Nothing<X>(f: seq<X>, a: nat, g: seq<X>, b: nat)
    requires a <= |f| && b <= |g|
    ensures Alike(f, a, g, b, 0)
  {
  }

  lemma Joined<X>(f: seq<X>, a: nat, g: seq<X>, b: nat, n: nat, m: nat)
    requires Alike(f, a, g, b, n) && Alike(f, a + n, g, b + n, m)
    ensures Alike(f, a, g, b, n + m)
  {
  }

  /** After `n` items from `p` on, of `length` in all: whether there are more, and where that leaves the cursor. */
  ghost predicate Ran(length: nat, p: nat, n: nat, more: bool, allowPastEnd: bool, q: nat) {
    && p + n <= length && more == (p + n < length)
    && q + (if more || allowPastEnd then 0 else 1) == p + n
  }

  /** The item that level `j` is at. */
  function Current<V>(c: Cursor<V>, j: nat): Item<Node<V>>
    requires j < |c.frames| && c.frames[j].idx < |c.frames[j].items|
    reads c
  {
    c.frames[j].items[c.frames[j].idx]
  }

  /** Level `j` is at an item. */
  ghost predicate Ready<V>(c: Cursor<V>, j: nat)
    reads c
  {
    c.Valid(j) && j <= c.h && |c.frames| == c.h + 1 && |c.at| == c.h + 2 && c.at[j] < |c.Items(j)|
      && Distinct(ItemsAt(c.root, c.h, 0))
  }

  lemma ReadyFacts<V>(c: Cursor<V>, j: nat)
    requires Ready(c, j)
    ensures c.frames[j].idx < |c.frames[j].items| && Current(c, j) == c.Items(j)[c.at[j]]
    ensures j < c.h ==> Ready(c, j + 1)
  {
    PlacedHere(c.root, c.h, c.frames, c.at, j);
  }

  /** Where level `j` is in the chunk that the level above is at. */
  lemma InChunk<V>(c: Cursor<V>, j: nat)
    requires Ready(c, j) && j < c.h
    ensures Ready(c, j + 1) && c.frames[j].idx < |c.frames[j].items|
    ensures var chunks := ChunksAt(c.root, c.h, j);
            && c.at[j + 1] < |chunks| && chunks[c.at[j + 1]] == c.frames[j].items
               && c.at[j] == Start(chunks, c.at[j + 1]) + c.frames[j].idx
            && c.frames[j].items[c.frames[j].idx] == c.Items(j)[c.at[j]]
  {
    PlacedHere(c.root, c.h, c.frames, c.at, j);
  }

  /** A cursor after it has moved `n` items at level `j`. */
  twostate predicate Moved<V>(c: Cursor<V>, j: nat, n: nat, more: bool, allowPastEnd: bool)
    requires j <= c.h && j < |old(c.at)|
    reads c
  {
    && c.Valid(j) && c.From(j) && |c.frames| == c.h + 1 && |c.at| == c.h + 2
    && Ran(|c.Items(j)|, old(c.at[j]), n, more, allowPastEnd, c.at[j])
  }

  /** Loads the chunk the level above is at, and goes to its start, or when there are no more to its end. */
  method SyncWithIdx<V>(cur: Cursor<V>, j: nat, hasMore: bool, allowPastEnd: bool, ghost p: nat, ghost n: nat)
    requires Due(cur, j, hasMore, p + n)
    modifies cur
    ensures cur.Valid(j) && |cur.frames| == cur.h + 1 && |cur.at| == cur.h + 2 && cur.From(j)
    ensures Ran(|cur.Items(j)|, p, n, hasMore, allowPastEnd, cur.at[j])
  {
    ReadyFacts(cur, j + 1);
    ChunksNonEmpty(cur.root, cur.h, j);
    ghost var chunks, c := ChunksAt(cur.root, cur.h, j), cur.at[j + 1];
    PlaceFacts(chunks, c);
    var length := |ItemsOf(Current(cur, j + 1))|;
    assert length == |chunks[c]|;
    var idx := if hasMore then 0 else if allowPastEnd then length else length - 1;
    cur.Sync(j, idx);
  }

  /**
   Moves both cursors by the same number of items, over equal items only, and stops only at a difference or at an end.
   */
  method DoFastForward<V(==)>(j: nat, allowPastEnd: bool, a: Cursor<V>, b: Cursor<V>)
    returns (aHasMore: bool, bHasMore: bool, ghost n: nat)
    requires a != b && Ready(a, j) && Ready(b, j)
    modifies a, b
    ensures Moved(a, j, n, aHasMore, allowPastEnd) && Moved(b, j, n, bHasMore, allowPastEnd)
    ensures Alike(a.Items(j), old(a.at[j]), b.Items(j), old(b.at[j]), n)
    ensures aHasMore && bHasMore ==> a.Items(j)[a.at[j]] != b.Items(j)[b.at[j]]
    ensures a.Items(j)[old(a.at[j])] == b.Items(j)[old(b.at[j])] ==> n > 0
    decreases a.h - j, 1
  {
    hide Placed, HasDepth, Distinct, ChunksAt, ItemsAt, Alike;
    aHasMore, bHasMore, n := true, true, 0;
    Nothing(a.Items(j), a.at[j], b.Items(j), b.at[j]);
    ghost var p, q := a.at[j], b.at[j];
    while aHasMore && bHasMore && Same(a, b, j)
      invariant Moved(a, j, n, aHasMore, allowPastEnd) && Moved(b, j, n, bHasMore, allowPastEnd)
      invariant Alike(a.Items(j), p, b.Items(j), q, n)
      invariant n == 0 ==> a.at[j] == p && b.at[j] == q
      decreases |a.Items(j)| - (p + n)
    {
      ReadyFacts(a, j);
      ReadyFacts(b, j);
      ghost var m;
      aHasMore, bHasMore, m := Step(j, allowPastEnd, a, b);
      Joined(a.Items(j), p, b.Items(j), q, n, m);
      n := n + m;
    }
    if aHasMore && bHasMore {
      ReadyFacts(a, j);
      ReadyFacts(b, j);
    }
  }

  predicate Same<V(==)>(a: Cursor<V>, b: Cursor<V>, j: nat)
    requires Ready(a, j) && Ready(b, j)
    reads a, b
  {
    ReadyFacts(a, j);
    ReadyFacts(b, j);
    Current(a, j) == Current(b, j)
  }

  /** One step of the loop: at least one item, and whole chunks if the levels above are at the same chunk. */
  method Step<V(==)>(j: nat, allowPastEnd: bool, a: Cursor<V>, b: Cursor<V>)
    returns (aHasMore: bool, bHasMore: bool, ghost n: nat)
    requires a != b && Ready(a, j) && Ready(b, j) && a.Items(j)[a.at[j]] == b.Items(j)[b.at[j]]
    modifies a, b
    ensures Moved(a, j, n, aHasMore, allowPastEnd) && Moved(b, j, n, bHasMore, allowPastEnd) && n > 0
    ensures Alike(a.Items(j), old(a.at[j]), b.Items(j), old(b.at[j]), n)
    decreases a.h - j, 0
  {
    hide Alike, Placed, HasDepth, Distinct, ChunksAt, ItemsAt, Start;
    ReadyFacts(a, j);
    ReadyFacts(b, j);
    if j < a.h && j < b.h && Same(a, b, j + 1) {
      ReadyFacts(a, j + 1);
      ReadyFacts(b, j + 1);
      aHasMore, bHasMore, n := SkipChunks(j, allowPastEnd, a, b);
    } else {
      OneAlike(a.Items(j), a.at[j], b.Items(j), b.at[j]);
      aHasMore := a.AdvanceMaybeAllowPastEnd(j, allowPastEnd);
      bHasMore := b.AdvanceMaybeAllowPastEnd(j, allowPastEnd);
      n := 1;
    }
  }

  /** The levels above are at the same chunk: moves those, and then loads the chunks they have come to. */
  method SkipChunks<V(==)>(j: nat, allowPastEnd: bool, a: Cursor<V>, b: Cursor<V>)
    returns (aHasMore: bool, bHasMore: bool, ghost n: nat)
    requires a != b && Ready(a, j) && Ready(b, j) && a.Items(j)[a.at[j]] == b.Items(j)[b.at[j]]
    requires j < a.h && j < b.h && a.Items(j + 1)[a.at[j + 1]] == b.Items(j + 1)[b.at[j + 1]]
    modifies a, b
    ensures Moved(a, j, n, aHasMore, allowPastEnd) && Moved(b, j, n, bHasMore, allowPastEnd) && n > 0
    ensures Alike(a.Items(j), old(a.at[j]), b.Items(j), old(b.at[j]), n)
    decreases a.h - j, 0, 1
  {
    hide Alike, Placed, HasDepth, Distinct, ChunksAt, ItemsAt, Start, Due;
    ghost var p, q := a.at[j], b.at[j];
    aHasMore, bHasMore, n := ForwardAbove(j, a, b, p, q);
    SyncBoth(a, b, j, aHasMore, bHasMore, allowPastEnd, p, q, n);
  }

  method ForwardAbove<V(==)>(j: nat, a: Cursor<V>, b: Cursor<V>, ghost p: nat, ghost q: nat)
    returns (aHasMore: bool, bHasMore: bool, ghost n: nat)
    requires a != b && Ready(a, j) && Ready(b, j) && p == a.at[j] && q == b.at[j] && a.Items(j)[p] == b.Items(j)[q]
    requires j < a.h && j < b.h && a.Items(j + 1)[a.at[j + 1]] == b.Items(j + 1)[b.at[j + 1]]
    modifies a, b
    ensures a.From(j + 1) && b.From(j + 1)
    ensures Due(a, j, aHasMore, p + n) && Due(b, j, bHasMore, q + n) && n > 0
    ensures Alike(a.Items(j), p, b.Items(j), q, n)
    decreases a.h - j, 0, 0
  {
    hide Alike, Placed, HasDepth, Distinct, ChunksAt, ItemsAt, Start;
    InChunk(a, j);
    InChunk(b, j);
    ghost var c, d, i, k := a.at[j + 1], b.at[j + 1], a.frames[j].idx, b.frames[j].idx;
    ghost var m;
    aHasMore, bHasMore, m := DoFastForward(j + 1, false, a, b);
    n := Skipped(a, b, j, p, q, c, d, i, k, m);
  }

  /** What the level above says about where level `j` has to go. */
  ghost predicate Due<V>(cur: Cursor<V>, j: nat, hasMore: bool, q: nat)
    reads cur
  {
    && j < cur.h && Ready(cur, j + 1)
    && (if hasMore then q == Start(ChunksAt(cur.root, cur.h, j), cur.at[j + 1]) < |cur.Items(j)|
        else cur.at[j + 1] + 1 == |cur.Items(j + 1)| && q == |cur.Items(j)|)
  }

  method SyncBoth<V>(a: Cursor<V>, b: Cursor<V>, j: nat, aHasMore: bool, bHasMore: bool, allowPastEnd: bool,
                     ghost p: nat, ghost q: nat, ghost n: nat)
    requires a != b && Due(a, j, aHasMore, p + n) && Due(b, j, bHasMore, q + n)
    modifies a, b
    ensures a.Valid(j) && |a.frames| == a.h + 1 && |a.at| == a.h + 2 && a.From(j)
    ensures b.Valid(j) && |b.frames| == b.h + 1 && |b.at| == b.h + 2 && b.From(j)
    ensures Ran(|a.Items(j)|, p, n, aHasMore, allowPastEnd, a.at[j])
            && Ran(|b.Items(j)|, q, n, bHasMore, allowPastEnd, b.at[j])
  {
    hide Placed, HasDepth, Distinct, ChunksAt, ItemsAt, Start;
    SyncWithIdx(a, j, aHasMore, allowPastEnd, p, n);
    SyncWithIdx(b, j, bHasMore, allowPastEnd, q, n);
  }

  /** How many items a run of chunks covers, from somewhere in the first of them. */
  lemma Skipped<V>(a: Cursor<V>, b: Cursor<V>, j: nat, p: nat, q: nat, c: nat, d: nat, i: nat, k: nat, m: nat)
    returns (n: nat)
    requires j < a.h && j < b.h && HasDepth(a.root, a.h) && HasDepth(b.root, b.h) && Distinct(ItemsAt(a.root, a.h, 0))
    requires m > 0 && Alike(a.Items(j + 1), c, b.Items(j + 1), d, m)
    requires var xs, ys := ChunksAt(a.root, a.h, j), ChunksAt(b.root, b.h, j);
             && p == Start(xs, c) + i && i < |xs[c]| && q == Start(ys, d) + k && k < |ys[d]| && xs[c][i] == ys[d][k]
    ensures n > 0 && Alike(a.Items(j), p, b.Items(j), q, n)
    ensures p + n == Start(ChunksAt(a.root, a.h, j), c + m) && q + n == Start(ChunksAt(b.root, b.h, j), d + m)
    ensures c + m < |a.Items(j + 1)| ==> p + n < |a.Items(j)|
    ensures c + m == |a.Items(j + 1)| ==> p + n == |a.Items(j)|
    ensures d + m < |b.Items(j + 1)| ==> q + n < |b.Items(j)|
    ensures d + m == |b.Items(j + 1)| ==> q + n == |b.Items(j)|
  {
    hide HasDepth, Distinct, ChunksAt, Alike;
    var xs, ys := ChunksAt(a.root, a.h, j), ChunksAt(b.root, b.h, j);
    SameChunks(a.root, a.h, b.root, b.h, j, c, d, m);
    DistinctLevels(a.root, a.h, j);
    SameIndex(xs, c, i, k);
    ChunksRun(xs, c, ys, d, m);
    StartMonotone(xs, c + 1, c + m);
    n := Start(xs, c + m) - p;
    SuffixRun(Flatten(xs), Start(xs, c), Flatten(ys), Start(ys, d), Start(xs, c + m) - Start(xs, c), i);
    EndOfRun(a.root, a.h, j, c + m);
    EndOfRun(b.root, b.h, j, d + m);
  }

  /** Equal tuples have equal chunks below them. */
  lemma SameChunks<V>(aRoot: Level<V>, aHeight: nat, bRoot: Level<V>, bHeight: nat, j: nat, c: nat, d: nat, m: nat)
    requires j < aHeight && j < bHeight && m > 0
    requires Alike(ItemsAt(aRoot, aHeight, j + 1), c, ItemsAt(bRoot, bHeight, j + 1), d, m)
    ensures var xs, ys := ChunksAt(aRoot, aHeight, j), ChunksAt(bRoot, bHeight, j);
            && |xs| == |ItemsAt(aRoot, aHeight, j + 1)| && |ys| == |ItemsAt(bRoot, bHeight, j + 1)|
            && c + m <= |xs| && d + m <= |ys| && xs[c] == ys[d] && forall i :: c <= i < c + m ==> xs[i] == ys[i - c + d]
  {
    hide ItemsAt;
    assert ItemsAt(aRoot, aHeight, j + 1)[c] == ItemsAt(bRoot, bHeight, j + 1)[c - c + d];
  }

  lemma OneAlike<X>(f: seq<X>, a: nat, g: seq<X>, b: nat)
    requires a < |f| && b < |g| && f[a] == g[b]
    ensures Alike(f, a, g, b, 1)
  {
  }

  lemma SuffixRun<X>(f: seq<X>, a: nat, g: seq<X>, b: nat, n: nat, i: nat)
    requires Alike(f, a, g, b, n) && i <= n
    ensures Alike(f, a + i, g, b + i, n - i)
  {
  }

  lemma EndOfRun<V>(root: Level<V>, h: nat, j: nat, c: nat)
    requires HasDepth(root, h) && j < h && c <= |ItemsAt(root, h, j + 1)|
    ensures var chunks := ChunksAt(root, h, j);
            && (c < |chunks| ==> Start(chunks, c) < |ItemsAt(root, h, j)|)
               && (c == |chunks| ==> Start(chunks, c) == |ItemsAt(root, h, j)|)
  {
    var chunks := ChunksAt(root, h, j);
    ChunksNonEmpty(root, h, j);
    StartEnd(chunks);
    if c < |chunks| {
      StartMonotone(chunks, c + 1, |chunks|);
    }
  }
}
