/** A cursor over a whole tree: one position at each level, each of which picks the chunk that the next one is in. */
module TreeCursors {
  import opened Chunking
  import opened ProllyTree
  import opened LevelCursors

  // ---------- the levels of a tree ----------

  function Below<V>(items: Level<V>): seq<Level<V>> {
    seq(|items|, i requires 0 <= i < |items| => ItemsOf(items[i]))
  }

  /** The chunks at distance `j` from the values, in order, for a root at distance `h`. */
  function ChunksAt<V>(root: Level<V>, h: nat, j: nat): seq<Level<V>>
    requires j <= h
    decreases h - j, 0
  {
    if j == h then [root] else Below(ItemsAt(root, h, j + 1))
  }

  function ItemsAt<V>(root: Level<V>, h: nat, j: nat): Level<V>
    requires j <= h
    decreases h - j, 1
  {
    Flatten(ChunksAt(root, h, j))
  }

  lemma {:induction false} FlattenDepth<V>(items: Level<V>, h: nat, k: nat)
    requires HasDepth(items, h) && h > 0 && k <= |items|
    ensures var f := Flatten(Below(items)[..k]); HasDepth(f, h - 1) && Leaves(f, |f|) == Leaves(items, k)
  {
    if k > 0 {
      FlattenDepth(items, h, k - 1);
      var f, more := Flatten(Below(items)[..k - 1]), ItemsOf(items[k - 1]);
      assert Below(items)[..k][..k - 1] == Below(items)[..k - 1];
      LeavesConcat(f, more, |more|);
      assert items[k - 1].value.Chunk?;
    }
  }

  /** The items at each distance from the values are as deep as that, and the values are the same all the way down. */
  lemma {:induction false} LevelsFlatten<V>(root: Level<V>, h: nat, j: nat)
    requires HasDepth(root, h) && j <= h
    ensures var g := ItemsAt(root, h, j); HasDepth(g, j) && Leaves(g, |g|) == Leaves(root, |root|)
    decreases h - j
  {
    hide *;
    if j == h {
      TopItems(root, h);
    } else {
      LevelsFlatten(root, h, j + 1);
      var g := ItemsAt(root, h, j + 1);
      FlattenDepth(g, j + 1, |g|);
      ItemsBelow(root, h, j);
    }
  }

  lemma TopItems<V>(root: Level<V>, h: nat)
    ensures ItemsAt(root, h, h) == root
  {
    FlattenOne(root);
  }

  lemma ItemsBelow<V>(root: Level<V>, h: nat, j: nat)
    requires j < h
    ensures var g := ItemsAt(root, h, j + 1); |Below(g)| == |g| && ItemsAt(root, h, j) == Flatten(Below(g)[..|g|])
  {
    var g := ItemsAt(root, h, j + 1);
    assert Below(g)[..|g|] == Below(g);
  }

  /** The lowest items are the values. */
  lemma Bottom<V>(root: Level<V>, h: nat)
    requires HasDepth(root, h)
    ensures ItemsAt(root, h, 0) == Leaves(root, |root|)
  {
    LevelsFlatten(root, h, 0);
    var g := ItemsAt(root, h, 0);
    ValuesFlatten(g, |g|);
  }

  /** The chunks at each level are not empty, unless there is nothing but an empty root. */
  lemma ChunksNonEmpty<V>(root: Level<V>, h: nat, j: nat)
    requires HasDepth(root, h) && j <= h
    ensures j < h ==> NonEmpty(ChunksAt(root, h, j))
    ensures |ChunksAt(root, h, j)| > 1 ==> NonEmpty(ChunksAt(root, h, j))
  {
    if j < h {
      LevelsFlatten(root, h, j + 1);
    }
  }

  // ---------- frames ----------

  /** A sequence of items and an index in it. */
  datatype Frame<V> = Frame(items: Level<V>, idx: nat)

  /** The frame is at item `p` of its level, in chunk `c`. */
  ghost predicate Here<V>(chunks: seq<Level<V>>, f: Frame<V>, c: nat, p: nat) {
    && c < |chunks| && f.items == chunks[c] && f.idx <= |chunks[c]| && p == Start(chunks, c) + f.idx
    && (f.idx == |chunks[c]| ==> c == |chunks| - 1)
  }

  /** From level `j` up, each frame is at position `at` of its level, in the chunk that the frame above is at. */
  ghost predicate Placed<V>(root: Level<V>, h: nat, frames: seq<Frame<V>>, at: seq<nat>, j: nat)
    decreases h + 1 - j
  {
    && |frames| == h + 1 && |at| == h + 2 && at[h + 1] == 0
    && (j <= h ==> Here(ChunksAt(root, h, j), frames[j], at[j + 1], at[j]) && Placed(root, h, frames, at, j + 1))
  }

  lemma {:induction false} PlacedAbove<V>(root: Level<V>, h: nat, frames: seq<Frame<V>>, at: seq<nat>,
                                          frames': seq<Frame<V>>, at': seq<nat>, j: nat)
    requires Placed(root, h, frames, at, j) && j <= h + 1 && |frames'| == |frames| && |at'| == |at|
    requires forall i :: j <= i <= h ==> frames'[i] == frames[i]
    requires forall i :: j <= i <= h + 1 ==> at'[i] == at[i]
    ensures Placed(root, h, frames', at', j)
    decreases h + 1 - j
  {
    if j <= h {
      PlacedAbove(root, h, frames, at, frames', at', j + 1);
    }
  }

  /** Where a frame is: inside its level if and only if inside its chunk. */
  lemma HereFacts<V>(chunks: seq<Level<V>>, f: Frame<V>, c: nat, p: nat)
    requires Here(chunks, f, c, p) && (|chunks| > 1 ==> NonEmpty(chunks))
    ensures p <= |Flatten(chunks)|
    ensures f.idx < |f.items| <==> p < |Flatten(chunks)|
    ensures f.idx < |f.items| ==> Flatten(chunks)[p] == f.items[f.idx]
    ensures f.idx + 1 < |f.items| ==> p + 1 < |Flatten(chunks)| && Here(chunks, Frame(f.items, f.idx + 1), c, p + 1)
    ensures f.idx + 1 == |f.items| ==> (c == |chunks| - 1 <==> p + 1 == |Flatten(chunks)|)
  {
    PlaceFacts(chunks, c);
    ChunkAt(chunks, c);
  }

  /** What a cursor knows of level `j`. */
  lemma PlacedHere<V>(root: Level<V>, h: nat, frames: seq<Frame<V>>, at: seq<nat>, j: nat)
    requires HasDepth(root, h) && j <= h && Placed(root, h, frames, at, j)
    ensures |frames| == h + 1 && |at| == h + 2 && Placed(root, h, frames, at, j + 1)
    ensures var chunks, f, p := ChunksAt(root, h, j), frames[j], at[j];
            && Here(chunks, f, at[j + 1], p) && p <= |ItemsAt(root, h, j)|
            && (f.idx < |f.items| <==> p < |ItemsAt(root, h, j)|)
            && (f.idx < |f.items| ==> ItemsAt(root, h, j)[p] == f.items[f.idx])
            && (f.idx + 1 < |f.items| ==> p + 1 < |ItemsAt(root, h, j)|
                                          && Here(chunks, Frame(f.items, f.idx + 1), at[j + 1], p + 1))
            && (f.idx + 1 == |f.items| ==> (at[j + 1] == |chunks| - 1 <==> p + 1 == |ItemsAt(root, h, j)|))
  {
    ChunksNonEmpty(root, h, j);
    HereFacts(ChunksAt(root, h, j), frames[j], at[j + 1], at[j]);
  }

  lemma PlacedPut<V>(root: Level<V>, h: nat, frames: seq<Frame<V>>, at: seq<nat>, j: nat, f: Frame<V>, p: nat)
    requires j <= h && Placed(root, h, frames, at, j + 1) && |frames| == h + 1 && |at| == h + 2
    requires Here(ChunksAt(root, h, j), f, at[j + 1], p)
    ensures Placed(root, h, frames[j := f], at[j := p], j)
  {
    PlacedAbove(root, h, frames, at, frames[j := f], at[j := p], j + 1);
  }

  /** The first item at every level. */
  function FirstFrames<V>(items: Level<V>, h: nat): (frames: seq<Frame<V>>)
    ensures |frames| == h + 1
    decreases h
  {
    (if h == 0 || items == [] then seq(h, _ => Frame([], 0)) else FirstFrames(ItemsOf(items[0]), h - 1))
      + [Frame(items, 0)]
  }

  /** The first chunk at distance `j` from the values. */
  lemma {:induction false} FirstChunk<V>(root: Level<V>, h: nat, j: nat)
    requires HasDepth(root, h) && root != [] && j <= h
    ensures var chunks, frames := ChunksAt(root, h, j), FirstFrames(root, h);
            && |chunks| > 0 && chunks[0] != [] && frames[j] == Frame(chunks[0], 0)
    decreases h - j
  {
    if j < h {
      FirstChunk(root, h, j + 1);
      ChunksNonEmpty(root, h, j);
      var above := ChunksAt(root, h, j + 1);
      ChunkAt(above, 0);
      LevelsFlatten(root, h, j + 1);
      assert ItemsAt(root, h, j + 1)[0] == above[0][0];
      FramesBelow(root, h, j);
    }
  }

  lemma {:induction false} FramesBelow<V>(items: Level<V>, h: nat, j: nat)
    requires HasDepth(items, h) && items != [] && j < h
    ensures var frames := FirstFrames(items, h);
            frames[j + 1].items != [] && frames[j] == Frame(ItemsOf(frames[j + 1].items[0]), 0)
    decreases h
  {
    var frames, lower := FirstFrames(items, h), FirstFrames(ItemsOf(items[0]), h - 1);
    assert items[0].value.Chunk?;
    assert frames == lower + [Frame(items, 0)];
    assert lower[h - 1] == Frame(ItemsOf(items[0]), 0);
    if j + 1 < h {
      FramesBelow(ItemsOf(items[0]), h - 1, j);
    }
  }

  lemma {:induction false} FirstPlaced<V>(root: Level<V>, h: nat, j: nat)
    requires HasDepth(root, h) && (root == [] ==> h == 0) && j <= h + 1
    ensures Placed(root, h, FirstFrames(root, h), seq(h + 2, _ => 0), j)
    decreases h + 1 - j
  {
    if j <= h {
      FirstPlaced(root, h, j + 1);
      if root != [] {
        FirstChunk(root, h, j);
      }
    }
  }

  class Cursor<V> {
    const root: Level<V>
    const h: nat
    var frames: seq<Frame<V>>
    ghost var at: seq<nat>

    /** At the very first value, or at the end of an empty root. */
    constructor (root: Level<V>, h: nat)
      requires HasDepth(root, h) && (root == [] ==> h == 0)
      ensures this.root == root && this.h == h && Valid(0) && |at| == h + 2 && at[0] == 0
    {
      this.root, this.h := root, h;
      this.frames := FirstFrames(root, h);
      this.at := seq(h + 2, _ => 0);
      FirstPlaced(root, h, 0);
    }

    ghost predicate Valid(j: nat)
      reads this
    {
      HasDepth(root, h) && Placed(root, h, frames, at, j)
    }

    ghost function Items(j: nat): Level<V>
      requires j <= h
    {
      ItemsAt(root, h, j)
    }

    /** Only levels from `j` up have changed. */
    twostate predicate From(j: nat)
      reads this
    {
      && |frames| == |old(frames)| && |at| == |old(at)|
      && (forall i :: 0 <= i < j && i < |frames| ==> frames[i] == old(frames[i]))
      && (forall i :: 0 <= i < j && i < |at| ==> at[i] == old(at[i]))
    }

    /** Moves level `j` to the next item if there is one, else past the end if allowed. */
    method AdvanceMaybeAllowPastEnd(j: nat, allowPastEnd: bool) returns (ok: bool)
      requires j <= h && Valid(j) && |at| == h + 2
      modifies this
      ensures Valid(j) && From(j)
      ensures ok == (old(at[j]) + 1 < |Items(j)|)
      ensures at[j] == if ok then old(at[j]) + 1 else if allowPastEnd then |Items(j)| else old(at[j])
      ensures !ok ==> frames == old(frames)[j := frames[j]] && at == old(at)[j := at[j]]
      ensures !ok && !allowPastEnd ==> frames == old(frames) && at == old(at)
      decreases h - j
    {
      PlacedHere(root, h, frames, at, j);
      hide Placed, Here, HasDepth;
      if frames[j].idx + 1 < |frames[j].items| {
        Put(j, Frame(frames[j].items, frames[j].idx + 1), at[j] + 1);
        return true;
      }
      if frames[j].idx == |frames[j].items| {
        return false;
      }
      ok := NextChunk(j);
      if !ok && allowPastEnd {
        PastEnd(ChunksAt(root, h, j), frames[j], at[j + 1], at[j]);
        Put(j, Frame(frames[j].items, frames[j].idx + 1), at[j] + 1);
      }
    }

    /** At the end of a chunk: moves to the start of the next one, if there is one. */
    method NextChunk(j: nat) returns (ok: bool)
      requires j <= h && Valid(j) && |frames| == h + 1 && |at| == h + 2 && frames[j].idx + 1 == |frames[j].items|
      modifies this
      ensures Valid(j) && From(j)
      ensures ok == (old(at[j]) + 1 < |Items(j)|)
      ensures ok ==> at[j] == old(at[j]) + 1
      ensures !ok ==> frames == old(frames) && at == old(at)
      decreases h - j, 0
    {
      PlacedHere(root, h, frames, at, j);
      if j == h {
        return false;
      }
      ghost var chunks := ChunksAt(root, h, j);
      ChunksNonEmpty(root, h, j);
      EndOfChunk(chunks, frames[j], at[j + 1], at[j]);
      hide Placed, Here;
      ok := AdvanceMaybeAllowPastEnd(j + 1, false);
      if ok {
        Sync(j, 0);
      }
    }

    method Put(j: nat, f: Frame<V>, ghost p: nat)
      requires j <= h && Valid(j + 1) && |frames| == h + 1 && |at| == h + 2
               && Here(ChunksAt(root, h, j), f, at[j + 1], p)
      modifies this
      ensures Valid(j) && frames == old(frames)[j := f] && at == old(at)[j := p]
    {
      PlacedPut(root, h, frames, at, j, f, p);
      frames, at := frames[j := f], at[j := p];
    }

    /** Loads the chunk that the level above points at. */
    method Sync(j: nat, idx: nat)
      requires j < h && Valid(j + 1) && |frames| == h + 1 && |at| == h + 2 && at[j + 1] < |Items(j + 1)|
      requires var chunks, c := ChunksAt(root, h, j), at[j + 1];
               c < |chunks| && Here(chunks, Frame(chunks[c], idx), c, Start(chunks, c) + idx)
      modifies this
      ensures Valid(j)
      ensures var chunks, c := ChunksAt(root, h, j), old(at[j + 1]);
              frames == old(frames)[j := Frame(chunks[c], idx)] && at == old(at)[j := Start(chunks, c) + idx]
    {
      PlacedHere(root, h, frames, at, j + 1);
      ghost var chunks := ChunksAt(root, h, j);
      var items := ItemsOf(frames[j + 1].items[frames[j + 1].idx]);
      assert items == chunks[at[j + 1]];
      Put(j, Frame(items, idx), Start(chunks, at[j + 1]) + idx);
    }
  }

  lemma PastEnd<V>(chunks: seq<Level<V>>, f: Frame<V>, c: nat, p: nat)
    requires Here(chunks, f, c, p) && f.idx + 1 == |f.items| && c == |chunks| - 1
    ensures Here(chunks, Frame(f.items, f.idx + 1), c, p + 1)
  {
  }

  lemma EndOfChunk<V>(chunks: seq<Level<V>>, f: Frame<V>, c: nat, p: nat)
    requires Here(chunks, f, c, p) && f.idx + 1 == |f.items| && (|chunks| > 1 ==> NonEmpty(chunks))
    ensures c + 1 < |chunks| ==> Here(chunks, Frame(chunks[c + 1], 0), c + 1, p + 1) && p + 1 == Start(chunks, c + 1)
  {
  }
}
