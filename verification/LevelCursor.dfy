/**
 A cursor over one level of a tree: a chunk and an index in it.  The chain of parent cursors
 is represented by what this level needs of it: whether there is a next or previous chunk.
 */
module LevelCursors {
  import opened Chunking

  class LevelCursor<X> {
    const chunks: seq<seq<X>>
    ghost const items: seq<X>
    var ci: nat
    var idx: int
    ghost var pos: int  // the position among all items of the level

    ghost predicate Level() {
      && items == Flatten(chunks)
      && (|chunks| > 1 ==> NonEmpty(chunks))
    }

    /** A cursor leaves the chunks only before the very first or after the very last item. */
    ghost predicate Valid()
      reads this
    {
      && ci < |chunks|
      && pos == Start(chunks, ci) + idx && -1 <= pos <= |items|
      && -1 <= idx <= |chunks[ci]|
      && (idx == -1 ==> ci == 0)
      && (idx == |chunks[ci]| ==> ci == |chunks| - 1)
      && ((0 <= idx < |chunks[ci]|) == (0 <= pos < |items|))
    }

    constructor (chunks: seq<seq<X>>, ci: nat, idx: nat)
      requires ci < |chunks| && (|chunks| > 1 ==> NonEmpty(chunks))
      requires idx < |chunks[ci]| || (ci == |chunks| - 1 && idx == |chunks[ci]|)
      ensures Level() && Valid() && this.chunks == chunks && this.ci == ci && this.idx == idx
    {
      this.chunks, this.ci, this.idx := chunks, ci, idx;
      this.items := Flatten(chunks);
      this.pos := Start(chunks, ci) + idx;
      PlaceFacts(chunks, ci);
    }

    predicate IsValid()
      requires Valid()
      reads this
    {
      0 <= idx < |chunks[ci]|
    }

    function Current(): X
      requires Valid() && IsValid()
      reads this
    {
      chunks[ci][idx]
    }

    lemma CurrentItem()
      requires Level() && Valid() && IsValid()
      ensures Current() == items[pos]
    {
      ChunkAt(chunks, ci);
      assert items[pos] == items[Start(chunks, ci)..][idx];
    }

    /** Moves to the next item if there is one, else past the end if allowed. */
    method AdvanceMaybeAllowPastEnd(allowPastEnd: bool) returns (ok: bool)
      requires Level() && Valid()
      modifies this
      ensures Valid()
      ensures ok == (old(pos) + 1 < |items|)
      ensures pos == if ok then old(pos) + 1 else if allowPastEnd then |items| else old(pos)
      ensures old(idx) >= 0 ==> idx >= 0
      ensures ci == old(ci) + if ok && idx == 0 && old(idx) >= 0 then 1 else 0
      ensures ok && old(idx) >= 0 ==> (idx == 0) == (old(idx) + 1 == |chunks[old(ci)]|)
    {
      PlaceFacts(chunks, ci);
      if idx < |chunks[ci]| - 1 {
        idx, pos := idx + 1, pos + 1;
        return true;
      }
      if idx == |chunks[ci]| {
        return false;
      }
      if ci < |chunks| - 1 {
        PlaceFacts(chunks, ci + 1);
        ci, idx, pos := ci + 1, 0, pos + 1;
        return true;
      }
      if allowPastEnd {
        idx, pos := idx + 1, pos + 1;
      }
      return false;
    }

    /** Moves to the previous item if there is one, else before the start if allowed. */
    method RetreatMaybeAllowBeforeStart(allowBeforeStart: bool) returns (ok: bool)
      requires Level() && Valid()
      modifies this
      ensures Valid()
      ensures ok == (old(pos) > 0)
      ensures pos == if ok then old(pos) - 1 else if allowBeforeStart then -1 else old(pos)
      ensures ok ==> idx >= 0
      ensures old(idx) > 0 ==> ci == old(ci) && idx == old(idx) - 1
    {
      PlaceFacts(chunks, ci);
      if idx > 0 {
        idx, pos := idx - 1, pos - 1;
        return true;
      }
      if idx == -1 {
        return false;
      }
      if ci > 0 {
        PlaceFacts(chunks, ci - 1);
        ci, idx, pos := ci - 1, |chunks[ci - 1]| - 1, pos - 1;
        return true;
      }
      if allowBeforeStart {
        idx, pos := idx - 1, pos - 1;
      }
      return false;
    }
  }

  /** How a chunk bounds the positions of its items. */
  lemma PlaceFacts<X>(chunks: seq<seq<X>>, c: nat)
    requires c < |chunks| && (|chunks| > 1 ==> NonEmpty(chunks))
    ensures Start(chunks, c + 1) == Start(chunks, c) + |chunks[c]| <= |Flatten(chunks)|
    ensures c == |chunks| - 1 ==> Start(chunks, c) + |chunks[c]| == |Flatten(chunks)|
    ensures c == 0 ==> Start(chunks, c) == 0
    ensures c < |chunks| - 1 ==> Start(chunks, c) + |chunks[c]| < |Flatten(chunks)|
    ensures c > 0 ==> Start(chunks, c) > 0
  {
    StartMonotone(chunks, c + 1, |chunks|);
    StartEnd(chunks);
    if c < |chunks| - 1 {
      StartMonotone(chunks, c + 2, |chunks|);
    }
  }
}
