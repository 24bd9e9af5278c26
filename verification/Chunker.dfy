/**
 The chunker of one level.  What it does to the level above is recorded: the chunks it hands up
 (`emitted`) and how many chunks of the old level it tells its parent to skip (`parentSkips`).
 */
module Chunker {
  import opened ByteSeqs
  import opened BuzHash
  import opened Chunking
  import opened RollingHasher
  import opened LevelCursors

  // ---------- old levels ----------

  /** A level as a tree stores it: the chunk list of its items `f`, or one empty leaf when there are none. */
  ghost predicate Canonical<T>(cfg: Config, prior: seq<seq<Item<T>>>, f: seq<Item<T>>) {
    if f == [] then prior == [[]] else prior == ChunkList(cfg, f)
  }

  lemma Shape<T>(cfg: Config, prior: seq<seq<Item<T>>>, f: seq<Item<T>>)
    requires Canonical(cfg, prior, f)
    ensures prior != [] && Flatten(prior) == f && (|prior| > 1 ==> NonEmpty(prior)) && (f != [] ==> NonEmpty(prior))
    ensures Start(prior, |prior|) == |f|
  {
    ChunkListPartitions(cfg, f);
    StartEnd(prior);
    assert f == [] ==> Flatten(prior) == [];
  }

  /**
   A new level `full` is chunked into the chunks closed by explicit boundaries, those pending at its end
   and the rest, which are re-used from the old level.
   */
  ghost predicate Rechunked<T>(cfg: Config, full: seq<Item<T>>, closed: seq<seq<Item<T>>>, pending: seq<Item<T>>,
                               rest: seq<seq<Item<T>>>) {
    && ChunkList(cfg, full) == Run(closed, pending).All() + rest
    && closed <= Scratch(cfg, full, |full|).chunks
    && (rest != [] ==> pending == [] && closed != [])
  }

  /** In an old level, an item before the last ends a chunk exactly when it crosses a boundary. */
  lemma OldBoundary<T>(cfg: Config, prior: seq<seq<Item<T>>>, f: seq<Item<T>>, c: nat, i: nat)
    requires Canonical(cfg, prior, f) && c < |prior| && i < |prior[c]|
    requires Start(prior, c) + i + 1 < |f|
    ensures var k := Start(prior, c) + i;
            Crosses(cfg, Window(cfg, f, 0, k), f[k].bytes) == (i + 1 == |prior[c]|)
  {
    var k := Start(prior, c) + i;
    Shape(cfg, prior, f);
    ScratchNext(cfg, f, k + 1);
    hide Flatten, ChunkList, Scratch, Window, Crosses;
    if i + 1 < |prior[c]| {
      OpenAt(cfg, f, c, i + 1, k + 1);
    } else {
      OpenAt(cfg, f, c + 1, 0, k + 1);
    }
  }

  /**
   In a level chunked from scratch an item other than the last ends a chunk exactly if the hash of the last bytes of the
   level is a boundary after one of its own bytes.
   */
  lemma BoundaryExactly<T>(cfg: Config, prior: seq<seq<Item<T>>>, f: seq<Item<T>>, c: nat, i: nat)
    requires Canonical(cfg, prior, f) && c < |prior| && i < |prior[c]| && Start(prior, c) + i + 1 < |f|
    ensures var k := Start(prior, c) + i;
            i + 1 == |prior[c]| <==>
            exists j :: 0 < j <= |f[k].bytes| && cfg.hits(Last(Bytes(f, 0, k) + f[k].bytes[..j], cfg.window))
  {
    var k := Start(prior, c) + i;
    OldBoundary(cfg, prior, f, c, i);
    WindowIsLast(cfg, f, 0, k);
    CrossesExactly(cfg, Window(cfg, f, 0, k), f[k].bytes, |f[k].bytes|);
    hide Window, Bytes, Canonical;
    forall j | 0 < j <= |f[k].bytes|
      ensures Last(Window(cfg, f, 0, k) + f[k].bytes[..j], cfg.window) ==
              Last(Bytes(f, 0, k) + f[k].bytes[..j], cfg.window) {
      LastLast(Bytes(f, 0, k), f[k].bytes[..j], cfg.window);
    }
  }

  /** Whether chunking up to `k` leaves a chunk open. */
  lemma OpenAt<T>(cfg: Config, f: seq<Item<T>>, c: nat, i: nat, k: nat)
    requires var cl := ChunkList(cfg, f);
             c < |cl| && i < |cl[c]| && k == Start(cl, c) + i
    ensures k < |f| && (Scratch(cfg, f, k).pending == []) == (i == 0)
  {
    ScratchPrefix(cfg, f, c, i);
  }

  /** From boundaries with the same hash window, like items (up to `k` and `l`) are chunked alike. */
  lemma {:induction false} Parallel<T>(cfg: Config, g: seq<Item<T>>, b: nat, k: nat, f: seq<Item<T>>, a: nat, l: nat,
                                       y: seq<seq<Item<T>>>, x: seq<seq<Item<T>>>)
    requires b <= k && k - b == l - a && Alike(g, b, f, a, k - b)
    requires Window(cfg, g, 0, b) == Window(cfg, f, 0, a)
    requires Scratch(cfg, g, b) == Run(y, []) && Scratch(cfg, f, a) == Run(x, [])
    ensures var s, r := Scratch(cfg, g, k), Scratch(cfg, f, l);
            && |y| <= |s.chunks| && r == Run(x + s.chunks[|y|..], s.pending)
            && Window(cfg, g, 0, k) == Window(cfg, f, 0, l)
    decreases k
  {
    if b == k {
      assert x + y[|y|..] == x;
    } else {
      Parallel(cfg, g, b, k - 1, f, a, l - 1, y, x);
      assert g[k - 1] == f[k - 1 - b + a];
      ScratchNext(cfg, g, k);
      ScratchNext(cfg, f, l);
      hide Scratch, Window, Step, Alike;
      StepAlike(cfg, Window(cfg, g, 0, k - 1), Scratch(cfg, f, l - 1), Scratch(cfg, g, k - 1), g[k - 1], x, |y|);
    }
  }

  lemma WindowNext<T>(cfg: Config, f: seq<Item<T>>, m: nat, k: nat)
    requires k < |f|
    ensures m <= k ==> Window(cfg, f, m, k + 1) == Last(Window(cfg, f, m, k) + f[k].bytes, cfg.window)
  {
  }

  lemma ScratchNext<T>(cfg: Config, f: seq<Item<T>>, k: nat)
    requires 0 < k <= |f|
    ensures Scratch(cfg, f, k) == Step(cfg, Window(cfg, f, 0, k - 1), Scratch(cfg, f, k - 1), f[k - 1])
    ensures Window(cfg, f, 0, k) == Last(Window(cfg, f, 0, k - 1) + f[k - 1].bytes, cfg.window)
  {
  }

  /** Chunks closed earlier do not influence the next step. */
  lemma StepShift<T>(cfg: Config, w: seq<Byte>, kept: seq<seq<Item<T>>>, r: Run<T>, item: Item<T>)
    ensures var s := Step(cfg, w, r, item);
            Step(cfg, w, Run(kept + r.chunks, r.pending), item) == Run(kept + s.chunks, s.pending)
  {
    var c := r.pending + [item];
    assert kept + (r.chunks + [c]) == kept + r.chunks + [c];
  }

  lemma StepAll<T>(cfg: Config, w: seq<Byte>, r: Run<T>, item: Item<T>)
    ensures Step(cfg, w, r, item).All() == r.chunks + [r.pending + [item]]
  {
  }

  /** The new level after one more item, given how the chunker treated it. */
  lemma FinalStep<T>(cfg: Config, full: seq<Item<T>>, j: nat, w: seq<Byte>, kept: seq<seq<Item<T>>>,
                     r: Run<T>, item: Item<T>, r': Run<T>)
    requires j < |full| && full[j] == item && w == Window(cfg, full, 0, j)
    requires Scratch(cfg, full, j) == Run(kept + r.chunks, r.pending)
    ensures r' == Step(cfg, w, r, item) ==> Scratch(cfg, full, j + 1) == Run(kept + r'.chunks, r'.pending)
    ensures j + 1 == |full| && (r' == Step(cfg, w, r, item) || r' == Run(r.chunks, r.pending + [item])) ==>
              Rechunked(cfg, full, kept + r'.chunks, r'.pending, [])
  {
    StepShift(cfg, w, kept, r, item);
    StepAll(cfg, w, Run(kept + r.chunks, r.pending), item);
    StepAll(cfg, w, r, item);
    RunAll(kept, r');
    assert kept + (r.chunks + [r.pending + [item]]) == kept + r.chunks + [r.pending + [item]];
  }

  lemma RunAll<T>(kept: seq<seq<Item<T>>>, r: Run<T>)
    ensures Run(kept + r.chunks, r.pending).All() == kept + r.All()
  {
  }

  /** Past the hash window an item crosses a boundary in the new level exactly when it did in the old one. */
  lemma PastWindow<T>(cfg: Config, prior: seq<seq<Item<T>>>, g: seq<Item<T>>, c: nat, i: nat, k: nat,
                      full: seq<Item<T>>, n: nat, p: nat)
    requires Canonical(cfg, prior, g) && c < |prior| && i < |prior[c]| && k == Start(prior, c) + i < |g|
    requires p <= k && Alike(g, p, full, n, |g| - p) && Size(g, p, k) >= cfg.window
    ensures k + 1 < |g| ==> Crosses(cfg, Window(cfg, full, 0, n + k - p), g[k].bytes) == (i + 1 == |prior[c]|)
  {
    if k + 1 < |g| {
      OldBoundary(cfg, prior, g, c, i);
      WindowForgets(cfg, g, 0, p, full, 0, n, k - p);
    }
  }

  lemma StepAlike<T>(cfg: Config, w: seq<Byte>, r: Run<T>, s: Run<T>, item: Item<T>, x: seq<seq<Item<T>>>, n: nat)
    requires n <= |s.chunks| && r == Run(x + s.chunks[n..], s.pending)
    ensures var r', s' := Step(cfg, w, r, item), Step(cfg, w, s, item);
            n <= |s'.chunks| && r' == Run(x + s'.chunks[n..], s'.pending)
  {
    var c := s.pending + [item];
    assert x + (s.chunks + [c])[n..] == x + s.chunks[n..] + [c];
  }

  /**
   Re-using old chunks: the new level `f` continues at `n` as the old level `g` does at `p`.  Once a full window
   of old bytes has passed and both are at a boundary, the remaining chunks are the old ones.
   */
  lemma Reuse<T>(cfg: Config, prior: seq<seq<Item<T>>>, g: seq<Item<T>>, c: nat, b: nat, p: nat, f: seq<Item<T>>,
                 n: nat, a: nat,
                 closed: seq<seq<Item<T>>>)
    requires Canonical(cfg, prior, g) && c < |prior| && prior[c] != [] && b == Start(prior, c)
    requires p <= b <= |g| && a == n + b - p && |f| == n + |g| - p
    requires Alike(g, p, f, n, |g| - p) && Size(g, p, b) >= cfg.window
    requires Scratch(cfg, f, a) == Run(closed, []) && a > 0
    ensures Rechunked(cfg, f, closed, [], prior[c..])
  {
    ChunkStart(cfg, prior, g, c, b);
    ReuseWindow(cfg, g, b, p, f, n, a);
    Parallel(cfg, g, b, |g|, f, a, |f|, prior[..c], closed);
    TailOf(Scratch(cfg, g, |g|), c, closed);
  }

  lemma ChunkStart<T>(cfg: Config, prior: seq<seq<Item<T>>>, g: seq<Item<T>>, c: nat, b: nat)
    requires Canonical(cfg, prior, g) && c < |prior| && prior[c] != [] && b == Start(prior, c)
    ensures g != [] && b < |g| && Scratch(cfg, g, b) == Run(prior[..c], [])
  {
    ScratchPrefix(cfg, g, c, 0);
    assert prior[c][..0] == [];
  }

  lemma ReuseWindow<T>(cfg: Config, g: seq<Item<T>>, b: nat, p: nat, f: seq<Item<T>>, n: nat, a: nat)
    requires p <= b <= |g| && a == n + b - p
    requires Alike(g, p, f, n, |g| - p) && Size(g, p, b) >= cfg.window
    ensures Window(cfg, g, 0, b) == Window(cfg, f, 0, a) && Alike(g, b, f, a, |g| - b)
  {
    WindowForgets(cfg, g, 0, p, f, 0, n, b - p);
  }

  lemma TailOf<T>(s: Run<T>, c: nat, closed: seq<seq<Item<T>>>)
    requires c <= |s.chunks|
    ensures Run(closed + s.chunks[c..], s.pending).All() == closed + s.All()[c..]
  {
  }

  function Max(a: int, b: int): int {
    if a >= b then a else b
  }

  function Min(a: int, b: int): int {
    if a <= b then a else b
  }

  class LevelChunker<T> {
    const cfg: Config
    const cur: LevelCursor?<Item<T>>
    var rv: Hasher
    var current: seq<Item<T>>
    var emitted: seq<seq<Item<T>>>
    var parentSkips: nat
    var done: bool
    ghost var kept: seq<seq<Item<T>>>   // the old chunks before the one resumed in
    ghost var fed: seq<Item<T>>         // the old items before the resume position, then those appended

    ghost function CursorSet(): set<object> {
      if cur == null then {} else {cur}
    }

    /** What the chunker knows between calls, in terms of chunking from scratch. */
    ghost predicate Valid()
      reads this, CursorSet()
    {
      && 0 < cfg.window && !rv.lengthOnly
      && rv.window == Window(cfg, fed, 0, |fed|)
      && Scratch(cfg, fed, |fed|) == Run(kept + emitted, current)
      && (cur == null ==> kept == [])
      && (cur != null ==>
            && cur.Level() && cur.Valid() && cur.idx >= 0 && Canonical(cfg, cur.chunks, cur.items)
            && |kept| <= |cur.chunks| && kept == cur.chunks[..|kept|])
    }

    /** The parent has been told to skip exactly the chunks before the one the cursor is in. */
    ghost predicate InStep()
      reads this, CursorSet()
    {
      cur != null ==> |kept| + parentSkips == cur.ci
    }

    /** A chunker for a level that did not exist before. */
    constructor Empty(cfg: Config)
      requires 0 < cfg.window
      ensures Valid() && InStep() && this.cfg == cfg
      ensures cur == null && kept == [] && fed == [] && emitted == [] && !done
    {
      this.cfg, rv := cfg, NEW_HASHER;
      cur, current, emitted, parentSkips, done := null, [], [], 0, false;
      kept, fed := [], [];
    }

    /** A chunker resuming at a cursor into an existing level. */
    constructor At(cur: LevelCursor<Item<T>>, cfg: Config)
      requires 0 < cfg.window && cur.Level() && cur.Valid() && cur.idx >= 0 && Canonical(cfg, cur.chunks, cur.items)
      modifies cur
      ensures Valid() && InStep() && this.cfg == cfg
      ensures this.cur == cur && cur.pos == old(cur.pos) && cur.ci == old(cur.ci)
      ensures 0 <= cur.pos <= |cur.items| && fed == cur.items[..cur.pos] && kept == cur.chunks[..cur.ci] && !done
    {
      this.cfg, this.cur, rv := cfg, cur, NEW_HASHER;
      current, emitted, parentSkips, done := [], [], 0, false;
      kept, fed := [], [];
      new;
      Resume();
    }

    method Resume()
      requires cur != null && cur.Level() && cur.Valid() && cur.idx >= 0 && 0 < cfg.window
               && Canonical(cfg, cur.chunks, cur.items)
      requires rv == NEW_HASHER && current == [] && emitted == [] && parentSkips == 0
      modifies this, cur
      ensures Valid() && InStep()
      ensures cur.pos == old(cur.pos) && cur.ci == old(cur.ci) && done == old(done)
      ensures 0 <= cur.pos <= |cur.items| && fed == cur.items[..cur.pos] && kept == cur.chunks[..cur.ci]
    {
      Rewind();
      kept, fed := cur.chunks[..cur.ci], cur.items[..cur.pos];
      ScratchAlike(cfg, fed, cur.items, cur.pos);
    }

    /** Walks back to fill the hash window and forward again to rebuild the open chunk. */
    method Rewind()
      requires cur != null && cur.Level() && cur.Valid() && cur.idx >= 0 && 0 < cfg.window
               && Canonical(cfg, cur.chunks, cur.items)
      requires rv == NEW_HASHER && current == [] && emitted == []
      modifies this`current, this`emitted, this`rv, cur
      ensures cur.Valid() && cur.pos == old(cur.pos) && cur.ci == old(cur.ci) && cur.idx == old(cur.idx)
              && !rv.lengthOnly
      ensures rv.window == Window(cfg, cur.items, 0, cur.pos)
      ensures Scratch(cfg, cur.items, cur.pos) == Run(cur.chunks[..cur.ci] + emitted, current)
    {
      hide Scratch, Window, Canonical, Primed, ChunkList, Flatten, Size;
      ghost var p, c, i := cur.pos, cur.ci, cur.idx;
      var cursorBeyondFinal, extra := BackFromEnd();
      ghost var q := cur.pos;
      var appendCount, primeHashCount := WalkBack();
      ghost var a, m := p - i, q - primeHashCount;
      Replay(appendCount + extra, primeHashCount + extra, cursorBeyondFinal, a, m, p);
      SamePlace(cur.chunks, c, i, cur.ci, cur.idx);
      RewindState(cfg, cur.chunks, cur.items, c, i, a, m, q, p, emitted, current);
    }

    /** A cursor past the final item steps back to it, since it may or may not be an explicit boundary. */
    method BackFromEnd() returns (cursorBeyondFinal: bool, extra: nat)
      requires cur != null && cur.Level() && cur.Valid() && cur.idx >= 0
      modifies cur
      ensures cur.Valid() && cur.idx >= 0
      ensures cursorBeyondFinal == (old(cur.idx) == |cur.chunks[old(cur.ci)]|)
      ensures extra == if cursorBeyondFinal && cur.items != [] then 1 else 0
      ensures cur.pos == old(cur.pos) - extra && cur.ci == old(cur.ci) && cur.idx == old(cur.idx) - extra
    {
      extra := 0;
      cursorBeyondFinal := cur.idx == |cur.chunks[cur.ci]|;
      if cursorBeyondFinal {
        LastPlace(cur.chunks, cur.ci);
        var ok := cur.RetreatMaybeAllowBeforeStart(false);
        if ok { extra := 1; }
      }
    }

    /** Walks back to the start of the chunk, and further until the items passed fill the hash window. */
    method WalkBack() returns (appendCount: nat, primeHashCount: nat)
      requires cur != null && cur.Level() && cur.Valid() && cur.idx >= 0 && rv == NEW_HASHER
      modifies this`rv, cur
      ensures cur.Valid() && cur.idx >= 0 && rv.window == [] && !rv.lengthOnly
      ensures appendCount == old(cur.idx) && primeHashCount <= old(cur.pos)
      ensures cur.pos == old(cur.pos) - Max(appendCount, primeHashCount) >= 0
      ensures Primed(cfg, cur.items, old(cur.pos) - primeHashCount, old(cur.pos))
    {
      rv := rv.(lengthOnly := true);
      var primeHashBytes;
      appendCount, primeHashCount, primeHashBytes := BackInChunk();
      primeHashCount := BackToFill(cur.pos + appendCount, appendCount, primeHashCount, primeHashBytes);
      rv := rv.(lengthOnly := false);
    }

    method BackInChunk() returns (appendCount: nat, primeHashCount: nat, primeHashBytes: int)
      requires cur != null && cur.Level() && cur.Valid() && cur.idx >= 0 && rv.lengthOnly && rv.window == []
      modifies this`rv, cur
      ensures cur.Valid() && cur.idx == 0 && rv.lengthOnly && rv.window == []
      ensures appendCount == old(cur.idx) && cur.pos == old(cur.pos) - appendCount && primeHashCount <= appendCount
      ensures primeHashBytes == cfg.window - Size(cur.items, old(cur.pos) - primeHashCount, old(cur.pos))
      ensures primeHashBytes > 0 ==> primeHashCount == appendCount
    {
      ghost var q := cur.pos;
      primeHashBytes := cfg.window;
      appendCount, primeHashCount := 0, 0;
      while cur.idx > 0
        invariant cur.Valid() && rv.lengthOnly && rv.window == []
        invariant cur.idx >= 0 && appendCount + cur.idx == old(cur.idx) && cur.pos == q - appendCount
        invariant primeHashCount <= appendCount
        invariant primeHashBytes == cfg.window - Size(cur.items, q - primeHashCount, q)
        invariant primeHashBytes > 0 ==> primeHashCount == appendCount
      {
        var _ := cur.RetreatMaybeAllowBeforeStart(false);
        appendCount := appendCount + 1;
        if primeHashBytes > 0 {
          primeHashCount := primeHashCount + 1;
          SizeCons(cur.items, cur.pos, q);
          var n := Measure();
          primeHashBytes := primeHashBytes - n;
        }
      }
    }

    method BackToFill(ghost q: nat, appendCount: nat, primed: nat, bytesLeft: int) returns (primeHashCount: nat)
      requires cur != null && cur.Level() && cur.Valid() && cur.idx == 0 && rv.lengthOnly && rv.window == []
      requires primed <= appendCount && cur.pos + appendCount == q <= |cur.items|
      requires bytesLeft == cfg.window - Size(cur.items, q - primed, q)
      requires bytesLeft > 0 ==> primed == appendCount
      modifies this`rv, cur
      ensures cur.Valid() && cur.idx >= 0 && rv.lengthOnly && rv.window == []
      ensures primeHashCount <= q && cur.pos == q - Max(appendCount, primeHashCount)
      ensures Primed(cfg, cur.items, q - primeHashCount, q)
    {
      primeHashCount := primed;
      var primeHashBytes := bytesLeft;
      while primeHashBytes > 0
        invariant cur.Valid() && cur.idx >= 0 && rv.lengthOnly && rv.window == []
        invariant primeHashCount <= q && cur.pos == q - Max(appendCount, primeHashCount)
        invariant primeHashBytes > 0 ==> primeHashCount >= appendCount
        invariant primeHashBytes == cfg.window - Size(cur.items, q - primeHashCount, q)
        decreases cur.pos
      {
        var ok := cur.RetreatMaybeAllowBeforeStart(false);
        if !ok {
          break;
        }
        primeHashCount := primeHashCount + 1;
        SizeCons(cur.items, cur.pos, q);
        var n := Measure();
        primeHashBytes := primeHashBytes - n;
      }
    }

    /** The number of bytes the item under the cursor feeds to the hasher. */
    method Measure() returns (n: nat)
      requires cur != null && cur.Level() && cur.Valid() && cur.IsValid() && rv.lengthOnly && rv.window == []
      modifies this`rv
      ensures rv.lengthOnly && rv.window == [] && n == |cur.items[cur.pos].bytes|
    {
      cur.CurrentItem();
      HashValueMeaning(cfg, rv.ClearLastBoundary(), cur.Current().bytes);
      rv := rv.ClearLastBoundary().HashValue(cfg, cur.Current().bytes);
      n := rv.bytesHashed;
    }

    /** Moves forward again, rebuilding the open chunk and priming the hasher. */
    method Replay(appendCount0: nat, primeHashCount0: nat, cursorBeyondFinal: bool, ghost a: nat, ghost m: nat,
                  ghost p: nat)
      requires cur != null && cur.Level() && cur.Valid() && cur.idx >= 0
      requires rv.window == [] && !rv.lengthOnly && current == [] && emitted == []
      requires cur.pos == Min(a, m) <= p <= |cur.items| && appendCount0 == p - a && primeHashCount0 == p - m
      requires cursorBeyondFinal ==> (a < p && m < p) || a == m == p
      modifies this`current, this`emitted, this`rv, cur
      ensures cur.Valid() && cur.idx >= 0 && !rv.lengthOnly && cur.pos == p
      ensures rv.window == Window(cfg, cur.items, m, p)
      ensures Rebuilt(cfg, cur.items, a, m, p, p, cursorBeyondFinal, emitted, current)
    {
      var appendCount, primeHashCount := appendCount0, primeHashCount0;
      while primeHashCount > 0 || appendCount > 0
        invariant ReplayTo(a, m, p, cursorBeyondFinal)
        invariant Replaying(a, m, p, cursorBeyondFinal, appendCount, primeHashCount)
        decreases p - cur.pos
      {
        appendCount, primeHashCount := ReplayOne(appendCount, primeHashCount, cursorBeyondFinal, a, m, p);
      }
    }

    /** Replaying up to `p`, where `a` starts the rebuilt chunk and `m` the primed items. */
    ghost predicate ReplayTo(a: nat, m: nat, p: nat, beyondFinal: bool) {
      && cur != null && cur.Level() && a <= p && m <= p <= |cur.items|
      && (beyondFinal ==> (a < p && m < p) || a == m == p)
    }

    ghost predicate Replaying(a: nat, m: nat, p: nat, beyondFinal: bool, appendCount: nat, primeHashCount: nat)
      requires ReplayTo(a, m, p, beyondFinal)
      reads this`rv, this`current, this`emitted, CursorSet()
    {
      && cur.Valid() && cur.idx >= 0 && Min(a, m) <= cur.pos <= p
      && appendCount == Min(p - a, p - cur.pos) && primeHashCount == Min(p - m, p - cur.pos)
      && !rv.lengthOnly && |rv.window| <= cfg.window && rv.window == Window(cfg, cur.items, m, cur.pos)
      && Rebuilt(cfg, cur.items, a, m, cur.pos, p, beyondFinal, emitted, current)
    }

    method ReplayOne(appendCount: nat, primeHashCount: nat, cursorBeyondFinal: bool, ghost a: nat, ghost m: nat,
                     ghost p: nat)
      returns (appendLeft: nat, primeLeft: nat)
      requires ReplayTo(a, m, p, cursorBeyondFinal)
               && Replaying(a, m, p, cursorBeyondFinal, appendCount, primeHashCount)
      requires primeHashCount > 0 || appendCount > 0
      modifies this`current, this`emitted, this`rv, cur
      ensures Replaying(a, m, p, cursorBeyondFinal, appendLeft, primeLeft) && cur.pos == old(cur.pos) + 1
    {
      if primeHashCount > appendCount {
        ReplayPrime(appendCount, primeHashCount, cursorBeyondFinal, a, m, p);
        return appendCount, primeHashCount - 1;
      }
      if appendCount > primeHashCount {
        ReplayAppend(appendCount, primeHashCount, cursorBeyondFinal, a, m, p);
        return appendCount - 1, primeHashCount;
      }
      ReplayBoth(appendCount, cursorBeyondFinal, a, m, p);
      return appendCount - 1, primeHashCount - 1;
    }

    /** Before the start of the current chunk. */
    method ReplayPrime(appendCount: nat, primeHashCount: nat, cursorBeyondFinal: bool, ghost a: nat, ghost m: nat,
                       ghost p: nat)
      requires ReplayTo(a, m, p, cursorBeyondFinal)
               && Replaying(a, m, p, cursorBeyondFinal, appendCount, primeHashCount) && primeHashCount > appendCount
      modifies this`rv, cur
      ensures Replaying(a, m, p, cursorBeyondFinal, appendCount, primeHashCount - 1) && cur.pos == old(cur.pos) + 1
    {
      RebuiltStep(cfg, cur.items, a, m, cur.pos, p, cursorBeyondFinal, emitted, current);
      var item := TakeItem();
      HashItem(item, false);
    }

    /** In the current chunk, but before the hash window. */
    method ReplayAppend(appendCount: nat, primeHashCount: nat, cursorBeyondFinal: bool, ghost a: nat, ghost m: nat,
                        ghost p: nat)
      requires ReplayTo(a, m, p, cursorBeyondFinal)
               && Replaying(a, m, p, cursorBeyondFinal, appendCount, primeHashCount) && appendCount > primeHashCount
      modifies this`current, cur
      ensures Replaying(a, m, p, cursorBeyondFinal, appendCount - 1, primeHashCount) && cur.pos == old(cur.pos) + 1
    {
      RebuiltStep(cfg, cur.items, a, m, cur.pos, p, cursorBeyondFinal, emitted, current);
      var item := TakeItem();
      current := current + [item];
    }

    /** Within the current chunk and the hash window. */
    method ReplayBoth(count: nat, cursorBeyondFinal: bool, ghost a: nat, ghost m: nat, ghost p: nat)
      requires ReplayTo(a, m, p, cursorBeyondFinal) && count > 0 && Replaying(a, m, p, cursorBeyondFinal, count, count)
      modifies this`current, this`emitted, this`rv, cur
      ensures Replaying(a, m, p, cursorBeyondFinal, count - 1, count - 1) && cur.pos == old(cur.pos) + 1
    {
      hide Rebuilt, Scratch, Window, Crosses, Flatten, Canonical;
      RebuiltStep(cfg, cur.items, a, m, cur.pos, p, cursorBeyondFinal, emitted, current);
      WindowNext(cfg, cur.items, m, cur.pos);
      ghost var k := cur.pos;
      var item := TakeItem();
      HashItem(item, true);
      assert (rv.crossedBoundary && cursorBeyondFinal && count == 1)
          == (k + 1 == p && Closes(cfg, cur.items, a, m, p, cursorBeyondFinal));
      Close(item, rv.crossedBoundary && cursorBeyondFinal && count == 1);
      assert emitted == [] || emitted == [old(current) + [item]];
    }

    /** The item under the cursor, which then moves on. */
    method TakeItem() returns (item: Item<T>)
      requires cur != null && cur.Level() && cur.Valid() && cur.IsValid()
      modifies cur
      ensures cur.Valid() && cur.idx >= 0 && cur.pos == old(cur.pos) + 1 && item == cur.items[old(cur.pos)]
      ensures cur.ci == old(cur.ci) + if cur.pos < |cur.items| && cur.idx == 0 then 1 else 0
      ensures (cur.idx == 0) == (cur.pos < |cur.items| && old(cur.idx) + 1 == |cur.chunks[old(cur.ci)]|)
    {
      cur.CurrentItem();
      item := cur.Current();
      var _ := cur.AdvanceMaybeAllowPastEnd(true);
    }

    /** Hashes an item into the window; `afresh` forgets boundaries crossed earlier. */
    method HashItem(item: Item<T>, afresh: bool)
      requires !rv.lengthOnly && |rv.window| <= cfg.window
      modifies this`rv
      ensures !rv.lengthOnly && rv.window == Last(old(rv.window) + item.bytes, cfg.window)
      ensures afresh ==> rv.bytesHashed == |item.bytes|
                         && rv.crossedBoundary == Crosses(cfg, old(rv.window), item.bytes)
    {
      if afresh {
        rv := rv.ClearLastBoundary();
      }
      HashValueMeaning(cfg, rv, item.bytes);
      rv := rv.HashValue(cfg, item.bytes);
    }

    method Append(item: Item<T>)
      requires Valid()
      modifies this`rv, this`current, this`emitted, this`fed
      ensures Valid() && fed == old(fed) + [item]
    {
      AppendState(cfg, fed, item);
      StepShift(cfg, rv.window, kept, Run(emitted, current), item);
      hide Scratch, Window, Step, Canonical, Last;
      Push(item);
      fed := fed + [item];
    }

    /** Adds an item to the open chunk, which it closes if it crosses a boundary. */
    method Push(item: Item<T>)
      requires !rv.lengthOnly && |rv.window| <= cfg.window
      modifies this`rv, this`current, this`emitted
      ensures !rv.lengthOnly && rv.window == Last(old(rv.window) + item.bytes, cfg.window)
      ensures rv.bytesHashed == |item.bytes| && rv.crossedBoundary == (current == [])
      ensures Run(emitted, current) == Step(cfg, old(rv.window), Run(old(emitted), old(current)), item)
    {
      current := current + [item];
      HashItem(item, true);
      if rv.crossedBoundary {
        HandleChunkBoundary();
      }
    }

    method Skip()
      requires cur != null && Valid() && InStep()
      modifies this`parentSkips, cur
      ensures Valid() && InStep()
      ensures cur.pos == Min(old(cur.pos) + 1, |cur.items|)
    {
      var ok := cur.AdvanceMaybeAllowPastEnd(true);
      if ok && cur.idx == 0 {
        parentSkips := parentSkips + 1;
      }
    }

    /**
     Appends old items from the cursor on, until one past the hash window ends both an old and a new chunk,
     or there are no more.  Old chunks from `kept` plus the skipped ones on are then part of the new level.
     */
    method FinalizeCursor()
      requires cur != null && Valid() && InStep()
      modifies this`rv, this`current, this`emitted, this`parentSkips, cur
      ensures parentSkips > old(parentSkips) && |kept| + parentSkips <= |cur.chunks| && 0 <= old(cur.pos) <= |cur.items|
      ensures Rechunked(cfg, fed + cur.items[old(cur.pos)..], kept + emitted, current,
                        cur.chunks[|kept| + parentSkips..])
    {
      ghost var full := fed + cur.items[cur.pos..];
      if cur.IsValid() {
        FinalizeRest(cur.pos, full);
      } else {
        parentSkips := parentSkips + 1;
        assert full == fed;
        assert cur.chunks[|cur.chunks|..] == [];
      }
    }

    method FinalizeRest(ghost p: nat, ghost full: seq<Item<T>>)
      requires cur != null && Valid() && InStep() && cur.IsValid() && p == cur.pos && full == fed + cur.items[p..]
      modifies this`rv, this`current, this`emitted, this`parentSkips, cur
      ensures parentSkips > old(parentSkips) && |kept| + parentSkips <= |cur.chunks|
      ensures Rechunked(cfg, full, kept + emitted, current, cur.chunks[|kept| + parentSkips..])
    {
      StartFinalize(p, full);
      FinalizeLoop(p, full, |fed|);
    }

    lemma StartFinalize(p: nat, full: seq<Item<T>>)
      requires cur != null && Valid() && cur.IsValid() && p == cur.pos && full == fed + cur.items[p..]
      ensures Setting(p, full, |fed|) && Finalizing(p, full, |fed|, cfg.window)
    {
      ScratchAlike(cfg, fed, full, |fed|);
      AppendState(cfg, fed, cur.items[p]);
    }

    method FinalizeLoop(ghost p: nat, ghost full: seq<Item<T>>, ghost n: nat)
      requires Setting(p, full, n) && Finalizing(p, full, n, cfg.window) && SkippedTo(p, true) && cur.IsValid()
      modifies this`rv, this`current, this`emitted, this`parentSkips, cur
      ensures parentSkips > old(parentSkips) && |kept| + parentSkips <= |cur.chunks|
      ensures Rechunked(cfg, full, kept + emitted, current, cur.chunks[|kept| + parentSkips..])
    {
      var hashWindow := cfg.window as int;
      var first := true;
      while cur.IsValid() && (hashWindow > 0 || cur.idx > 0 || current != [])
        invariant Finalizing(p, full, n, hashWindow) && SkippedTo(p, first)
        invariant first ==> hashWindow > 0
        invariant parentSkips >= old(parentSkips) + if first then 0 else 1
        decreases |cur.items| - cur.pos
      {
        hashWindow := FinalizeOne(first, hashWindow, p, full, n);
        first := false;
      }
      FinalizeEnd(p, full, n, hashWindow);
    }

    /** The new level `full` continues, after its first `n` items, as the old level does at `p`. */
    ghost predicate Setting(p: nat, full: seq<Item<T>>, n: nat) {
      && 0 < cfg.window && cur != null && cur.Level() && Canonical(cfg, cur.chunks, cur.items)
      && p <= |cur.items| && |full| == n + |cur.items| - p && Alike(cur.items, p, full, n, |cur.items| - p)
    }

    /** Old items from `p` up to the cursor have been appended. */
    ghost predicate Finalizing(p: nat, full: seq<Item<T>>, n: nat, hashWindow: int)
      requires Setting(p, full, n)
      reads this`rv, this`current, this`emitted, this`kept, CursorSet()
    {
      && !rv.lengthOnly && |rv.window| <= cfg.window
      && cur.Valid() && cur.idx >= 0 && p <= cur.pos <= |cur.items|
      && Hashing(p, full, n, hashWindow, cur.pos, rv.window)
      && (if cur.pos < |cur.items|
          then Scratch(cfg, full, n + cur.pos - p) == Run(kept + emitted, current)
          else Rechunked(cfg, full, kept + emitted, current, []))
    }

    /** Either the hasher still follows the new level, or a full window of old items has passed. */
    ghost predicate Hashing(p: nat, full: seq<Item<T>>, n: nat, hashWindow: int, pos: nat, window: seq<Byte>)
      requires Setting(p, full, n) && p <= pos <= |cur.items|
    {
      if hashWindow > 0
      then hashWindow == cfg.window - Size(cur.items, p, pos) && window == Window(cfg, full, 0, n + pos - p)
      else Size(cur.items, p, pos) >= cfg.window
    }

    /** The parent skips the chunks before the cursor's, and the cursor's own once an item of it has been appended. */
    ghost predicate SkippedTo(p: nat, first: bool)
      requires cur != null
      reads this`kept, this`parentSkips, CursorSet()
    {
      && cur.Valid() && first == (cur.pos == p)
      && |kept| + parentSkips == if first || (cur.IsValid() && cur.idx == 0) then cur.ci else cur.ci + 1
    }

    method FinalizeOne(first: bool, hashWindow: int, ghost p: nat, ghost full: seq<Item<T>>, ghost n: nat)
      returns (windowLeft: int)
      requires Setting(p, full, n) && Finalizing(p, full, n, hashWindow) && SkippedTo(p, first) && cur.IsValid()
      modifies this`rv, this`current, this`emitted, this`parentSkips, cur
      ensures Finalizing(p, full, n, windowLeft) && SkippedTo(p, false) && cur.pos == old(cur.pos) + 1
      ensures parentSkips >= old(parentSkips) + if first then 1 else 0
    {
      EnterChunk(first, p);
      if hashWindow > 0 {
        windowLeft := FinalizeHashed(hashWindow, p, full, n);
      } else {
        windowLeft := hashWindow;
        FinalizeOld(hashWindow, p, full, n);
      }
    }

    /** A chunk of the old level that is stepped into will not exist in the new one: the parent skips it. */
    method EnterChunk(first: bool, ghost p: nat)
      requires cur != null && SkippedTo(p, first) && cur.IsValid()
      modifies this`parentSkips
      ensures |kept| + parentSkips == cur.ci + 1
      ensures parentSkips >= old(parentSkips) + if first then 1 else 0
    {
      if first || cur.idx == 0 {
        parentSkips := parentSkips + 1;
      }
    }

    /** Within the hash window, items are hashed to find the new boundaries. */
    method FinalizeHashed(hashWindow: int, ghost p: nat, ghost full: seq<Item<T>>, ghost n: nat)
      returns (windowLeft: int)
      requires Setting(p, full, n) && Finalizing(p, full, n, hashWindow) && cur.IsValid() && hashWindow > 0
      modifies this`rv, this`current, this`emitted, cur
      ensures Finalizing(p, full, n, windowLeft) && cur.pos == old(cur.pos) + 1
      ensures cur.ci == old(cur.ci) + if cur.IsValid() && cur.idx == 0 then 1 else 0
    {
      hide Scratch, Canonical, Rechunked, Flatten;
      ghost var r, w, j := Run(emitted, current), rv.window, n + cur.pos - p;
      assert cur.items[cur.pos] == full[j];
      WindowNext(cfg, full, 0, j);
      var item := TakeItem();
      Push(item);
      windowLeft := hashWindow - rv.bytesHashed;
      FinalStep(cfg, full, j, w, kept, r, item, Run(emitted, current));
    }

    /** Past the hash window, boundaries are where they were. */
    method FinalizeOld(hashWindow: int, ghost p: nat, ghost full: seq<Item<T>>, ghost n: nat)
      requires Setting(p, full, n) && Finalizing(p, full, n, hashWindow) && cur.IsValid() && hashWindow <= 0
      modifies this`current, this`emitted, cur
      ensures Finalizing(p, full, n, hashWindow) && cur.pos == old(cur.pos) + 1
      ensures cur.ci == old(cur.ci) + if cur.IsValid() && cur.idx == 0 then 1 else 0
    {
      hide Flatten, Scratch, Canonical, Rechunked, Window;
      ghost var r, j := Run(emitted, current), n + cur.pos - p;
      ghost var w := Window(cfg, full, 0, j);
      PastWindow(cfg, cur.chunks, cur.items, cur.ci, cur.idx, cur.pos, full, n, p);
      assert cur.items[cur.pos] == full[j];
      var item := TakeItem();
      Close(item, cur.idx == 0);
      assert cur.pos < |cur.items| ==> Run(emitted, current) == Step(cfg, w, r, item);
      FinalStep(cfg, full, j, w, kept, r, item, Run(emitted, current));
    }

    method Close(item: Item<T>, isBoundary: bool)
      modifies this`current, this`emitted
      ensures if isBoundary then emitted == old(emitted) + [old(current) + [item]] && current == []
              else emitted == old(emitted) && current == old(current) + [item]
    {
      current := current + [item];
      if isBoundary {
        HandleChunkBoundary();
      }
    }

    lemma FinalizeEnd(p: nat, full: seq<Item<T>>, n: nat, hashWindow: int)
      requires Setting(p, full, n) && Finalizing(p, full, n, hashWindow) && SkippedTo(p, false)
      requires cur.IsValid() ==> hashWindow <= 0 && cur.idx == 0 && current == []
      ensures |kept| + parentSkips <= |cur.chunks|
      ensures Rechunked(cfg, full, kept + emitted, current, cur.chunks[|kept| + parentSkips..])
    {
      if cur.IsValid() {
        Reuse(cfg, cur.chunks, cur.items, cur.ci, cur.pos, p, full, n, n + cur.pos - p, kept + emitted);
      } else {
        assert cur.chunks[|cur.chunks|..] == [];
      }
    }

    lemma NewLevelEnds()
      requires Valid() && cur == null
      ensures Rechunked(cfg, fed, emitted, current, [])
    {
      assert kept + emitted == emitted;
    }

    /** Ends this level: `emitted`, then `current`, then the old chunks that were not skipped complete the new level. */
    method Done()
      requires Valid() && InStep() && !done
      modifies this`rv, this`current, this`emitted, this`parentSkips, this`done, CursorSet()
      ensures done
      ensures cur == null ==> Rechunked(cfg, fed, emitted, current, [])
      ensures cur != null ==>
                && parentSkips > old(parentSkips) && |kept| + parentSkips <= |cur.chunks|
                && 0 <= old(cur.pos) <= |cur.items|
                && Rechunked(cfg, fed + cur.items[old(cur.pos)..], kept + emitted, current,
                             cur.chunks[|kept| + parentSkips..])
    {
      hide Rechunked, Scratch, Window, Canonical;
      if cur == null {
        NewLevelEnds();
      }
      done := true;
      if cur != null {
        FinalizeCursor();
      }
    }

    method HandleChunkBoundary()
      requires current != []
      modifies this`current, this`emitted
      ensures emitted == old(emitted) + [old(current)] && current == []
    {
      emitted := emitted + [current];
      current := [];
    }
  }

  /** One more item, chunked from scratch. */
  lemma AppendState<T>(cfg: Config, n: seq<Item<T>>, item: Item<T>)
    ensures var w := Window(cfg, n, 0, |n|);
            && |w| <= cfg.window
            && Window(cfg, n + [item], 0, |n| + 1) == Last(w + item.bytes, cfg.window)
            && Scratch(cfg, n + [item], |n| + 1) == Step(cfg, w, Scratch(cfg, n, |n|), item)
  {
    ScratchAlike(cfg, n, n + [item], |n|);
  }

  /** The items from `s` up to `q` fill the hash window, or there are no more before them. */
  ghost predicate Primed<T>(cfg: Config, f: seq<Item<T>>, s: nat, q: nat) {
    s <= q <= |f| && (s == 0 || Size(f, s, q) >= cfg.window)
  }

  /** Whether the final item, hashed after the primed ones, closes its chunk. */
  ghost predicate Closes<T>(cfg: Config, f: seq<Item<T>>, a: nat, m: nat, p: nat, beyondFinal: bool)
    requires p <= |f|
  {
    beyondFinal && a < p && m < p && Crosses(cfg, Window(cfg, f, m, p - 1), f[p - 1].bytes)
  }

  /** The state of the rebuilt chunk, which starts at `a`, when `k` of the `p` items have been passed. */
  ghost predicate Rebuilt<T>(cfg: Config, f: seq<Item<T>>, a: nat, m: nat, k: nat, p: nat, beyondFinal: bool,
                             emitted: seq<seq<Item<T>>>, current: seq<Item<T>>)
    requires a <= p && k <= p <= |f|
  {
    if k == p && Closes(cfg, f, a, m, p, beyondFinal) then emitted == [f[a..p]] && current == []
    else emitted == [] && current == if a <= k then f[a..k] else []
  }

  lemma RebuiltStep<T>(cfg: Config, f: seq<Item<T>>, a: nat, m: nat, k: nat, p: nat, beyondFinal: bool,
                       emitted: seq<seq<Item<T>>>, current: seq<Item<T>>)
    requires a <= p && k < p <= |f| && Rebuilt(cfg, f, a, m, k, p, beyondFinal, emitted, current)
    ensures emitted == []
    ensures k < a ==> Rebuilt(cfg, f, a, m, k + 1, p, beyondFinal, emitted, current)
    ensures a <= k && !(k + 1 == p && Closes(cfg, f, a, m, p, beyondFinal)) ==>
              Rebuilt(cfg, f, a, m, k + 1, p, beyondFinal, emitted, current + [f[k]])
    ensures a <= k && k + 1 == p && Closes(cfg, f, a, m, p, beyondFinal) ==>
              Rebuilt(cfg, f, a, m, k + 1, p, beyondFinal, [current + [f[k]]], [])
  {
    if a <= k {
      assert f[a..k] + [f[k]] == f[a..k + 1];
    }
  }

  /** Priming with items that fill the window is as good as hashing everything. */
  lemma PrimedWindow<T>(cfg: Config, f: seq<Item<T>>, s: nat, q: nat)
    requires Primed(cfg, f, s, q)
    ensures Window(cfg, f, s, q) == Window(cfg, f, 0, q)
  {
    if s != 0 {
      WindowForgets(cfg, f, s, s, f, 0, s, q - s);
    }
  }

  lemma ChunkSlice<X>(chunks: seq<seq<X>>, c: nat, i: nat, s: nat, p: nat)
    requires c < |chunks| && i <= |chunks[c]| && s == Start(chunks, c) && p == s + i
    ensures p <= |Flatten(chunks)| && Flatten(chunks)[s..p] == chunks[c][..i]
  {
    ChunkAt(chunks, c);
  }

  /** What resuming at an item establishes: `a` starts its chunk, `s` starts the primed items. */
  lemma ResumeInside<T>(cfg: Config, prior: seq<seq<Item<T>>>, f: seq<Item<T>>, c: nat, i: nat, a: nat, s: nat, p: nat)
    requires Canonical(cfg, prior, f) && c < |prior| && i < |prior[c]|
    requires a == Start(prior, c) && p == a + i <= |f| && Primed(cfg, f, s, p)
    ensures Window(cfg, f, s, p) == Window(cfg, f, 0, p)
    ensures Scratch(cfg, f, p) == Run(prior[..c], f[a..p])
  {
    Shape(cfg, prior, f);
    PrimedWindow(cfg, f, s, p);
    ScratchPrefix(cfg, f, c, i);
    ChunkSlice(prior, c, i, a, p);
  }

  /** What resuming after the final item establishes: it closes its chunk exactly when the primed hasher says so. */
  lemma ResumeBeyond<T>(cfg: Config, prior: seq<seq<Item<T>>>, f: seq<Item<T>>, c: nat, a: nat, s: nat, q: nat)
    requires Canonical(cfg, prior, f) && f != [] && c == |prior| - 1 && a == Start(prior, c)
    requires q == |f| - 1 && Primed(cfg, f, s, q)
    ensures a <= q && Window(cfg, f, s, |f|) == Window(cfg, f, 0, |f|)
    ensures Scratch(cfg, f, |f|) == if Crosses(cfg, Window(cfg, f, s, q), f[q].bytes)
                                    then Run(prior[..c] + [f[a..|f|]], []) else Run(prior[..c], f[a..|f|])
  {
    Shape(cfg, prior, f);
    ScratchNext(cfg, f, |f|);
    WindowNext(cfg, f, s, q);
    hide Scratch, Flatten, Canonical, Crosses;
    ResumeInside(cfg, prior, f, c, |prior[c]| - 1, a, s, q);
    assert f[a..q] + [f[q]] == f[a..|f|];
  }

  lemma LastPlace<X>(chunks: seq<seq<X>>, c: nat)
    requires c < |chunks| && c == |chunks| - 1 && (|chunks| > 1 ==> NonEmpty(chunks))
    ensures Start(chunks, c) + |chunks[c]| == |Flatten(chunks)| && (Flatten(chunks) != [] ==> chunks[c] != [])
  {
    StartEnd(chunks);
  }

  /** What rewinding to `s` from `q`, before `p`, and replaying to `p` establishes. */
  lemma RewindState<T>(cfg: Config, prior: seq<seq<Item<T>>>, f: seq<Item<T>>, c: nat, i: nat, a: nat, s: nat, q: nat,
                       p: nat,
                       emitted: seq<seq<Item<T>>>, current: seq<Item<T>>)
    requires Canonical(cfg, prior, f) && c < |prior| && i <= |prior[c]| && (i == |prior[c]| ==> c == |prior| - 1)
    requires a == Start(prior, c) && p == a + i <= |f| && Primed(cfg, f, s, q)
    requires q == if i == |prior[c]| && f != [] then p - 1 else p
    requires Rebuilt(cfg, f, a, s, p, p, i == |prior[c]|, emitted, current)
    ensures Window(cfg, f, s, p) == Window(cfg, f, 0, p)
    ensures Scratch(cfg, f, p) == Run(prior[..c] + emitted, current)
  {
    assert prior[..c] + [] == prior[..c];
    if i < |prior[c]| {
      ResumeInside(cfg, prior, f, c, i, a, s, p);
    } else if f != [] {
      PlaceAtEnd(cfg, prior, f, c);
      ResumeBeyond(cfg, prior, f, c, a, s, q);
    }
  }

  lemma PlaceAtEnd<T>(cfg: Config, prior: seq<seq<Item<T>>>, f: seq<Item<T>>, c: nat)
    requires Canonical(cfg, prior, f) && c == |prior| - 1
    ensures Start(prior, c) + |prior[c]| == |f|
  {
    Shape(cfg, prior, f);
  }
}
