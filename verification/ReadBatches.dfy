/** Reading many chunks of a table: requests that are close together are read at once. */
module ReadBatches {

  /** A chunk to be read: the request it is for, which chunk of the table it is, and where it is. */
  datatype Rec = Rec(reqIdx: nat, ordinal: nat, offset: nat, length: nat)

  datatype Limits = Limits(blockSize: nat, maxReadSize: nat, ampThresh: nat)

  /** The range of a read so far, and how many bytes of it are not needed. */
  datatype Range = Range(readStart: nat, readEnd: nat, readAmp: nat)

  /** Whether the range can be extended to include one more chunk, and to what. */
  function CanReadAhead(r: Rec, g: Range, l: Limits): (Range, bool) {
    if r.offset < g.readEnd then (g.(readAmp := 0), true)
    else
      var gap := r.offset - g.readEnd;
      var amp := g.readAmp + if gap < l.blockSize then 0 else gap - l.blockSize;
      var proposedSize := r.offset + r.length - g.readStart;
      if l.ampThresh == 0 && amp > 0 then (g.(readAmp := 0), false)
      else if proposedSize > l.maxReadSize || proposedSize < l.ampThresh * amp then (g.(readAmp := 0), false)
      else (Range(g.readStart, r.offset + r.length, amp), true)
  }

  /** One physical read: its range, and the records it is for. */
  datatype Batch = Batch(readStart: nat, readEnd: nat, from: nat, to: nat)

  function RangeOf(r: Rec): Range {
    Range(r.offset, r.offset + r.length, 0)
  }

  /** How far a range goes that includes the records before `i`. */
  function Extend(recs: seq<Rec>, l: Limits, i: nat, g: Range): (r: (nat, Range))
    requires i <= |recs|
    ensures i <= r.0 <= |recs|
    decreases |recs| - i
  {
    if i < |recs| && CanReadAhead(recs[i], g, l).1 then Extend(recs, l, i + 1, CanReadAhead(recs[i], g, l).0)
       else (i, g)
  }

  /** The batch that has begun at `from` and goes on at `i`. */
  function Finish(recs: seq<Rec>, l: Limits, from: nat, i: nat, g: Range): (b: Batch)
    requires i <= |recs|
    ensures i <= b.to <= |recs| && b.from == from
  {
    var (j, h) := Extend(recs, l, i, g);
    Batch(h.readStart, h.readEnd, from, j)
  }

  /** All batches from record `i` on. */
  function Batches(recs: seq<Rec>, l: Limits, i: nat): seq<Batch>
    requires i <= |recs|
    decreases |recs| - i
  {
    if i == |recs| then []
    else
      var b := Finish(recs, l, i, i + 1, RangeOf(recs[i]));
      [b] + Batches(recs, l, b.to)
  }

  // ---------- what the batches are ----------

  /** Chunks in the order of their places; they do not overlap, but the same one may be asked for twice. */
  ghost predicate InOrder(recs: seq<Rec>) {
    forall i, j :: 0 <= i < j < |recs| ==>
      recs[i].offset + recs[i].length <= recs[j].offset
        || (recs[i].offset == recs[j].offset && recs[i].length == recs[j].length)
  }

  ghost predicate Includes(b: Batch, r: Rec) {
    b.readStart <= r.offset && r.offset + r.length <= b.readEnd
  }

  /**
   The range ends where the last record ends, starts where the first starts, and if it was extended is not too long.
   */
  ghost predicate Good(recs: seq<Rec>, l: Limits, from: nat, i: nat, start: nat, end: nat) {
    && from < i <= |recs| && start == recs[from].offset && end == recs[i - 1].offset + recs[i - 1].length
    && (end == recs[from].offset + recs[from].length || end - start <= l.maxReadSize)
  }

  lemma {:induction false} ExtendGood(recs: seq<Rec>, l: Limits, from: nat, i: nat, g: Range)
    requires InOrder(recs) && Good(recs, l, from, i, g.readStart, g.readEnd)
    ensures var (j, h) := Extend(recs, l, i, g); Good(recs, l, from, j, h.readStart, h.readEnd)
    decreases |recs| - i
  {
    if i < |recs| && CanReadAhead(recs[i], g, l).1 {
      var h := CanReadAhead(recs[i], g, l).0;
      assert recs[i - 1].offset + recs[i - 1].length <= recs[i].offset
             || (recs[i - 1].offset == recs[i].offset && recs[i - 1].length == recs[i].length);
      ExtendGood(recs, l, from, i + 1, h);
    }
  }

  /** Every record lies in the range of its batch. */
  lemma GoodIncludes(recs: seq<Rec>, l: Limits, b: Batch, k: nat)
    requires InOrder(recs) && Good(recs, l, b.from, b.to, b.readStart, b.readEnd) && b.from <= k < b.to
    ensures Includes(b, recs[k])
  {
    assert b.from < k ==> recs[b.from].offset + recs[b.from].length <= recs[k].offset
                          || recs[b.from].offset == recs[k].offset;
    assert k < b.to - 1 ==> recs[k].offset + recs[k].length <= recs[b.to - 1].offset
                            || recs[k].offset + recs[k].length == recs[b.to - 1].offset + recs[b.to - 1].length;
  }

  ghost predicate GoodBatch(recs: seq<Rec>, l: Limits, b: Batch) {
    Good(recs, l, b.from, b.to, b.readStart, b.readEnd)
  }

  /**
   The batches follow one another from record `i` to the last, none is empty, and each reads from the start of its first
   record to the end of its last one, and, if that is more than one chunk, no more than the limit.
   */
  ghost predicate Partition(recs: seq<Rec>, l: Limits, i: nat, bs: seq<Batch>) {
    && (bs == [] <==> i == |recs|)
    && (bs != [] ==> bs[0].from == i && bs[|bs| - 1].to == |recs|)
    && (forall n :: 0 <= n < |bs| ==> GoodBatch(recs, l, bs[n]))
    && (forall n :: 0 < n < |bs| ==> bs[n - 1].to == bs[n].from)
  }

  lemma ConsPartition(recs: seq<Rec>, l: Limits, b: Batch, bs: seq<Batch>)
    requires GoodBatch(recs, l, b) && Partition(recs, l, b.to, bs)
    ensures Partition(recs, l, b.from, [b] + bs)
  {
    hide Good;
    var all := [b] + bs;
    forall n | 0 < n < |all| ensures all[n - 1].to == all[n].from && GoodBatch(recs, l, all[n]) {
      assert all[n] == bs[n - 1];
      assert n > 1 ==> all[n - 1] == bs[n - 2];
    }
    NotEmpty(recs, l, b);
  }

  lemma NoBatches(recs: seq<Rec>, l: Limits)
    ensures Partition(recs, l, |recs|, [])
  {
  }

  lemma FirstGood(recs: seq<Rec>, l: Limits, i: nat)
    requires i < |recs|
    ensures Good(recs, l, i, i + 1, RangeOf(recs[i]).readStart, RangeOf(recs[i]).readEnd)
  {
  }

  lemma NotEmpty(recs: seq<Rec>, l: Limits, b: Batch)
    requires GoodBatch(recs, l, b)
    ensures b.from < b.to <= |recs|
  {
  }

  lemma {:induction false} BatchesPartition(recs: seq<Rec>, l: Limits, i: nat)
    requires InOrder(recs) && i <= |recs|
    ensures Partition(recs, l, i, Batches(recs, l, i))
    decreases |recs| - i
  {
    hide InOrder, Partition, Good;
    if i == |recs| {
      NoBatches(recs, l);
    } else {
      FirstGood(recs, l, i);
      var b := Finish(recs, l, i, i + 1, RangeOf(recs[i]));
      ExtendGood(recs, l, i, i + 1, RangeOf(recs[i]));
      BatchesPartition(recs, l, b.to);
      ConsPartition(recs, l, b, Batches(recs, l, b.to));
    }
  }

  // ---------- read amplification ----------

  /** The bytes between a record and the one before it that count as wasted: those beyond one block. */
  function Excess(recs: seq<Rec>, l: Limits, i: nat): nat
    requires 0 < i < |recs|
  {
    var gap := recs[i].offset - recs[i - 1].offset - recs[i - 1].length;
    if gap < l.blockSize then 0 else gap - l.blockSize
  }

  /** What a read of the records from `from` to `i` wastes. */
  function Waste(recs: seq<Rec>, l: Limits, from: nat, i: nat): nat
    requires i <= |recs|
  {
    if i <= from + 1 then 0 else Waste(recs, l, from, i - 1) + Excess(recs, l, i - 1)
  }

  /** The record is at the place of the one before it. */
  predicate Repeats(recs: seq<Rec>, i: nat)
    requires 0 < i < |recs|
  {
    recs[i].offset < recs[i - 1].offset + recs[i - 1].length
  }

  /** What is compared with the threshold: the waste since the last repeated place. */
  function Charged(recs: seq<Rec>, l: Limits, from: nat, i: nat): nat
    requires i <= |recs|
  {
    if i <= from + 1 || Repeats(recs, i - 1) then 0
    else Charged(recs, l, from, i - 1) + Excess(recs, l, i - 1)
  }

  /** A place is asked for again after something has been wasted. */
  ghost predicate Forgets(recs: seq<Rec>, l: Limits, from: nat, i: nat)
    requires i <= |recs|
  {
    exists r :: from < r < i && Repeats(recs, r) && Waste(recs, l, from, r) > 0
  }

  /** The waste is within the threshold: so many times the waste is no more than all that is read. */
  predicate Tolerable(l: Limits, waste: nat, size: int) {
    (l.ampThresh == 0 ==> waste == 0) && l.ampThresh * waste <= size
  }

  /** All the waste is charged exactly if none has been forgotten. */
  lemma {:induction false} ChargedExactly(recs: seq<Rec>, l: Limits, from: nat, i: nat)
    requires i <= |recs|
    ensures Charged(recs, l, from, i) <= Waste(recs, l, from, i)
    ensures Charged(recs, l, from, i) == Waste(recs, l, from, i) <==> !Forgets(recs, l, from, i)
  {
    if i > from + 1 {
      ChargedExactly(recs, l, from, i - 1);
      if Repeats(recs, i - 1) {
        assert Excess(recs, l, i - 1) == 0;
        if Forgets(recs, l, from, i) {
          var r :| from < r < i && Repeats(recs, r) && Waste(recs, l, from, r) > 0;
          WasteGrows(recs, l, from, r, i);
        }
      }
    }
  }

  lemma {:induction false} WasteGrows(recs: seq<Rec>, l: Limits, from: nat, i: nat, j: nat)
    requires i <= j <= |recs|
    ensures Waste(recs, l, from, i) <= Waste(recs, l, from, j)
  {
    if i < j {
      WasteGrows(recs, l, from, i, j - 1);
    }
  }

  lemma {:induction false} ExtendCharges(recs: seq<Rec>, l: Limits, from: nat, i: nat, g: Range)
    requires InOrder(recs) && Good(recs, l, from, i, g.readStart, g.readEnd)
    requires g.readAmp == Charged(recs, l, from, i) && Tolerable(l, g.readAmp, g.readEnd - g.readStart)
    ensures var (j, h) := Extend(recs, l, i, g);
            h.readAmp == Charged(recs, l, from, j) && Tolerable(l, h.readAmp, h.readEnd - h.readStart)
    decreases |recs| - i
  {
    if i < |recs| && CanReadAhead(recs[i], g, l).1 {
      var h := CanReadAhead(recs[i], g, l).0;
      assert recs[i - 1].offset + recs[i - 1].length <= recs[i].offset
             || (recs[i - 1].offset == recs[i].offset && recs[i - 1].length == recs[i].length);
      ExtendCharges(recs, l, from, i + 1, h);
    }
  }

  /** What a read wastes is tolerable, if no place is repeated in it after something has been wasted. */
  ghost predicate Thrifty(recs: seq<Rec>, l: Limits, b: Batch) {
    && b.from <= b.to <= |recs| && Tolerable(l, Charged(recs, l, b.from, b.to), b.readEnd - b.readStart)
    && (!Forgets(recs, l, b.from, b.to) ==> Tolerable(l, Waste(recs, l, b.from, b.to), b.readEnd - b.readStart))
  }

  lemma {:induction false} BatchesThrifty(recs: seq<Rec>, l: Limits, i: nat)
    requires InOrder(recs) && i <= |recs|
    ensures forall n :: 0 <= n < |Batches(recs, l, i)| ==> Thrifty(recs, l, Batches(recs, l, i)[n])
    decreases |recs| - i
  {
    hide InOrder, Good, Thrifty;
    if i < |recs| {
      FirstThrifty(recs, l, i);
      var b := Finish(recs, l, i, i + 1, RangeOf(recs[i]));
      BatchesThrifty(recs, l, b.to);
    }
  }

  lemma FirstThrifty(recs: seq<Rec>, l: Limits, i: nat)
    requires InOrder(recs) && i < |recs|
    ensures Thrifty(recs, l, Finish(recs, l, i, i + 1, RangeOf(recs[i])))
  {
    hide InOrder, Good, Forgets;
    var b := Finish(recs, l, i, i + 1, RangeOf(recs[i]));
    FirstGood(recs, l, i);
    ExtendCharges(recs, l, i, i + 1, RangeOf(recs[i]));
    ChargedExactly(recs, l, i, b.to);
  }

  /** A read could not have gone on: with the next record it would be too long, or waste too much. */
  ghost predicate AsLongAsAllowed(recs: seq<Rec>, l: Limits, b: Batch) {
    b.to < |recs| ==>
      var size := recs[b.to].offset + recs[b.to].length - b.readStart;
      size > l.maxReadSize || !Tolerable(l, Charged(recs, l, b.from, b.to + 1), size)
  }

  /** One more record is charged for as the limits are checked, and refused only if they say so. */
  lemma ChargesNext(recs: seq<Rec>, l: Limits, from: nat, i: nat, g: Range)
    requires InOrder(recs) && Good(recs, l, from, i, g.readStart, g.readEnd) && g.readAmp == Charged(recs, l, from, i)
    requires i < |recs|
    ensures var (h, ok) := CanReadAhead(recs[i], g, l);
            if ok then Good(recs, l, from, i + 1, h.readStart, h.readEnd) && h.readAmp == Charged(recs, l, from, i + 1)
            else AsLongAsAllowed(recs, l, Batch(g.readStart, g.readEnd, from, i))
  {
    assert recs[i - 1].offset + recs[i - 1].length <= recs[i].offset
           || (recs[i - 1].offset == recs[i].offset && recs[i - 1].length == recs[i].length);
    hide InOrder;
  }

  lemma {:induction false} ExtendFar(recs: seq<Rec>, l: Limits, from: nat, i: nat, g: Range)
    requires InOrder(recs) && Good(recs, l, from, i, g.readStart, g.readEnd) && g.readAmp == Charged(recs, l, from, i)
    ensures AsLongAsAllowed(recs, l, Finish(recs, l, from, i, g))
    decreases |recs| - i
  {
    if i < |recs| {
      ChargesNext(recs, l, from, i, g);
      if CanReadAhead(recs[i], g, l).1 {
        hide InOrder, Good, Charged, CanReadAhead, AsLongAsAllowed;
        ExtendFar(recs, l, from, i + 1, CanReadAhead(recs[i], g, l).0);
      }
    }
  }

  /** Every read is as long as the limits allow. */
  lemma {:induction false} ReadsMaximal(recs: seq<Rec>, l: Limits, i: nat)
    requires InOrder(recs) && i <= |recs|
    ensures forall n :: 0 <= n < |Batches(recs, l, i)| ==> AsLongAsAllowed(recs, l, Batches(recs, l, i)[n])
    decreases |recs| - i
  {
    hide InOrder, Good, AsLongAsAllowed;
    if i < |recs| {
      FirstGood(recs, l, i);
      ExtendFar(recs, l, i, i + 1, RangeOf(recs[i]));
      ReadsMaximal(recs, l, Finish(recs, l, i, i + 1, RangeOf(recs[i])).to);
    }
  }

  /** Records without gaps worth mentioning. */
  ghost predicate BackToBack(recs: seq<Rec>, l: Limits) {
    forall i :: 0 < i < |recs| ==> recs[i].offset - recs[i - 1].offset - recs[i - 1].length <= l.blockSize
  }

  /** Records that are back to back, and not too long together, are read at once. */
  lemma {:induction false} BackToBackAtOnce(recs: seq<Rec>, l: Limits)
    requires InOrder(recs) && recs != [] && BackToBack(recs, l)
    requires forall i :: 0 <= i < |recs| ==> recs[i].offset + recs[i].length - recs[0].offset <= l.maxReadSize
    ensures |Batches(recs, l, 0)| == 1
  {
    var b := Finish(recs, l, 0, 1, RangeOf(recs[0]));
    FirstGood(recs, l, 0);
    ExtendFar(recs, l, 0, 1, RangeOf(recs[0]));
    ExtendGood(recs, l, 0, 1, RangeOf(recs[0]));
    if b.to < |recs| {
      NothingCharged(recs, l, b.to + 1);
    }
    assert Batches(recs, l, 0) == [b] + Batches(recs, l, b.to);
  }

  lemma {:induction false} NothingCharged(recs: seq<Rec>, l: Limits, i: nat)
    requires BackToBack(recs, l) && i <= |recs|
    ensures Charged(recs, l, 0, i) == 0
  {
    if i > 0 {
      NothingCharged(recs, l, i - 1);
    }
  }

  /** A chunk asked for twice between two gaps: 32 bytes are read of which 20 are wasted, although half is the limit. */
  lemma ForgottenExample()
    ensures var recs := [Rec(0, 0, 0, 10), Rec(1, 1, 20, 1), Rec(2, 1, 20, 1), Rec(3, 2, 31, 1)];
            var l := Limits(0, 100, 2);
            && InOrder(recs) && Batches(recs, l, 0) == [Batch(0, 32, 0, 4)]
            && Waste(recs, l, 0, 4) == 20 && !Tolerable(l, Waste(recs, l, 0, 4), 32)
  {
    var recs := [Rec(0, 0, 0, 10), Rec(1, 1, 20, 1), Rec(2, 1, 20, 1), Rec(3, 2, 31, 1)];
    var l := Limits(0, 100, 2);
    assert Extend(recs, l, 4, Range(0, 32, 10)) == (4, Range(0, 32, 10));
    assert Extend(recs, l, 3, Range(0, 21, 0)) == (4, Range(0, 32, 10));
    assert Extend(recs, l, 2, Range(0, 21, 10)) == (4, Range(0, 32, 10));
    assert Extend(recs, l, 1, RangeOf(recs[0])) == (4, Range(0, 32, 10));
    assert Batches(recs, l, 4) == [];
    assert Waste(recs, l, 0, 2) == 10 && Waste(recs, l, 0, 3) == 10;
  }

  // ---------- the methods ----------

  lemma Regroup<X>(a: seq<X>, b: seq<X>, c: seq<X>)
    ensures a + (b + c) == a + b + c
  {
  }

  /** Groups the records into reads. */
  method GetManyBatches(recs: seq<Rec>, l: Limits) returns (batches: seq<Batch>)
    ensures batches == Batches(recs, l, 0)
  {
    batches := [];
    var i, from := 0, 0;
    var inBatch, g := false, Range(0, 0, 0);
    while i < |recs|
      invariant i <= |recs|
      invariant inBatch ==> from < i && batches + [Finish(recs, l, from, i, g)]
                            + Batches(recs, l, Finish(recs, l, from, i, g).to) == Batches(recs, l, 0)
      invariant !inBatch ==> batches + Batches(recs, l, i) == Batches(recs, l, 0)
      decreases |recs| - i, inBatch
    {
      var rec := recs[i];
      if !inBatch {
        inBatch, from, g := true, i, RangeOf(rec);
        i := i + 1;
        Regroup(batches, [Finish(recs, l, from, i, g)], Batches(recs, l, Finish(recs, l, from, i, g).to));
        continue;
      }
      var (newRange, canRead) := CanReadAhead(rec, g, l);
      if canRead {
        g := newRange;
        i := i + 1;
        continue;
      }
      batches, inBatch := batches + [Batch(g.readStart, g.readEnd, from, i)], false;
    }
    if inBatch {
      batches := batches + [Batch(g.readStart, g.readEnd, from, i)];
    }
  }

  /** The requests of the first `n` records. */
  function Asked(recs: seq<Rec>, n: nat): set<nat>
    requires n <= |recs|
  {
    if n == 0 then {} else Asked(recs, n - 1) + {recs[n - 1].reqIdx}
  }

  /** Every request is for one record. */
  ghost predicate OneEach(recs: seq<Rec>) {
    forall i, j :: 0 <= i < j < |recs| ==> recs[i].reqIdx != recs[j].reqIdx
  }

  lemma {:induction false} AskedIs(recs: seq<Rec>, n: nat, k: nat)
    requires OneEach(recs) && n <= |recs| && k < |recs|
    ensures recs[k].reqIdx in Asked(recs, n) <==> k < n
  {
    if n > 0 {
      AskedIs(recs, n - 1, k);
    }
  }

  /** The number of reads, where every request is for one record: as many as there are batches. */
  method CalcReads(recs: seq<Rec>, l: Limits) returns (count: nat)
    ensures OneEach(recs) ==> count == |Batches(recs, l, 0)|
    ensures count <= |recs| && (recs != [] ==> count > 0)
  {
    var satisfied: set<nat> := {};
    count := 0;
    ghost var m: nat := 0;
    for i := 0 to |recs|
      invariant count <= i && (i > 0 ==> count > 0) && (count == 0 ==> satisfied == {})
      invariant OneEach(recs) ==> i <= m <= |recs| && satisfied == Asked(recs, m)
                                  && count + |Batches(recs, l, m)| == |Batches(recs, l, 0)|
    {
      if OneEach(recs) {
        AskedIs(recs, m, i);
      }
      if recs[i].reqIdx in satisfied {
        continue;
      }
      satisfied, m := ScanAhead(recs, l, satisfied, i);
      count := count + 1;
    }
  }

  /** Marks what one read, beginning at record `i`, answers. */
  method ScanAhead(recs: seq<Rec>, l: Limits, satisfied0: set<nat>, i: nat) returns (satisfied: set<nat>, ghost m: nat)
    requires i < |recs|
    ensures OneEach(recs) && satisfied0 == Asked(recs, i) ==>
              i < m <= |recs| && m == Finish(recs, l, i, i + 1, RangeOf(recs[i])).to && satisfied == Asked(recs, m)
  {
    satisfied := satisfied0 + {recs[i].reqIdx};
    var g, canRead, j := RangeOf(recs[i]), true, i + 1;
    m := i + 1;
    ghost var once := OneEach(recs) && satisfied0 == Asked(recs, i);
    while canRead && j < |recs|
      invariant once ==> i < m <= |recs| && satisfied == Asked(recs, m) && (canRead ==> j == m)
      invariant once ==> if canRead then Extend(recs, l, i + 1, RangeOf(recs[i])) == Extend(recs, l, m, g)
                         else Extend(recs, l, i + 1, RangeOf(recs[i])).0 == m
      decreases |recs| - j
    {
      if once {
        AskedIs(recs, m, j);
      }
      if recs[j].reqIdx !in satisfied {
        var next := CanReadAhead(recs[j], g, l);
        g, canRead := next.0, next.1;
        if canRead {
          satisfied, m := satisfied + {recs[j].reqIdx}, m + 1;
        }
      }
      j := j + 1;
    }
  }
}
