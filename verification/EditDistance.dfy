/** Edit scripts between two sequences: the distance matrix, the backtracking and the splices made of it. */
module EditDistance {
  import opened Options
  import opened Splices

  const TWO_64: nat := 0x1_0000_0000_0000_0000
  const SPLICE_UNASSIGNED: nat := TWO_64 - 1
  const DEFAULT_MAX_SPLICE_MATRIX_SIZE: nat := 20_000_000

  function Min(a: nat, b: nat): nat {
    if a < b then a else b
  }

  function Min3(a: nat, b: nat, c: nat): nat {
    if a < b then (if a < c then a else c) else (if b < c then b else c)
  }

  // ---------- the distance ----------

  /**
   The least number of removals and insertions that turn the first `i` elements of `p` from `a` on
   into the first `j` elements of `c` from `a` on.
   */
  function Dist<T(==)>(p: seq<T>, c: seq<T>, a: nat, i: nat, j: nat): nat
    requires a + i <= |p| && a + j <= |c|
    decreases i + j
  {
    if i == 0 then j
    else if j == 0 then i
    else if p[a + i - 1] == c[a + j - 1] then Dist(p, c, a, i - 1, j - 1)
    else Min(Dist(p, c, a, i - 1, j) + 1, Dist(p, c, a, i, j - 1) + 1)
  }

  /** Neighbouring entries differ by at most one. */
  lemma {:induction false} Neighbours<T>(p: seq<T>, c: seq<T>, a: nat, i: nat, j: nat)
    requires a + i <= |p| && a + j <= |c|
    ensures i > 0 ==> Close(Dist(p, c, a, i, j), Dist(p, c, a, i - 1, j))
    ensures j > 0 ==> Close(Dist(p, c, a, i, j), Dist(p, c, a, i, j - 1))
    decreases i + j
  {
    if i > 0 && j > 0 {
      Neighbours(p, c, a, i - 1, j);
      Neighbours(p, c, a, i, j - 1);
      DistStep(p, c, a, i, j);
    }
  }

  predicate Close(x: nat, y: nat) {
    x <= y + 1 && y <= x + 1
  }

  lemma DistStep<T>(p: seq<T>, c: seq<T>, a: nat, i: nat, j: nat)
    requires a + i <= |p| && a + j <= |c| && i > 0 && j > 0
    ensures Dist(p, c, a, i, j) == if p[a + i - 1] == c[a + j - 1] then Dist(p, c, a, i - 1, j - 1)
                                   else Min(Dist(p, c, a, i - 1, j), Dist(p, c, a, i, j - 1)) + 1
  {
  }

  /** An entry has the parity of the lengths it compares. */
  lemma {:induction false} Parity<T>(p: seq<T>, c: seq<T>, a: nat, i: nat, j: nat) returns (h: nat)
    requires a + i <= |p| && a + j <= |c|
    ensures Dist(p, c, a, i, j) + 2 * h == i + j
    decreases i + j
  {
    if i == 0 || j == 0 {
      h := 0;
    } else if p[a + i - 1] == c[a + j - 1] {
      h := Parity(p, c, a, i - 1, j - 1);
      h := h + 1;
    } else if Dist(p, c, a, i - 1, j) < Dist(p, c, a, i, j - 1) {
      h := Parity(p, c, a, i - 1, j);
    } else {
      h := Parity(p, c, a, i, j - 1);
    }
  }

  /** The distance is at least the difference in length. */
  lemma {:induction false} AtLeastDifference<T>(p: seq<T>, c: seq<T>, a: nat, i: nat, j: nat)
    requires a + i <= |p| && a + j <= |c|
    ensures j <= i + Dist(p, c, a, i, j) && i <= j + Dist(p, c, a, i, j)
    decreases i + j
  {
    if i > 0 && j > 0 {
      AtLeastDifference(p, c, a, i - 1, j);
      AtLeastDifference(p, c, a, i, j - 1);
      AtLeastDifference(p, c, a, i - 1, j - 1);
    }
  }

  ghost predicate SamePrefix<T>(p: seq<T>, c: seq<T>, n: nat) {
    n <= |p| && n <= |c| && forall k :: 0 <= k < n ==> p[k] == c[k]
  }

  /** A shared prefix followed by more of one sequence only costs the rest. */
  lemma {:induction false} PrefixThenMore<T>(p: seq<T>, c: seq<T>, n: nat, i: nat, j: nat)
    requires SamePrefix(p, c, n) && n + i <= |p| && n + j <= |c| && (i == 0 || j == 0)
    ensures Dist(p, c, 0, n + i, n + j) == i + j
    decreases n, i + j
  {
    AtLeastDifference(p, c, 0, n + i, n + j);
    Neighbours(p, c, 0, n + i, n + j);
    if i > 0 {
      PrefixThenMore(p, c, n, i - 1, j);
      assert n + i - 1 == n + (i - 1);
    } else if j > 0 {
      PrefixThenMore(p, c, n, i, j - 1);
      assert n + j - 1 == n + (j - 1);
    } else if n > 0 {
      PrefixThenMore(p, c, n - 1, 0, 0);
    }
  }

  /** A shared prefix does not count. */
  lemma {:induction false} TrimPrefix<T>(p: seq<T>, c: seq<T>, n: nat, i: nat, j: nat)
    requires SamePrefix(p, c, n) && n + i <= |p| && n + j <= |c|
    ensures Dist(p, c, 0, n + i, n + j) == Dist(p, c, n, i, j)
    decreases i + j
  {
    if i == 0 || j == 0 {
      PrefixThenMore(p, c, n, i, j);
    } else {
      TrimPrefix(p, c, n, i - 1, j - 1);
      TrimPrefix(p, c, n, i - 1, j);
      TrimPrefix(p, c, n, i, j - 1);
      assert n + i - 1 == n + (i - 1) && n + j - 1 == n + (j - 1);
    }
  }

  ghost predicate SameSuffix<T>(p: seq<T>, c: seq<T>, n: nat) {
    n <= |p| && n <= |c| && forall k :: |p| - n <= k < |p| ==> p[k] == c[k - |p| + |c|]
  }

  /** Neither does a shared suffix. */
  lemma {:induction false} TrimSuffix<T>(p: seq<T>, c: seq<T>, n: nat)
    requires SameSuffix(p, c, n)
    ensures Dist(p, c, 0, |p|, |c|) == Dist(p, c, 0, |p| - n, |c| - n)
  {
    if n > 0 {
      TrimSuffix(p, c, n - 1);
      assert p[|p| - n] == c[|c| - n];
    }
  }

  // ---------- the matrix ----------

  /** Fills the distance matrix of two stretches that start at `a`. */
  method CalcEditDistances<T(==)>(p: seq<T>, c: seq<T>, a: nat, previousLen: nat, currentLen: nat)
    returns (distances: array2<nat>)
    requires a + previousLen <= |p| && a + currentLen <= |c|
    ensures fresh(distances) && IsMatrix(p, c, a, previousLen, currentLen, distances)
  {
    var rowCount, columnCount := previousLen + 1, currentLen + 1;
    distances := new nat[rowCount, columnCount]((_, _) => 0);
    for i := 0 to rowCount
      invariant forall k :: 0 <= k < i ==> distances[k, 0] == k
    {
      distances[i, 0] := i;
    }
    for j := 0 to columnCount
      invariant forall k :: 0 <= k < rowCount ==> distances[k, 0] == k
      invariant forall k :: 0 <= k < j ==> distances[0, k] == k
    {
      distances[0, j] := j;
    }
    for i := 1 to rowCount
      invariant forall k :: 0 <= k < rowCount ==> distances[k, 0] == k
      invariant forall k, l {:trigger distances[k, l]} ::
                  0 <= k < i && 0 <= l < columnCount ==> distances[k, l] == Dist(p, c, a, k, l)
    {
      FillRow(p, c, a, i, distances);
    }
  }

  ghost predicate IsMatrix<T>(p: seq<T>, c: seq<T>, a: nat, m: nat, n: nat, d: array2<nat>)
    reads d
  {
    && a + m <= |p| && a + n <= |c| && d.Length0 == m + 1 && d.Length1 == n + 1
    && forall i, j {:trigger d[i, j]} :: 0 <= i <= m && 0 <= j <= n ==> d[i, j] == Dist(p, c, a, i, j)
  }

  method FillRow<T(==)>(p: seq<T>, c: seq<T>, a: nat, i: nat, distances: array2<nat>)
    requires 0 < i < distances.Length0 && 0 < distances.Length1
    requires a + distances.Length0 - 1 <= |p| && a + distances.Length1 - 1 <= |c|
    requires forall k :: 0 <= k < distances.Length0 ==> distances[k, 0] == k
    requires forall k, l {:trigger distances[k, l]} ::
               0 <= k < i && 0 <= l < distances.Length1 ==> distances[k, l] == Dist(p, c, a, k, l)
    modifies distances
    ensures forall k :: 0 <= k < distances.Length0 ==> distances[k, 0] == k
    ensures forall k, l {:trigger distances[k, l]} ::
              0 <= k < i + 1 && 0 <= l < distances.Length1 ==> distances[k, l] == Dist(p, c, a, k, l)
  {
    for j := 1 to distances.Length1
      invariant forall k :: 0 <= k < distances.Length0 ==> distances[k, 0] == k
      invariant forall k, l {:trigger distances[k, l]} ::
                  0 <= k < i && 0 <= l < distances.Length1 ==> distances[k, l] == Dist(p, c, a, k, l)
      invariant forall l {:trigger distances[i, l]} :: 0 <= l < j ==> distances[i, l] == Dist(p, c, a, i, l)
    {
      DistStep(p, c, a, i, j);
      if p[a + i - 1] == c[a + j - 1] {
        distances[i, j] := distances[i - 1, j - 1];
      } else {
        var north := distances[i - 1, j] + 1;
        var west := distances[i, j - 1] + 1;
        distances[i, j] := Min(north, west);
      }
    }
  }

  // ---------- backtracking ----------

  datatype Op = Unchanged | Updated | Inserted | Removed

  /** Where backtracking goes from entry (i, j), and the operation that this stands for. */
  function Back<T(==)>(p: seq<T>, c: seq<T>, a: nat, i: nat, j: nat): (b: (nat, nat, Op))
    requires a + i <= |p| && a + j <= |c| && (i > 0 || j > 0)
    ensures b.0 <= i && b.1 <= j && b.0 + b.1 < i + j
  {
    if i == 0 then (i, j - 1, Inserted)
    else if j == 0 then (i - 1, j, Removed)
    else
      var northWest, west, north := Dist(p, c, a, i - 1, j - 1), Dist(p, c, a, i - 1, j), Dist(p, c, a, i, j - 1);
      var least := Min3(west, north, northWest);
      if least == northWest then (i - 1, j - 1, if northWest == Dist(p, c, a, i, j) then Unchanged else Updated)
      else if least == west then (i - 1, j, Removed)
      else (i, j - 1, Inserted)
  }

  /** The operations that backtracking from entry (i, j) chooses, in order. */
  function OpsTo<T(==)>(p: seq<T>, c: seq<T>, a: nat, i: nat, j: nat): seq<Op>
    requires a + i <= |p| && a + j <= |c|
    decreases i + j
  {
    if i == 0 && j == 0 then []
    else
      var b := Back(p, c, a, i, j);
      OpsTo(p, c, a, b.0, b.1) + [b.2]
  }

  function Reversed<X>(s: seq<X>): (r: seq<X>)
    ensures |r| == |s|
    ensures forall k :: 0 <= k < |s| ==> r[k] == s[|s| - 1 - k]
  {
    seq(|s|, k requires 0 <= k < |s| => s[|s| - 1 - k])
  }

  method OperationsFromEditDistances<T(==)>(ghost p: seq<T>, ghost c: seq<T>, ghost a: nat, distances: array2<nat>)
    returns (ops: seq<Op>)
    requires distances.Length0 > 0 && distances.Length1 > 0
    requires IsMatrix(p, c, a, distances.Length0 - 1, distances.Length1 - 1, distances)
    ensures ops == OpsTo(p, c, a, distances.Length0 - 1, distances.Length1 - 1)
  {
    ghost var m, n := distances.Length0 - 1, distances.Length1 - 1;
    var i, j := distances.Length0 - 1, distances.Length1 - 1;
    var current := distances[i, j];
    var edits := [];
    while i > 0 || j > 0
      invariant 0 <= i <= m && 0 <= j <= n
      invariant i > 0 && j > 0 ==> current == distances[i, j]
      invariant OpsTo(p, c, a, m, n) == OpsTo(p, c, a, i, j) + Reversed(edits)
      decreases i + j
    {
      var op;
      i, j, current, op := StepBack(p, c, a, distances, i, j, current);
      ReversedSnoc(edits, op);
      AssocOne(OpsTo(p, c, a, i, j), op, Reversed(edits));
      edits := edits + [op];
    }
    ops := Reversed(edits);
    assert OpsTo(p, c, a, 0, 0) + ops == ops;
  }

  lemma ReversedSnoc<X>(s: seq<X>, x: X)
    ensures Reversed(s + [x]) == [x] + Reversed(s)
  {
  }

  lemma AssocOne<X>(s: seq<X>, x: X, t: seq<X>)
    ensures s + [x] + t == s + ([x] + t)
  {
  }

  /** One step of the backtracking. */
  method StepBack<T(==)>(ghost p: seq<T>, ghost c: seq<T>, ghost a: nat, distances: array2<nat>, i: nat, j: nat,
                         current: nat)
    returns (i': nat, j': nat, current': nat, op: Op)
    requires distances.Length0 > i && distances.Length1 > j && (i > 0 || j > 0)
    requires IsMatrix(p, c, a, distances.Length0 - 1, distances.Length1 - 1, distances)
    requires i > 0 && j > 0 ==> current == distances[i, j]
    ensures i' <= i && j' <= j && i' + j' < i + j
    ensures i' > 0 && j' > 0 ==> current' == distances[i', j']
    ensures (i', j', op) == Back(p, c, a, i, j)
  {
    if i == 0 {
      return i, j - 1, current, Inserted;
    }
    if j == 0 {
      return i - 1, j, current, Removed;
    }
    var northWest := distances[i - 1, j - 1];
    var west := distances[i - 1, j];
    var north := distances[i, j - 1];
    var minValue := Min3(west, north, northWest);
    if minValue == northWest {
      return i - 1, j - 1, northWest, if northWest == current then Unchanged else Updated;
    }
    if minValue == west {
      return i - 1, j, west, Removed;
    }
    return i, j - 1, north, Inserted;
  }

  // ---------- scripts ----------

  function PrevStep(op: Op): nat {
    if op.Inserted? then 0 else 1
  }

  function CurStep(op: Op): nat {
    if op.Removed? then 0 else 1
  }

  function OpCost(op: Op): nat {
    match op
    case Unchanged => 0
    case Updated => 2
    case _ => 1
  }

  /** How far the first `t` operations get in the previous and in the current state, and what they cost. */
  function PrevAt(ops: seq<Op>, t: nat): nat
    requires t <= |ops|
  {
    if t == 0 then 0 else PrevAt(ops, t - 1) + PrevStep(ops[t - 1])
  }

  function CurAt(ops: seq<Op>, t: nat): nat
    requires t <= |ops|
  {
    if t == 0 then 0 else CurAt(ops, t - 1) + CurStep(ops[t - 1])
  }

  function CostAt(ops: seq<Op>, t: nat): nat
    requires t <= |ops|
  {
    if t == 0 then 0 else CostAt(ops, t - 1) + OpCost(ops[t - 1])
  }

  /** Operation `t` stays within the stretches and keeps only equal elements. */
  ghost predicate Legal<T>(p: seq<T>, c: seq<T>, a: nat, i: nat, j: nat, op: Op) {
    && a + i + PrevStep(op) <= |p| && a + j + CurStep(op) <= |c|
    && (op.Unchanged? ==> p[a + i] == c[a + j])
  }

  /** The first `t` operations are legal one after the other. */
  ghost predicate Script<T>(p: seq<T>, c: seq<T>, a: nat, ops: seq<Op>, t: nat)
    requires t <= |ops|
  {
    t == 0 || (Script(p, c, a, ops, t - 1) && Legal(p, c, a, PrevAt(ops, t - 1), CurAt(ops, t - 1), ops[t - 1]))
  }

  lemma {:induction false} OfPrefix<T>(p: seq<T>, c: seq<T>, a: nat, ops: seq<Op>, op: Op, t: nat)
    requires t <= |ops|
    ensures PrevAt(ops + [op], t) == PrevAt(ops, t) && CurAt(ops + [op], t) == CurAt(ops, t)
            && CostAt(ops + [op], t) == CostAt(ops, t)
    ensures Script(p, c, a, ops + [op], t) == Script(p, c, a, ops, t)
  {
    if t > 0 {
      OfPrefix(p, c, a, ops, op, t - 1);
    }
  }

  /** The script leads to (i, j) at cost `d`. */
  ghost predicate Leads<T>(p: seq<T>, c: seq<T>, a: nat, ops: seq<Op>, i: nat, j: nat, d: nat) {
    Script(p, c, a, ops, |ops|) && PrevAt(ops, |ops|) == i && CurAt(ops, |ops|) == j && CostAt(ops, |ops|) == d
  }

  lemma LeadsSnoc<T>(p: seq<T>, c: seq<T>, a: nat, ops: seq<Op>, i: nat, j: nat, d: nat, op: Op)
    requires Leads(p, c, a, ops, i, j, d) && Legal(p, c, a, i, j, op)
    ensures Leads(p, c, a, ops + [op], i + PrevStep(op), j + CurStep(op), d + OpCost(op))
  {
    OfPrefix(p, c, a, ops, op, |ops|);
  }

  /** Going back from (i, j) by `b` keeps only equal elements, and accounts for the distance it covers. */
  ghost predicate GoesBack<T>(p: seq<T>, c: seq<T>, a: nat, i: nat, j: nat, b: (nat, nat, Op)) {
    && a + i <= |p| && a + j <= |c|
    && i == b.0 + PrevStep(b.2) && j == b.1 + CurStep(b.2)
    && Legal(p, c, a, b.0, b.1, b.2)
    && Dist(p, c, a, i, j) == Dist(p, c, a, b.0, b.1) + OpCost(b.2)
  }

  /** Backtracking keeps only equal elements, and every operation accounts for the distance it covers. */
  lemma BackIsLegal<T>(p: seq<T>, c: seq<T>, a: nat, i: nat, j: nat)
    requires a + i <= |p| && a + j <= |c| && (i > 0 || j > 0)
    ensures GoesBack(p, c, a, i, j, Back(p, c, a, i, j))
  {
    if i > 0 && j > 0 {
      BackFromCorner(p, c, a, i, j);
    }
  }

  lemma BackFromCorner<T>(p: seq<T>, c: seq<T>, a: nat, i: nat, j: nat)
    requires a + i <= |p| && a + j <= |c| && i > 0 && j > 0
    ensures GoesBack(p, c, a, i, j, Back(p, c, a, i, j))
  {
    var northWest, west, north, d := Dist(p, c, a, i - 1, j - 1), Dist(p, c, a, i - 1, j), Dist(p, c, a, i, j - 1),
      Dist(p, c, a, i, j);
    var least := Min3(west, north, northWest);
    var b := Back(p, c, a, i, j);
    assert b == if least == northWest then (i - 1, j - 1, if northWest == d then Unchanged else Updated)
                else if least == west then (i - 1, j, Removed) else (i, j - 1, Inserted);
    Corner(p, c, a, i, j);
    hide Dist, Back;
  }

  lemma Corner<T>(p: seq<T>, c: seq<T>, a: nat, i: nat, j: nat)
    requires a + i <= |p| && a + j <= |c| && i > 0 && j > 0
    ensures var northWest, west, north, d := Dist(p, c, a, i - 1, j - 1), Dist(p, c, a, i - 1, j),
            Dist(p, c, a, i, j - 1), Dist(p, c, a, i, j);
            var least := Min3(west, north, northWest);
            if least == northWest then (if northWest == d then p[a + i - 1] == c[a + j - 1] else d == northWest + 2)
            else if least == west then d == west + 1
            else d == north + 1
  {
    DistStep(p, c, a, i, j);
    var x := Parity(p, c, a, i - 1, j - 1);
    var y := Parity(p, c, a, i - 1, j);
    var z := Parity(p, c, a, i, j - 1);
    Neighbours(p, c, a, i - 1, j);
    Neighbours(p, c, a, i, j - 1);
    CornerArithmetic(Dist(p, c, a, i - 1, j - 1), Dist(p, c, a, i - 1, j), Dist(p, c, a, i, j - 1), Dist(p, c, a, i, j),
                     p[a + i - 1] == c[a + j - 1], x, y, z, i + j);
  }

  /** Neighbours differ by exactly one, so the cheapest of three decides what the fourth is. */
  lemma CornerArithmetic(northWest: nat, west: nat, north: nat, d: nat, same: bool, x: nat, y: nat, z: nat, s: nat)
    requires northWest + 2 * x == s - 2 && west + 2 * y == s - 1 && north + 2 * z == s - 1
    requires Close(west, northWest) && Close(north, northWest)
    requires d == if same then northWest else Min(west, north) + 1
    ensures var least := Min3(west, north, northWest);
            if least == northWest then (if northWest == d then same else d == northWest + 2)
            else if least == west then d == west + 1
            else d == north + 1
  {
  }

  /** The operations chosen form a script that costs exactly the distance. */
  lemma {:induction false} OpsLead<T>(p: seq<T>, c: seq<T>, a: nat, i: nat, j: nat)
    requires a + i <= |p| && a + j <= |c|
    ensures Leads(p, c, a, OpsTo(p, c, a, i, j), i, j, Dist(p, c, a, i, j))
    decreases i + j
  {
    if i > 0 || j > 0 {
      var b := Back(p, c, a, i, j);
      OpsLead(p, c, a, b.0, b.1);
      BackIsLegal(p, c, a, i, j);
      LeadsSnoc(p, c, a, OpsTo(p, c, a, b.0, b.1), b.0, b.1, Dist(p, c, a, b.0, b.1), b.2);
    }
  }

  // ---------- splices ----------

  /** Operations up to (i, j) have become splices, the last of which may still be open. */
  ghost predicate Assembled<T>(p: seq<T>, c: seq<T>, sp: seq<Splice>, open: Option<Splice>, i: nat, j: nat, cost: nat) {
    && Gapped(sp) && Aligned(sp) && i <= |p| && j <= |c|
    && match open {
         case None =>
           Turns(p, c, sp, i, j) && (sp != [] ==> End(sp) < i) && Total(sp) == cost
         case Some(s) =>
           && s.at + s.removed == i && s.added <= j && s.removed + s.added > 0
           && s.from == (if s.added > 0 then j - s.added else SPLICE_UNASSIGNED)
           && Turns(p, c, sp, s.at, j - s.added) && (sp != [] ==> End(sp) < s.at)
           && Total(sp) + s.removed + s.added == cost
       }
  }

  function AddSplice(splices: seq<Splice>, s: Splice): seq<Splice> {
    splices + [if s.from == SPLICE_UNASSIGNED then s.(from := 0) else s]
  }

  lemma CloseSplice<T>(p: seq<T>, c: seq<T>, sp: seq<Splice>, s: Splice, i: nat, j: nat, cost: nat)
    requires |c| < SPLICE_UNASSIGNED && Assembled(p, c, sp, Some(s), i, j, cost)
    ensures var closed := AddSplice(sp, s);
            Turns(p, c, closed, i, j) && Gapped(closed) && Aligned(closed) && Total(closed) == cost && End(closed) == i
              && closed != []
  {
    var t := if s.from == SPLICE_UNASSIGNED then s.(from := 0) else s;
    TurnsLength(p, c, sp, s.at, j - s.added);
    Add(p, c, sp, t, j - s.added);
    Snoc(p, c, sp, t);
    SnocAligned(sp, t);
  }

  /** An operation that changes something extends the open splice, or opens one. */
  function Extend(open: Option<Splice>, index: nat, previousIndex: nat, op: Op): Option<Splice> {
    var s := if open.None? then Splice(index, 0, 0, SPLICE_UNASSIGNED) else open.value;
    match op
    case Updated =>
      var t := if s.from == SPLICE_UNASSIGNED then s.(from := previousIndex) else s;
      Some(t.(removed := t.removed + 1, added := t.added + 1))
    case Inserted =>
      var t := s.(added := s.added + 1);
      Some(if t.from == SPLICE_UNASSIGNED then t.(from := previousIndex) else t)
    case Removed => Some(s.(removed := s.removed + 1))
    case Unchanged => open
  }

  lemma ExtendSplice<T>(p: seq<T>, c: seq<T>, sp: seq<Splice>, open: Option<Splice>, i: nat, j: nat, cost: nat, op: Op)
    requires |c| < SPLICE_UNASSIGNED && Assembled(p, c, sp, open, i, j, cost) && !op.Unchanged?
    requires i + PrevStep(op) <= |p| && j + CurStep(op) <= |c|
    ensures Assembled(p, c, sp, Extend(open, i, j, op), i + PrevStep(op), j + CurStep(op), cost + OpCost(op))
  {
  }

  /** One operation: extends the open splice, or closes it. */
  function AssembleStep(splices: seq<Splice>, open: Option<Splice>, index: nat, previousIndex: nat,
                        op: Op): (seq<Splice>, Option<Splice>) {
    if op != Unchanged then (splices, Extend(open, index, previousIndex, op))
    else (Collected(splices, open), None)
  }

  function Collected(splices: seq<Splice>, open: Option<Splice>): seq<Splice> {
    if open.Some? then AddSplice(splices, open.value) else splices
  }

  /** The first `t` operations, collected into splices. */
  function Assemble(a: nat, ops: seq<Op>, t: nat): (seq<Splice>, Option<Splice>)
    requires t <= |ops|
  {
    if t == 0 then ([], None)
    else
      var r := Assemble(a, ops, t - 1);
      AssembleStep(r.0, r.1, a + PrevAt(ops, t - 1), a + CurAt(ops, t - 1), ops[t - 1])
  }

  function SplicesOf(a: nat, ops: seq<Op>): seq<Splice> {
    Collected(Assemble(a, ops, |ops|).0, Assemble(a, ops, |ops|).1)
  }

  /** Collects the operations into splices. */
  method SplicesFromOps(a: nat, ops: seq<Op>) returns (splices: seq<Splice>)
    ensures splices == SplicesOf(a, ops)
  {
    var splice;
    splices, splice := [], None;
    var index, previousIndex := a, a;
    for t := 0 to |ops|
      invariant index == a + PrevAt(ops, t) && previousIndex == a + CurAt(ops, t)
      invariant (splices, splice) == Assemble(a, ops, t)
    {
      var op := ops[t];
      if op == Unchanged {
        if splice.Some? {
          splices, splice := AddSplice(splices, splice.value), None;
        }
      } else {
        splice := Extend(splice, index, previousIndex, op);
      }
      index, previousIndex := index + PrevStep(op), previousIndex + CurStep(op);
    }
    if splice.Some? {
      splices := AddSplice(splices, splice.value);
    }
  }

  lemma AssembleOne<T>(p: seq<T>, c: seq<T>, splices: seq<Splice>, open: Option<Splice>, i: nat, j: nat, op: Op,
                       cost: nat)
    requires |c| < SPLICE_UNASSIGNED && Assembled(p, c, splices, open, i, j, cost)
    requires i + PrevStep(op) <= |p| && j + CurStep(op) <= |c| && (op.Unchanged? ==> p[i] == c[j])
    ensures var r := AssembleStep(splices, open, i, j, op);
            Assembled(p, c, r.0, r.1, i + PrevStep(op), j + CurStep(op), cost + OpCost(op))
  {
    if op != Unchanged {
      ExtendSplice(p, c, splices, open, i, j, cost, op);
    } else {
      if open.Some? {
        CloseSplice(p, c, splices, open.value, i, j, cost);
      }
      Keep(p, c, Collected(splices, open), i, j);
    }
  }

  /** The first `t` operations, as splices, lead to (i, j). */
  ghost predicate AssembledTo<T>(p: seq<T>, c: seq<T>, a: nat, ops: seq<Op>, t: nat, i: nat, j: nat, cost: nat)
    requires t <= |ops|
  {
    Assembled(p, c, Assemble(a, ops, t).0, Assemble(a, ops, t).1, i, j, cost)
  }

  lemma AssembleNone<T>(p: seq<T>, c: seq<T>, a: nat, ops: seq<Op>)
    requires SamePrefix(p, c, a)
    ensures AssembledTo(p, c, a, ops, 0, a, a, 0)
  {
    assert p[0..a] == c[..a];
  }

  lemma {:induction false} AssembleAll<T>(p: seq<T>, c: seq<T>, a: nat, ops: seq<Op>, t: nat)
    requires |c| < SPLICE_UNASSIGNED && SamePrefix(p, c, a) && t <= |ops| && Script(p, c, a, ops, t)
    ensures AssembledTo(p, c, a, ops, t, a + PrevAt(ops, t), a + CurAt(ops, t), CostAt(ops, t))
  {
    hide AssembledTo, SamePrefix;
    if t == 0 {
      AssembleNone(p, c, a, ops);
    } else {
      AssembleAll(p, c, a, ops, t - 1);
      AssembleNext(p, c, a, ops, t, a + PrevAt(ops, t - 1), a + CurAt(ops, t - 1), CostAt(ops, t - 1));
    }
  }

  lemma AssembleNext<T>(p: seq<T>, c: seq<T>, a: nat, ops: seq<Op>, t: nat, i: nat, j: nat, cost: nat)
    requires 0 < t <= |ops| && |c| < SPLICE_UNASSIGNED && AssembledTo(p, c, a, ops, t - 1, i, j, cost)
    requires i == a + PrevAt(ops, t - 1) && j == a + CurAt(ops, t - 1) && Legal(p, c, 0, i, j, ops[t - 1])
    ensures AssembledTo(p, c, a, ops, t, i + PrevStep(ops[t - 1]), j + CurStep(ops[t - 1]), cost + OpCost(ops[t - 1]))
  {
    hide Assembled, AssembleStep;
    var r := Assemble(a, ops, t - 1);
    AssembleOne(p, c, r.0, r.1, i, j, ops[t - 1], cost);
  }

  lemma CollectedTurns<T>(p: seq<T>, c: seq<T>, splices: seq<Splice>, open: Option<Splice>, i: nat, j: nat, cost: nat)
    requires |c| < SPLICE_UNASSIGNED && Assembled(p, c, splices, open, i, j, cost)
    ensures var all := Collected(splices, open);
            Turns(p, c, all, i, j) && Gapped(all) && Aligned(all) && Total(all) == cost
  {
    if open.Some? {
      CloseSplice(p, c, splices, open.value, i, j, cost);
    }
  }

  /** The splices of a script lead where the script leads, and cost what it costs. */
  lemma ScriptSplices<T>(p: seq<T>, c: seq<T>, a: nat, ops: seq<Op>, i: nat, j: nat, cost: nat)
    requires |c| < SPLICE_UNASSIGNED && SamePrefix(p, c, a) && a <= i && a <= j
             && Leads(p, c, a, ops, i - a, j - a, cost)
    ensures var splices := SplicesOf(a, ops);
            Turns(p, c, splices, i, j) && Gapped(splices) && Aligned(splices) && Total(splices) == cost
  {
    AssembleAll(p, c, a, ops, |ops|);
    assert AssembledTo(p, c, a, ops, |ops|, i, j, cost);
    CollectedTurns(p, c, Assemble(a, ops, |ops|).0, Assemble(a, ops, |ops|).1, i, j, cost);
  }

  // ---------- the whole ----------

  /** The length of the longest shared prefix, given that it is at least `n`. */
  function PrefixLength<T(==)>(p: seq<T>, c: seq<T>, n: nat): (m: nat)
    requires n <= |p| && n <= |c|
    ensures n <= m <= |p| && m <= |c|
    decreases |p| - n
  {
    if n < |p| && n < |c| && p[n] == c[n] then PrefixLength(p, c, n + 1) else n
  }

  /** The length of the longest shared suffix that starts at `a` or later, given that it is at least `n`. */
  function SuffixLength<T(==)>(p: seq<T>, c: seq<T>, a: nat, n: nat): (m: nat)
    requires a + n <= |p| && a + n <= |c|
    ensures n <= m && a + m <= |p| && a + m <= |c|
    decreases |p| - n
  {
    if a + n < |p| && a + n < |c| && p[|p| - 1 - n] == c[|c| - 1 - n] then SuffixLength(p, c, a, n + 1) else n
  }

  /** What the two sequences share at the front, and at the back of the rest. */
  function Shared<T(==)>(p: seq<T>, c: seq<T>): (r: (nat, nat))
    ensures r.0 + r.1 <= |p| && r.0 + r.1 <= |c|
  {
    var prefix := PrefixLength(p, c, 0);
    (prefix, SuffixLength(p, c, prefix, 0))
  }

  /** The lengths of the longest shared prefix, and of the longest shared suffix of what is left. */
  ghost predicate Trims<T>(p: seq<T>, c: seq<T>, prefix: nat, suffix: nat) {
    && SamePrefix(p, c, prefix) && SameSuffix(p, c, suffix) && prefix + suffix <= |p| && prefix + suffix <= |c|
    && (prefix < |p| && prefix < |c| ==> p[prefix] != c[prefix])
    && (prefix + suffix < |p| && prefix + suffix < |c| ==> p[|p| - 1 - suffix] != c[|c| - 1 - suffix])
  }

  /** The size of the matrix, as 64-bit arithmetic computes it, exceeds the limit. */
  predicate TooLarge(previousLength: nat, currentLength: nat, limit: nat) {
    previousLength > 0 && currentLength > 0 && (previousLength * currentLength) % TWO_64 > limit
  }

  /** Trimming does not change the distance. */
  lemma DistTrim<T>(p: seq<T>, c: seq<T>, prefix: nat, suffix: nat)
    requires Trims(p, c, prefix, suffix)
    ensures Dist(p, c, 0, |p|, |c|) == Dist(p, c, prefix, |p| - prefix - suffix, |c| - prefix - suffix)
  {
    TrimSuffix(p, c, suffix);
    TrimPrefix(p, c, prefix, |p| - prefix - suffix, |c| - prefix - suffix);
  }

  /** Splices that lead up to the shared suffix are a whole diff. */
  lemma FinishDiff<T>(p: seq<T>, c: seq<T>, sp: seq<Splice>, suffix: nat)
    requires SameSuffix(p, c, suffix) && Gapped(sp) && Aligned(sp)
    requires Turns(p, c, sp, |p| - suffix, |c| - suffix)
    ensures IsDiff(p, c, sp)
  {
    KeepRun(p, c, sp, |p| - suffix, |c| - suffix, suffix);
    TurnsAll(p, c, sp);
  }

  /** A single splice right after a shared prefix. */
  lemma SingleSplice<T>(p: seq<T>, c: seq<T>, s: Splice)
    requires SamePrefix(p, c, s.at) && s.removed + s.added > 0 && s.at + s.removed <= |p| && s.at + s.added <= |c|
    requires s.from == if s.added > 0 then s.at else 0
    ensures Turns(p, c, [s], s.at + s.removed, s.at + s.added)
    ensures Gapped([s]) && Aligned([s]) && Total([s]) == s.removed + s.added
  {
    assert p[0..s.at] == c[..s.at];
    assert Turns(p, c, [], s.at, s.at);
    Add(p, c, [], s, s.at);
    Snoc(p, c, [], s);
    SnocAligned([], s);
    assert [] + [s] == [s];
  }

  /** The splice when one side has nothing left between the shared ends. */
  function OneSide(prefix: nat, previousEnd: nat, currentEnd: nat): seq<Splice>
    requires prefix <= previousEnd && prefix <= currentEnd
  {
    if currentEnd == prefix && previousEnd == prefix then []
    else if currentEnd == prefix then [Splice(prefix, previousEnd - prefix, 0, 0)]
    else [Splice(prefix, 0, currentEnd - prefix, prefix)]
  }

  lemma OneSideIsDiff<T>(p: seq<T>, c: seq<T>, prefix: nat, suffix: nat)
    requires Trims(p, c, prefix, suffix) && (prefix + suffix == |p| || prefix + suffix == |c|)
    ensures var splices := OneSide(prefix, |p| - suffix, |c| - suffix);
            IsDiff(p, c, splices) && Total(splices) == Dist(p, c, 0, |p|, |c|)
  {
    var splices := OneSide(prefix, |p| - suffix, |c| - suffix);
    DistTrim(p, c, prefix, suffix);
    if splices == [] {
      assert p[0..prefix] == c[..prefix];
    } else {
      SingleSplice(p, c, splices[0]);
    }
    FinishDiff(p, c, splices, suffix);
  }

  /** The splices of the operations between the shared ends. */
  function Scripted<T(==)>(p: seq<T>, c: seq<T>, prefix: nat, suffix: nat): seq<Splice>
    requires prefix + suffix <= |p| && prefix + suffix <= |c|
  {
    var ops := OpsTo(p, c, prefix, |p| - prefix - suffix, |c| - prefix - suffix);
    SplicesOf(prefix, ops)
  }

  /** The matrix needed for the two sequences is over the limit. */
  predicate Large<T(==)>(p: seq<T>, c: seq<T>, limit: nat) {
    var (prefix, suffix) := Shared(p, c);
    TooLarge(|p| - prefix - suffix, |c| - prefix - suffix, limit)
  }

  /** The matrix is within the limit, or there is no shared prefix. */
  predicate Exact<T(==)>(p: seq<T>, c: seq<T>, limit: nat) {
    !Large(p, c, limit) || Shared(p, c).0 == 0
  }

  /** The splices that the limit leaves room for: which ones they are depends on the sequences alone. */
  function SpliceList<T(==)>(p: seq<T>, c: seq<T>, limit: nat): seq<Splice> {
    var (prefix, suffix) := Shared(p, c);
    if prefix + suffix == |p| || prefix + suffix == |c| then OneSide(prefix, |p| - suffix, |c| - suffix)
    else if Large(p, c, limit) then [Splice(0, |p| - prefix - suffix, |c| - prefix - suffix, 0)]
    else Scripted(p, c, prefix, suffix)
  }

  lemma TrimsShare<T>(p: seq<T>, c: seq<T>, prefix: nat, suffix: nat)
    requires Trims(p, c, prefix, suffix)
    ensures SamePrefix(p, c, prefix) && SameSuffix(p, c, suffix) && prefix + suffix <= |p| && prefix + suffix <= |c|
  {
  }

  lemma ScriptedIsDiff<T>(p: seq<T>, c: seq<T>, prefix: nat, suffix: nat)
    requires |c| < SPLICE_UNASSIGNED && Trims(p, c, prefix, suffix)
    ensures var splices := Scripted(p, c, prefix, suffix);
            IsDiff(p, c, splices) && Total(splices) == Dist(p, c, 0, |p|, |c|)
  {
    TrimsShare(p, c, prefix, suffix);
    DistTrim(p, c, prefix, suffix);
    hide Trims, SamePrefix, Dist, IsDiff, Scripted, Turns;
    ScriptedTurns(p, c, prefix, suffix);
    FinishDiff(p, c, Scripted(p, c, prefix, suffix), suffix);
  }

  lemma ScriptedTurns<T>(p: seq<T>, c: seq<T>, prefix: nat, suffix: nat)
    requires |c| < SPLICE_UNASSIGNED && SamePrefix(p, c, prefix) && prefix + suffix <= |p| && prefix + suffix <= |c|
    ensures var splices := Scripted(p, c, prefix, suffix);
            && Turns(p, c, splices, |p| - suffix, |c| - suffix) && Gapped(splices) && Aligned(splices)
            && Total(splices) == Dist(p, c, prefix, |p| - prefix - suffix, |c| - prefix - suffix)
  {
    hide SamePrefix, Leads, Dist, Turns, OpsTo, SplicesOf, Gapped, Aligned, Total;
    var pl, cl := |p| - prefix - suffix, |c| - prefix - suffix;
    OpsLead(p, c, prefix, pl, cl);
    ScriptSplices(p, c, prefix, OpsTo(p, c, prefix, pl, cl), |p| - suffix, |c| - suffix, Dist(p, c, prefix, pl, cl));
  }

  lemma {:induction false} PrefixShared<T>(p: seq<T>, c: seq<T>, n: nat)
    requires SamePrefix(p, c, n)
    ensures var m := PrefixLength(p, c, n);
            SamePrefix(p, c, m) && (m < |p| && m < |c| ==> p[m] != c[m])
    decreases |p| - n
  {
    if n < |p| && n < |c| && p[n] == c[n] {
      PrefixShared(p, c, n + 1);
    }
  }

  lemma {:induction false} SuffixShared<T>(p: seq<T>, c: seq<T>, a: nat, n: nat)
    requires a + n <= |p| && a + n <= |c| && SameSuffix(p, c, n)
    ensures var m := SuffixLength(p, c, a, n);
            SameSuffix(p, c, m) && (a + m < |p| && a + m < |c| ==> p[|p| - 1 - m] != c[|c| - 1 - m])
    decreases |p| - n
  {
    if a + n < |p| && a + n < |c| && p[|p| - 1 - n] == c[|c| - 1 - n] {
      SuffixShared(p, c, a, n + 1);
    }
  }

  lemma SharedTrims<T>(p: seq<T>, c: seq<T>)
    ensures var (prefix, suffix) := Shared(p, c); Trims(p, c, prefix, suffix)
  {
    PrefixShared(p, c, 0);
    SuffixShared(p, c, PrefixLength(p, c, 0), 0);
  }

  /** Within the limit the splices are a diff, and remove and add as little as any diff. */
  lemma WithinLimit<T>(p: seq<T>, c: seq<T>, limit: nat)
    requires |c| < SPLICE_UNASSIGNED && !Large(p, c, limit)
    ensures IsDiff(p, c, SpliceList(p, c, limit)) && Total(SpliceList(p, c, limit)) == Dist(p, c, 0, |p|, |c|)
  {
    var (prefix, suffix) := Shared(p, c);
    SharedTrims(p, c);
    if prefix + suffix == |p| || prefix + suffix == |c| {
      OneSideIsDiff(p, c, prefix, suffix);
    } else {
      ScriptedIsDiff(p, c, prefix, suffix);
    }
  }

  /**
   The splices are a diff, and reproduce the current sequence, exactly when the matrix is within the limit or there is
   no shared prefix: beyond the limit the position reported is zero, not the end of the prefix.
   */
  lemma ExactlyWhen<T>(p: seq<T>, c: seq<T>, limit: nat)
    requires |c| < SPLICE_UNASSIGNED
    ensures var sp := SpliceList(p, c, limit);
            Fit(p, c, sp) && (Patched(p, c, sp) == c <==> Exact(p, c, limit))
              && (IsDiff(p, c, sp) <==> Exact(p, c, limit))
  {
    if Large(p, c, limit) {
      SharedTrims(p, c);
      var (prefix, suffix) := Shared(p, c);
      BeyondLimit(p, c, prefix, suffix);
    } else {
      WithinLimit(p, c, limit);
    }
  }

  lemma BeyondLimit<T>(p: seq<T>, c: seq<T>, prefix: nat, suffix: nat)
    requires Trims(p, c, prefix, suffix) && prefix + suffix < |p| && prefix + suffix < |c|
    ensures var sp := [Splice(0, |p| - prefix - suffix, |c| - prefix - suffix, 0)];
            Fit(p, c, sp) && (Patched(p, c, sp) == c <==> prefix == 0) && (prefix == 0 ==> IsDiff(p, c, sp))
  {
    var pl, cl := |p| - prefix - suffix, |c| - prefix - suffix;
    hide IsDiff, Patched;
    OneSplice(p, c, Splice(0, pl, cl, 0));
    if prefix == 0 {
      AllButSuffix(p, c, suffix);
    } else {
      NotReplaced(p, c, pl, cl, |p| - 1 - suffix, |c| - 1 - suffix);
    }
  }

  /** Everything before a shared suffix is replaced. */
  lemma AllButSuffix<T>(p: seq<T>, c: seq<T>, suffix: nat)
    requires Trims(p, c, 0, suffix) && suffix < |p| && suffix < |c|
    ensures var sp := [Splice(0, |p| - suffix, |c| - suffix, 0)];
            IsDiff(p, c, sp) && Fit(p, c, sp) && Patched(p, c, sp) == c
  {
    var s := Splice(0, |p| - suffix, |c| - suffix, 0);
    assert IsDiff(p, c, [s]) by {
      hide IsDiff, Turns, Gapped, Aligned, Total, Fit, Patched;
      SingleSplice(p, c, s);
      TrimsShare(p, c, 0, suffix);
      FinishDiff(p, c, [s], suffix);
    }
  }

  lemma NotReplaced<T>(p: seq<T>, c: seq<T>, pl: nat, cl: nat, i: nat, j: nat)
    requires pl <= i < |p| && cl <= j < |c| && i - pl == j - cl && p[i] != c[j]
    ensures c[..cl] + p[pl..] != c
  {
    assert (c[..cl] + p[pl..])[j] == p[i];
  }

  lemma OneSplice<T>(p: seq<T>, c: seq<T>, s: Splice)
    requires s.at == s.from == 0 && s.removed <= |p| && s.added <= |c|
    ensures Fit(p, c, [s]) && Patched(p, c, [s]) == c[..s.added] + p[s.removed..]
  {
    Snoc(p, c, [], s);
    assert [] + [s] == [s];
  }

  /** One element changes behind a shared one, and the limit is zero: the splices lead elsewhere. */
  lemma BeyondLimitExample()
    ensures var sp := SpliceList([1, 2], [1, 3], 0);
            Fit([1, 2], [1, 3], sp) && Patched([1, 2], [1, 3], sp) == [1, 2] != [1, 3]
  {
    var p, c := [1, 2], [1, 3];
    assert PrefixLength(p, c, 0) == PrefixLength(p, c, 1) == 1;
    assert SuffixLength(p, c, 1, 0) == 0;
    assert Large(p, c, 0) && SpliceList(p, c, 0) == [Splice(0, 1, 1, 0)];
    hide SpliceList, Large, Fit, Patched;
    OneSplice(p, c, Splice(0, 1, 1, 0));
  }

  // ---------- the method ----------

  method SharedPrefix<T(==)>(p: seq<T>, c: seq<T>, searchLength: nat) returns (n: nat)
    requires searchLength == Min(|p|, |c|)
    ensures n == PrefixLength(p, c, 0)
  {
    for i := 0 to searchLength
      invariant PrefixLength(p, c, 0) == PrefixLength(p, c, i)
    {
      if p[i] != c[i] {
        return i;
      }
    }
    return searchLength;
  }

  method SharedSuffix<T(==)>(p: seq<T>, c: seq<T>, ghost a: nat, searchLength: nat) returns (count: nat)
    requires a <= |p| && a <= |c| && searchLength == Min(|p|, |c|) - a
    ensures count == SuffixLength(p, c, a, 0)
  {
    count := 0;
    var previous, current := |p| - 1, |c| - 1;
    while count < searchLength && p[previous] == c[current]
      invariant count <= searchLength && previous == |p| - 1 - count && current == |c| - 1 - count
      invariant SuffixLength(p, c, a, 0) == SuffixLength(p, c, a, count)
    {
      count := count + 1;
      previous := previous - 1;
      current := current - 1;
    }
  }

  /**
   Within the matrix limit the result is a diff of the least possible size, and whatever the limit the result leads to
   the current sequence exactly when the limit is met or there is no shared prefix.
   */
  method CalcSplices<T(==)>(p: seq<T>, c: seq<T>, maxSpliceMatrixSize: nat) returns (splices: seq<Splice>)
    requires |p| < SPLICE_UNASSIGNED && |c| < SPLICE_UNASSIGNED
    ensures splices == SpliceList(p, c, maxSpliceMatrixSize)
    ensures !Large(p, c, maxSpliceMatrixSize) ==> IsDiff(p, c, splices) && Total(splices) == Dist(p, c, 0, |p|, |c|)
    ensures Fit(p, c, splices) && (Patched(p, c, splices) == c <==> Exact(p, c, maxSpliceMatrixSize))
    ensures IsDiff(p, c, splices) <==> Exact(p, c, maxSpliceMatrixSize)
  {
    hide IsDiff, Fit, Patched, Dist, Exact, TooLarge, Total, OpsTo, SplicesOf, PrefixLength, SuffixLength;
    ExactlyWhen(p, c, maxSpliceMatrixSize);
    if !Large(p, c, maxSpliceMatrixSize) {
      WithinLimit(p, c, maxSpliceMatrixSize);
    }
    var minLength := Min(|p|, |c|);
    var prefixCount := SharedPrefix(p, c, minLength);
    var suffixCount := SharedSuffix(p, c, prefixCount, minLength - prefixCount);
    var previousEnd, currentEnd := |p| - suffixCount, |c| - suffixCount;
    if previousEnd == prefixCount || currentEnd == prefixCount {
      return OneSide(prefixCount, previousEnd, currentEnd);
    }
    var previousLength, currentLength := previousEnd - prefixCount, currentEnd - prefixCount;
    if TooLarge(previousLength, currentLength, maxSpliceMatrixSize) {
      return [Splice(0, previousLength, currentLength, 0)];
    }
    var distances := CalcEditDistances(p, c, prefixCount, previousLength, currentLength);
    var ops := OperationsFromEditDistances(p, c, prefixCount, distances);
    splices := SplicesFromOps(prefixCount, ops);
  }

  // ---------- minimality ----------

  lemma {:induction false} DistGrows<T>(p: seq<T>, c: seq<T>, i: nat, j: nat, r: nat, d: nat)
    requires i + r <= |p| && j + d <= |c|
    ensures Dist(p, c, 0, i + r, j + d) <= Dist(p, c, 0, i, j) + r + d
    decreases r + d
  {
    if r > 0 {
      DistGrows(p, c, i, j, r - 1, d);
      Neighbours(p, c, 0, i + r, j + d);
    } else if d > 0 {
      DistGrows(p, c, i, j, r, d - 1);
      Neighbours(p, c, 0, i + r, j + d);
    }
  }

  lemma {:induction false} DistKeeps<T>(p: seq<T>, c: seq<T>, i: nat, j: nat, n: nat)
    requires i + n <= |p| && j + n <= |c| && forall k :: i <= k < i + n ==> p[k] == c[k - i + j]
    ensures Dist(p, c, 0, i + n, j + n) == Dist(p, c, 0, i, j)
  {
    if n > 0 {
      DistKeeps(p, c, i, j, n - 1);
      assert p[i + n - 1] == c[i + n - 1 - i + j];
    }
  }

  /** The last splice split off: where the ones before it lead. */
  lemma BeforeLast<T>(p: seq<T>, c: seq<T>, sp: seq<Splice>, i: nat, j: nat) returns (j': nat)
    requires sp != [] && Turns(p, c, sp, i, j)
    ensures var s, e := sp[|sp| - 1], End(sp);
            && Turns(p, c, sp[..|sp| - 1], s.at, j') && j' + s.added <= j && i - e == j - j' - s.added
            && forall k :: e <= k < i ==> p[k] == c[k - e + (j' + s.added)]
  {
    var init, s, e := sp[..|sp| - 1], sp[|sp| - 1], End(sp);
    var kept, added, rest := Built(p, c, init) + p[End(init)..s.at], c[s.from..s.from + s.added], p[e..i];
    j' := |kept|;
    assert c[..j] == kept + added + rest;
    assert c[..j'] == c[..j][..j'] == kept;
    forall k | e <= k < i ensures p[k] == c[k - e + (j' + s.added)] {
      assert c[..j][k - e + (j' + s.added)] == rest[k - e];
    }
  }

  lemma Untouched<T>(p: seq<T>, c: seq<T>, i: nat, j: nat)
    requires Turns(p, c, [], i, j)
    ensures Dist(p, c, 0, i, j) == 0
  {
    assert |c[..j]| == |p[0..i]|;
    DistKeeps(p, c, 0, 0, i);
  }

  /** No splices that lead from one sequence to another are cheaper than the distance. */
  lemma {:induction false} NoCheaper<T>(p: seq<T>, c: seq<T>, sp: seq<Splice>, i: nat, j: nat)
    requires Turns(p, c, sp, i, j)
    ensures Dist(p, c, 0, i, j) <= Total(sp)
    decreases |sp|
  {
    if sp == [] {
      Untouched(p, c, i, j);
    } else {
      hide Fit, Built;
      var s, e := sp[|sp| - 1], End(sp);
      var j' := BeforeLast(p, c, sp, i, j);
      hide Turns, Dist;
      NoCheaper(p, c, sp[..|sp| - 1], s.at, j');
      DistGrows(p, c, s.at, j', s.removed, s.added);
      DistKeeps(p, c, e, j' + s.added, i - e);
    }
  }

  /** The distance is the least that any splices leading from `p` to `c` remove and add. */
  lemma Minimal<T>(p: seq<T>, c: seq<T>, sp: seq<Splice>)
    requires Fit(p, c, sp) && Patched(p, c, sp) == c
    ensures Dist(p, c, 0, |p|, |c|) <= Total(sp)
  {
    FitEnd(p, c, sp);
    assert p[End(sp)..|p|] == p[End(sp)..] && c[..|c|] == c;
    NoCheaper(p, c, sp, |p|, |c|);
  }
}
