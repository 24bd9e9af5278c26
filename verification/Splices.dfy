/** What a list of splices means: how it turns a previous sequence into a current one. */
module Splices {

  /** At `at` in the previous state, `removed` elements go and `added` come, found at `from` in the current state. */
  datatype Splice = Splice(at: nat, removed: nat, added: nat, from: nat)

  /** The position in the previous state after the last splice. */
  function End(sp: seq<Splice>): nat {
    if sp == [] then 0 else sp[|sp| - 1].at + sp[|sp| - 1].removed
  }

  /** The splices are in order and stay within the two sequences. */
  ghost predicate Fit<T>(p: seq<T>, c: seq<T>, sp: seq<Splice>) {
    sp == [] ||
    (var init, s := sp[..|sp| - 1], sp[|sp| - 1];
     Fit(p, c, init) && End(init) <= s.at && s.at + s.removed <= |p| && s.from + s.added <= |c|)
  }

  lemma FitEnd<T>(p: seq<T>, c: seq<T>, sp: seq<Splice>)
    requires Fit(p, c, sp)
    ensures End(sp) <= |p|
  {
  }

  /** Everything up to the last splice, as the splices make it. */
  ghost function Built<T>(p: seq<T>, c: seq<T>, sp: seq<Splice>): seq<T>
    requires Fit(p, c, sp)
  {
    if sp == [] then []
    else
      var init, s := sp[..|sp| - 1], sp[|sp| - 1];
      Built(p, c, init) + p[End(init)..s.at] + c[s.from..s.from + s.added]
  }

  ghost function Patched<T>(p: seq<T>, c: seq<T>, sp: seq<Splice>): seq<T>
    requires Fit(p, c, sp)
  {
    FitEnd(p, c, sp);
    Built(p, c, sp) + p[End(sp)..]
  }

  /** Every splice does something, and between two of them at least one element stays. */
  ghost predicate Gapped(sp: seq<Splice>) {
    sp == [] ||
    (var init, s := sp[..|sp| - 1], sp[|sp| - 1];
     Gapped(init) && s.removed + s.added > 0 && (init != [] ==> End(init) < s.at))
  }

  function Total(sp: seq<Splice>): nat {
    if sp == [] then 0 else Total(sp[..|sp| - 1]) + sp[|sp| - 1].removed + sp[|sp| - 1].added
  }

  /** The splices turn the first `i` previous elements into the first `j` current ones. */
  ghost predicate Turns<T>(p: seq<T>, c: seq<T>, sp: seq<Splice>, i: nat, j: nat) {
    && Fit(p, c, sp) && End(sp) <= i <= |p| && j <= |c|
    && Built(p, c, sp) + p[End(sp)..i] == c[..j]
  }

  lemma Snoc<T>(p: seq<T>, c: seq<T>, sp: seq<Splice>, s: Splice)
    ensures Fit(p, c, sp + [s]) == (Fit(p, c, sp) && End(sp) <= s.at && s.at + s.removed <= |p|
                                    && s.from + s.added <= |c|)
    ensures Fit(p, c, sp + [s]) ==> Built(p, c, sp + [s]) == Built(p, c, sp) + p[End(sp)..s.at]
                                    + c[s.from..s.from + s.added]
    ensures Gapped(sp + [s]) == (Gapped(sp) && s.removed + s.added > 0 && (sp != [] ==> End(sp) < s.at))
    ensures Total(sp + [s]) == Total(sp) + s.removed + s.added
    ensures End(sp + [s]) == s.at + s.removed
  {
    assert (sp + [s])[..|sp|] == sp;
  }

  /** Keeping an element that is the same on both sides. */
  lemma Keep<T>(p: seq<T>, c: seq<T>, sp: seq<Splice>, i: nat, j: nat)
    requires Turns(p, c, sp, i, j) && i < |p| && j < |c| && p[i] == c[j]
    ensures Turns(p, c, sp, i + 1, j + 1)
  {
    assert p[End(sp)..i + 1] == p[End(sp)..i] + [p[i]];
    assert c[..j + 1] == c[..j] + [c[j]];
  }

  /** Adding a splice whose elements are the next ones of the current state. */
  lemma Add<T>(p: seq<T>, c: seq<T>, sp: seq<Splice>, s: Splice, j: nat)
    requires Turns(p, c, sp, s.at, j) && s.at + s.removed <= |p| && j + s.added <= |c|
    requires s.from == j || s.added == 0 <= s.from <= |c|
    ensures Turns(p, c, sp + [s], s.at + s.removed, j + s.added)
  {
    Snoc(p, c, sp, s);
    assert c[..j + s.added] == c[..j] + c[j..j + s.added];
    assert p[s.at + s.removed..s.at + s.removed] == [];
  }

  /** How much longer the splices make what precedes their end. */
  function Shift(sp: seq<Splice>): int {
    if sp == [] then 0 else Shift(sp[..|sp| - 1]) + sp[|sp| - 1].added - sp[|sp| - 1].removed
  }

  /** Added elements are where they end up in the current state; a splice that adds nothing has `from` zero. */
  ghost predicate Aligned(sp: seq<Splice>) {
    sp == [] ||
    (var init, s := sp[..|sp| - 1], sp[|sp| - 1];
     Aligned(init) && s.from == if s.added > 0 then s.at + Shift(init) else 0)
  }

  lemma SnocAligned(sp: seq<Splice>, s: Splice)
    ensures Shift(sp + [s]) == Shift(sp) + s.added - s.removed
    ensures Aligned(sp + [s]) == (Aligned(sp) && s.from == if s.added > 0 then s.at + Shift(sp) else 0)
  {
    assert (sp + [s])[..|sp|] == sp;
  }

  lemma {:induction false} BuiltLength<T>(p: seq<T>, c: seq<T>, sp: seq<Splice>)
    requires Fit(p, c, sp)
    ensures |Built(p, c, sp)| == End(sp) + Shift(sp)
  {
    if sp != [] {
      BuiltLength(p, c, sp[..|sp| - 1]);
    }
  }

  lemma TurnsLength<T>(p: seq<T>, c: seq<T>, sp: seq<Splice>, i: nat, j: nat)
    requires Turns(p, c, sp, i, j)
    ensures j == i + Shift(sp)
  {
    BuiltLength(p, c, sp);
    assert |c[..j]| == j;
  }

  /**
   A diff from `p` to `c`: in order, with gaps, pointing at the right elements, and leading from the one to the other.
   */
  ghost predicate IsDiff<T>(p: seq<T>, c: seq<T>, sp: seq<Splice>) {
    Fit(p, c, sp) && Gapped(sp) && Aligned(sp) && Patched(p, c, sp) == c
  }

  lemma TurnsAll<T>(p: seq<T>, c: seq<T>, sp: seq<Splice>)
    requires Turns(p, c, sp, |p|, |c|)
    ensures Patched(p, c, sp) == c
  {
    assert p[End(sp)..|p|] == p[End(sp)..] && c[..|c|] == c;
  }

  /** Keeping a run of elements that are the same on both sides. */
  lemma {:induction false} KeepRun<T>(p: seq<T>, c: seq<T>, sp: seq<Splice>, i: nat, j: nat, n: nat)
    requires Turns(p, c, sp, i, j) && i + n <= |p| && j + n <= |c|
    requires forall k :: i <= k < i + n ==> p[k] == c[k - i + j]
    ensures Turns(p, c, sp, i + n, j + n)
  {
    if n > 0 {
      KeepRun(p, c, sp, i, j, n - 1);
      Keep(p, c, sp, i + n - 1, j + n - 1);
    }
  }

  lemma {:induction false} FitPrefix<T>(p: seq<T>, c: seq<T>, sp: seq<Splice>, k: nat)
    requires Fit(p, c, sp) && k <= |sp|
    ensures Fit(p, c, sp[..k]) && Built(p, c, sp[..k]) <= Built(p, c, sp)
    ensures Gapped(sp) ==> Gapped(sp[..k])
    ensures Aligned(sp) ==> Aligned(sp[..k])
    decreases |sp|
  {
    if k < |sp| {
      FitPrefix(p, c, sp[..|sp| - 1], k);
      assert sp[..|sp| - 1][..k] == sp[..k];
    } else {
      assert sp[..k] == sp;
    }
  }

  // ---------- splices that need not be right ----------

  /** The position in the current state after the last elements that the splices take from it. */
  function Taken(sp: seq<Splice>): nat {
    if sp == [] then 0
    else if sp[|sp| - 1].added > 0 then sp[|sp| - 1].from + sp[|sp| - 1].added
    else Taken(sp[..|sp| - 1])
  }

  /**
   Within sequences of lengths `n` and `m`, every splice does something, between two of them at least one element stays,
   and no element is taken twice; they need not lead from one sequence to the other.
   */
  ghost predicate Orderly(n: nat, m: nat, sp: seq<Splice>) {
    sp == [] ||
    (var init, s := sp[..|sp| - 1], sp[|sp| - 1];
     && Orderly(n, m, init) && s.removed + s.added > 0 && (init != [] ==> End(init) < s.at)
        && (s.added > 0 ==> Taken(init) <= s.from)
     && s.at + s.removed <= n && s.from + s.added <= m)
  }

  lemma OrderlySnoc(n: nat, m: nat, sp: seq<Splice>, s: Splice)
    requires Orderly(n, m, sp) && s.removed + s.added > 0 && (sp == [] || End(sp) < s.at)
             && (s.added > 0 ==> Taken(sp) <= s.from)
    requires s.at + s.removed <= n && s.from + s.added <= m
    ensures Orderly(n, m, sp + [s]) && End(sp + [s]) == s.at + s.removed
    ensures Taken(sp + [s]) == if s.added > 0 then s.from + s.added else Taken(sp)
  {
    assert (sp + [s])[..|sp|] == sp;
  }

  /** The first `k` splices, and the one after them. */
  lemma {:induction false} OrderlyAt(n: nat, m: nat, sp: seq<Splice>, k: nat)
    requires Orderly(n, m, sp) && k < |sp|
    ensures Orderly(n, m, sp[..k]) && sp[k].removed + sp[k].added > 0 && (k > 0 ==> End(sp[..k]) < sp[k].at)
    ensures sp[k].added > 0 ==> Taken(sp[..k]) <= sp[k].from
    ensures sp[k].at + sp[k].removed <= n && sp[k].from + sp[k].added <= m
    decreases |sp|
  {
    var init := sp[..|sp| - 1];
    if k < |sp| - 1 {
      OrderlyAt(n, m, init, k);
      assert init[..k] == sp[..k];
    }
  }

  lemma {:induction false} OrderlyBounds(n: nat, m: nat, sp: seq<Splice>)
    requires Orderly(n, m, sp)
    ensures End(sp) <= n && Taken(sp) <= m
  {
    if sp != [] {
      OrderlyBounds(n, m, sp[..|sp| - 1]);
    }
  }

  lemma {:induction false} OrderlyFits<T>(p: seq<T>, c: seq<T>, sp: seq<Splice>)
    requires Orderly(|p|, |c|, sp)
    ensures Fit(p, c, sp) && Gapped(sp)
  {
    if sp != [] {
      OrderlyFits(p, c, sp[..|sp| - 1]);
    }
  }

  /** A diff is orderly. */
  lemma {:induction false} DiffOrderly<T>(p: seq<T>, c: seq<T>, sp: seq<Splice>)
    requires Fit(p, c, sp) && Gapped(sp) && Aligned(sp)
    ensures Orderly(|p|, |c|, sp) && Taken(sp) <= End(sp) + Shift(sp)
  {
    if sp != [] {
      DiffOrderly(p, c, sp[..|sp| - 1]);
    }
  }
}
