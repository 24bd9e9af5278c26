/** References ordered by height, and the queue that the graph searches keep of them. */
module RefQueues {

  /** What a reference points at, and how far that is above the values that reference nothing. */
  datatype Ref = Ref(hash: int, height: nat)

  /** Whether `a` is higher than `b`; the hash decides between references of the same height. */
  predicate HeightOrder(a: Ref, b: Ref) {
    if a.height == b.height then a.hash < b.hash else a.height > b.height
  }

  /** The highest references are last. */
  ghost predicate Sorted(q: seq<Ref>) {
    forall i, j :: 0 <= i < j < |q| ==> q[i] == q[j] || HeightOrder(q[j], q[i])
  }

  function MaxHeight(q: seq<Ref>): nat {
    if q == [] then 0 else q[|q| - 1].height
  }

  lemma MaxHeightIsMost(q: seq<Ref>)
    requires Sorted(q)
    ensures forall r :: r in q ==> r.height <= MaxHeight(q)
  {
  }

  ghost predicate SameElements(q: seq<Ref>, q': seq<Ref>) {
    forall r :: r in q <==> r in q'
  }

  /** Puts one more reference where it belongs. */
  method Insert(q: seq<Ref>, r: Ref) returns (q': seq<Ref>)
    requires Sorted(q)
    ensures Sorted(q') && |q'| == |q| + 1 && forall x :: x in q' <==> x in q || x == r
  {
    var k: nat := |q|;
    while k > 0 && HeightOrder(q[k - 1], r)
      invariant k <= |q|
      invariant forall i :: k <= i < |q| ==> HeightOrder(q[i], r)
    {
      k := k - 1;
    }
    q' := q[..k] + [r] + q[k..];
    InsertedAt(q, k, r, q');
    assert q == q[..k] + q[k..];
  }

  lemma InsertedAt(q: seq<Ref>, k: nat, r: Ref, q': seq<Ref>)
    requires Sorted(q) && k <= |q| && q' == q[..k] + [r] + q[k..]
    requires forall i :: k <= i < |q| ==> HeightOrder(q[i], r)
    requires k > 0 ==> !HeightOrder(q[k - 1], r)
    ensures Sorted(q')
  {
    forall i | 0 <= i < k ensures q[i] == r || HeightOrder(r, q[i]) {
      assert i < k - 1 ==> q[i] == q[k - 1] || HeightOrder(q[k - 1], q[i]);
    }
    forall i, j | 0 <= i < j < |q'| ensures q'[i] == q'[j] || HeightOrder(q'[j], q'[i]) {
      var i', j' := if i < k then i else i - 1, if j < k then j else j - 1;
      assert i != k ==> q'[i] == q[i'];
      assert j != k ==> q'[j] == q[j'];
    }
  }

  /** A sorted permutation. */
  method Sort(q: seq<Ref>) returns (q': seq<Ref>)
    ensures Sorted(q') && |q'| == |q| && SameElements(q, q')
  {
    q' := [];
    for i := 0 to |q|
      invariant Sorted(q') && |q'| == i && SameElements(q[..i], q')
    {
      assert q[..i + 1] == q[..i] + [q[i]];
      q' := Insert(q', q[i]);
    }
    assert q[..|q|] == q;
  }

  /** The highest references are last, and there is each only once. */
  ghost predicate Strict(q: seq<Ref>) {
    forall i, j :: 0 <= i < j < |q| ==> HeightOrder(q[j], q[i])
  }

  /** No two references to the same target. */
  ghost predicate OneEach(q: seq<Ref>) {
    forall r, s :: r in q && s in q && r.hash == s.hash ==> r == s
  }

  /** The first `n` references without those at the given places. */
  ghost function Without(q: seq<Ref>, indices: seq<nat>, n: nat): seq<Ref>
    requires n <= |q|
  {
    if n == 0 then [] else if n - 1 in indices then Without(q, indices, n - 1)
       else Without(q, indices, n - 1) + [q[n - 1]]
  }

  lemma LastInOrder(q: seq<Ref>, i: nat, result: seq<Ref>)
    requires Sorted(q) && i < |q| && Strict(result) && SameElements(q[..i], result) && q[i] !in result
    ensures Strict(result + [q[i]])
  {
    forall k | 0 <= k < |result| ensures HeightOrder(q[i], result[k]) {
      assert result[k] in q[..i];
      var l :| 0 <= l < i && q[..i][l] == result[k];
      assert q[l] == result[k];
    }
  }

  class RefByHeight {
    var refs: seq<Ref>

    constructor (r: Ref)
      ensures refs == [r]
    {
      refs := [r];
    }

    method PushBack(r: Ref)
      modifies this
      ensures refs == old(refs) + [r]
    {
      refs := refs + [r];
    }

    method PopBack() returns (r: Ref)
      requires refs != []
      modifies this
      ensures old(refs) == refs + [r]
    {
      r := refs[|refs| - 1];
      refs := refs[..|refs| - 1];
    }

    /** Takes off all references of the greatest height. */
    method PopRefsOfHeight(height: nat) returns (popped: seq<Ref>)
      requires Sorted(refs) && height > 0 && MaxHeight(refs) <= height
      modifies this
      ensures Sorted(refs) && MaxHeight(refs) < height
      ensures forall r :: r in popped <==> r in old(refs) && r.height == height
      ensures forall r :: r in refs <==> r in old(refs) && r.height < height
    {
      popped := [];
      while MaxHeight(refs) == height
        invariant Sorted(refs) && MaxHeight(refs) <= height
        invariant forall r :: r in popped ==> r.height == height
        invariant forall r :: r in old(refs) <==> r in refs || r in popped
        decreases |refs|
      {
        ghost var before := refs;
        var r := PopBack();
        assert before == refs + [r];
        popped := popped + [r];
        StillSorted(before, refs, r);
      }
      MaxHeightIsMost(refs);
    }

    /** Takes out the references at the given places. */
    method DropIndices(indices: seq<nat>)
      requires forall k :: 0 <= k < |indices| ==> indices[k] < |refs|
      requires forall k, l :: 0 <= k < l < |indices| ==> indices[k] > indices[l]
      modifies this
      ensures refs == Without(old(refs), indices, |old(refs)|)
    {
      var prior := refs;
      var left: nat, kept := |indices|, [];
      for i := 0 to |prior|
        invariant left <= |indices| && kept == Without(prior, indices, i)
        invariant forall k :: 0 <= k < left ==> i <= indices[k]
        invariant forall k :: left <= k < |indices| ==> indices[k] < i
      {
        if left > 0 && i == indices[left - 1] {
          left := left - 1;
        } else {
          kept := kept + [prior[i]];
        }
      }
      refs := kept;
    }

    /** Keeps only the first reference to each target. */
    method Unique()
      requires Sorted(refs) && OneEach(refs)
      modifies this
      ensures Strict(refs) && SameElements(old(refs), refs)
    {
      var prior := refs;
      var seen: set<int>, result := {}, [];
      for i := 0 to |prior|
        invariant Strict(result) && SameElements(prior[..i], result)
        invariant forall r :: r in prior[..i] ==> r.hash in seen
        invariant forall h :: h in seen ==> exists r :: r in prior[..i] && r.hash == h
      {
        var r := prior[i];
        assert prior[..i + 1] == prior[..i] + [r];
        if r.hash !in seen {
          LastInOrder(prior, i, result);
          result := result + [r];
        }
        seen := seen + {r.hash};
      }
      assert prior[..|prior|] == prior;
      refs := result;
    }

    method SortRefs()
      modifies this
      ensures Sorted(refs) && |refs| == |old(refs)| && SameElements(old(refs), refs)
    {
      refs := Sort(refs);
    }
  }

  lemma StillSorted(q: seq<Ref>, init: seq<Ref>, r: Ref)
    requires Sorted(q) && q == init + [r]
    ensures Sorted(init) && MaxHeight(init) <= r.height
  {
    assert forall i :: 0 <= i < |init| ==> init[i] == q[i];
    if init != [] {
      assert q[|init| - 1] == init[|init| - 1] && q[|init|] == r;
    }
  }
}
