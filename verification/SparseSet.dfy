/** Sparse sets over small numbers (internal/codesearch/sparse/set.go). */
module SparseSet {

  /** The members are listed in dense, in insertion order; sparse says where. Entries of sparse for
      non-members are left over from earlier uses and mean nothing. */
  class Set {
    var dense: seq<nat>
    const sparse: array<nat>

    ghost predicate Valid()
      reads this, sparse
    {
      forall k :: 0 <= k < |dense| ==> dense[k] < sparse.Length && sparse[dense[k]] == k
    }

    ghost function Elements(): set<nat>
      reads this
    {
      Members(dense)
    }

    constructor (max: nat)
      ensures Valid() && fresh(sparse) && sparse.Length == max && dense == []
    {
      sparse := new nat[max](_ => 0);
      dense := [];
    }

    method Reset()
      requires Valid()
      modifies this`dense
      ensures Valid() && dense == []
    {
      dense := [];
    }

    method Add(x: nat)
      requires Valid() && x < sparse.Length
      modifies this`dense, sparse
      ensures Valid()
      ensures dense == if x in old(dense) then old(dense) else old(dense) + [x]
      ensures Elements() == old(Elements()) + {x}
    {
      var v := sparse[x];
      if v < |dense| && dense[v] == x {
        return;
      }
      var n := |dense|;
      sparse[x] := n;
      dense := dense + [x];
    }

    method Has(x: nat) returns (b: bool)
      requires Valid() && x < sparse.Length
      ensures b <==> x in Elements()
    {
      var v := sparse[x];
      b := v < |dense| && dense[v] == x;
    }

    /** No member is listed twice, so Len is the size of the set. */
    lemma Distinct()
      requires Valid()
      ensures forall i, j :: 0 <= i < j < |dense| ==> dense[i] != dense[j]
      ensures |dense| == |Elements()|
    {
      DistinctCount(dense);
    }
  }

  function Members(s: seq<nat>): set<nat> {
    set x | x in s
  }

  lemma {:induction false} DistinctCount(s: seq<nat>)
    requires forall i, j :: 0 <= i < j < |s| ==> s[i] != s[j]
    ensures |s| == |Members(s)|
  {
    if s != [] {
      var n := |s| - 1;
      DistinctCount(s[..n]);
      assert Members(s) == Members(s[..n]) + {s[n]};
    }
  }
}
