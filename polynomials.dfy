/** The polynomial objects the root finder consumes, reduced to what its
    bookkeeping reads: the basis type, the dense coefficient array (its shape
    and its entries in row-major order), the leading term and the degree.
    Arithmetic, evaluation and the computation of the leading term are done by
    the polynomial classes, which are not part of this model. */
module Polynomials {
  import opened Monomials

  datatype Option<T> = None | Some(value: T)

  /** A result, or the error the source raises. */
  datatype Outcome<T> = Ok(value: T) | Err(reason: string)

  /** `s[idx]` (numpy fancy indexing, or `[s[i] for i in idx]`): the entries
      of s picked in the order idx gives. */
  function Select<T>(s: seq<T>, idx: seq<nat>): (r: seq<T>)
    requires forall k :: 0 <= k < |idx| ==> idx[k] < |s|
    ensures |r| == |idx| && forall k :: 0 <= k < |idx| ==> r[k] == s[idx[k]]
  {
    seq(|idx|, k requires 0 <= k < |idx| => s[idx[k]])
  }

  /** s lists each of 0..n-1 exactly once. */
  ghost predicate IsPermutation(s: seq<nat>, n: nat)
  {
    |s| == n &&
    (forall k :: 0 <= k < |s| ==> s[k] < n) &&
    (forall z: nat :: z < n ==> z in s) &&
    (forall i, j :: 0 <= i < j < |s| ==> s[i] != s[j])
  }

  /** Picking the entries of s through a permutation of its positions
      rearranges s: every entry keeps its multiplicity. */
  lemma {:induction false} SelectPermutation<T>(s: seq<T>, order: seq<nat>)
    requires IsPermutation(order, |s|)
    ensures multiset(Select(s, order)) == multiset(s)
    decreases |s|
  {
    if |s| > 0 {
      var n := |s| - 1;
      assert n in order;
      var j :| 0 <= j < |order| && order[j] == n;
      var rest := order[..j] + order[j + 1..];
      var init := s[..n];
      DropLast(order, j);
      SelectPermutation(init, rest);
      SelectSplit(s, order, j);
      assert s == init + [s[n]];
    }
  }

  /** Removing the largest index from a permutation of 0..n leaves a
      permutation of 0..n-1. */
  lemma DropLast(order: seq<nat>, j: nat)
    requires |order| > 0 && IsPermutation(order, |order|)
    requires j < |order| && order[j] == |order| - 1
    ensures IsPermutation(order[..j] + order[j + 1..], |order| - 1)
  {
    var n := |order| - 1;
    var rest := order[..j] + order[j + 1..];
    assert forall k :: 0 <= k < |rest| ==> rest[k] == if k < j then order[k] else order[k + 1];
    forall z: nat | z < n ensures z in rest {
      assert z in order;
      var k :| 0 <= k < |order| && order[k] == z;
      assert rest[if k < j then k else k - 1] == z;
    }
  }

  /** Selecting through order splits at the position j holding the last index. */
  lemma SelectSplit<T>(s: seq<T>, order: seq<nat>, j: nat)
    requires |s| > 0 && j < |order| && order[j] == |s| - 1
    requires forall k :: 0 <= k < |order| ==> order[k] < |s|
    requires forall k :: 0 <= k < |order| && k != j ==> order[k] < |s| - 1
    ensures multiset(Select(s, order)) ==
            multiset(Select(s[..|s| - 1], order[..j] + order[j + 1..])) + multiset{s[|s| - 1]}
  {
    var init := s[..|s| - 1];
    assert Select(s, order) == Select(init, order[..j]) + [s[|s| - 1]] + Select(init, order[j + 1..]);
    assert Select(init, order[..j] + order[j + 1..]) == Select(init, order[..j]) + Select(init, order[j + 1..]);
  }

  /** `MultiPower` (power basis) or `MultiCheb` (Chebyshev basis). */
  datatype Kind = MultiPower | MultiCheb

  /** A dense coefficient array: its shape and its entries in row-major order. */
  datatype Coeff = Coeff(shape: seq<nat>, data: seq<real>)

  datatype Poly = Poly(kind: Kind, coeff: Coeff, leadTerm: Mon, degree: nat)

  /** `poly.dim`: the number of axes of the coefficient array. */
  function Dim(p: Poly): (axes: nat)
  {
    |p.coeff.shape|
  }

  /** `coeff[..., np.newaxis]`: the same entries with a trailing axis of
      length 1 (row-major data is unchanged by it). */
  function AddAxis(c: Coeff): (r: Coeff)
    ensures r.shape == c.shape + [1] && r.data == c.data
  {
    Coeff(c.shape + [1], c.data)
  }

  /** The polynomial of the same kind rebuilt from its coefficients with one
      more variable. The new variable does not occur, so the leading term
      gains a trailing 0 exponent and the degree is unchanged. */
  function Promote(p: Poly): (q: Poly)
    ensures Dim(q) == Dim(p) + 1 && q.kind == p.kind
    ensures q.coeff.shape == p.coeff.shape + [1] && q.coeff.data == p.coeff.data
    ensures q.leadTerm == p.leadTerm + [0] && q.degree == p.degree
  {
    Poly(p.kind, AddAxis(p.coeff), p.leadTerm + [0], p.degree)
  }
}
