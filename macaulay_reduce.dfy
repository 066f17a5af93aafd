/** The structural part of yroots/MacaulayReduce.py: the Macaulay degree bound,
    the assembly of the rows of one generator, and the bookkeeping steps of the
    two reductions -- relabelling the middle block of columns, the returned
    permutation, trimming the trailing zero rows, zeroing the D block and
    overwriting the leading block with the identity.

    The matrix is taken as it stands once the numerical steps (the QR
    factorisations, the products with Q^T and the triangular solves) have
    written their blocks; those steps are not part of this model and the
    entries they own are left as they are. */
module MacaulayReduce {
  import opened Monomials
  import opened Polynomials

  // ---------------------------------------------------------------------
  // Degree selection
  // ---------------------------------------------------------------------

  function SumDegrees(polys: seq<Poly>): (total: nat)
  {
    if |polys| == 0 then 0 else polys[0].degree + SumDegrees(polys[1..])
  }

  /** `find_degree(poly_list)`: the Macaulay bound. */
  function FindDegree(polys: seq<Poly>): (d: int)
    ensures d == Excess(polys) + 1
  {
    ExcessIsSum(polys);
    SumDegrees(polys) - |polys| + 1
  }

  /** The excess of the generators over linear ones: sum of (degree - 1). */
  function Excess(polys: seq<Poly>): (e: int)
  {
    if |polys| == 0 then 0 else polys[0].degree - 1 + Excess(polys[1..])
  }

  /** The bound is one more than the total excess of the degrees, and when
      every generator has degree at least 1 it is at least the degree of each
      generator, so every generator gets multipliers of degree
      `degree - poly.degree >= 0` in `add_polys`. */
  lemma {:induction false} FindDegreeBound(polys: seq<Poly>)
    ensures FindDegree(polys) == Excess(polys) + 1
    ensures (forall k :: 0 <= k < |polys| ==> polys[k].degree >= 1) ==>
              forall k :: 0 <= k < |polys| ==> polys[k].degree <= FindDegree(polys)
  {
    ExcessIsSum(polys);
    if forall k :: 0 <= k < |polys| ==> polys[k].degree >= 1 {
      forall k | 0 <= k < |polys| ensures polys[k].degree <= FindDegree(polys) {
        ExcessCovers(polys, k);
      }
    }
  }

  lemma {:induction false} ExcessIsSum(polys: seq<Poly>)
    ensures Excess(polys) == SumDegrees(polys) - |polys|
  {
    if |polys| > 0 {
      ExcessIsSum(polys[1..]);
    }
  }

  lemma {:induction false} ExcessCovers(polys: seq<Poly>, k: nat)
    requires k < |polys|
    requires forall j :: 0 <= j < |polys| ==> polys[j].degree >= 1
    ensures polys[k].degree - 1 <= Excess(polys)
  {
    ExcessNonNegative(polys[1..]);
    if k > 0 {
      ExcessCovers(polys[1..], k - 1);
    }
  }

  lemma {:induction false} ExcessNonNegative(polys: seq<Poly>)
    requires forall j :: 0 <= j < |polys| ==> polys[j].degree >= 1
    ensures Excess(polys) >= 0
  {
    if |polys| > 0 {
      ExcessNonNegative(polys[1..]);
    }
  }

  /** For a system of linear generators the Macaulay matrix has degree 1. */
  lemma {:induction false} FindDegreeLinear(polys: seq<Poly>)
    requires forall k :: 0 <= k < |polys| ==> polys[k].degree == 1
    ensures FindDegree(polys) == 1
  {
    ExcessIsSum(polys);
    ExcessOfLinear(polys);
  }

  lemma {:induction false} ExcessOfLinear(polys: seq<Poly>)
    requires forall k :: 0 <= k < |polys| ==> polys[k].degree == 1
    ensures Excess(polys) == 0
  {
    if |polys| > 0 {
      ExcessOfLinear(polys[1..]);
    }
  }

  // ---------------------------------------------------------------------
  // Rows of the Macaulay matrix
  // ---------------------------------------------------------------------

  /** The multipliers `mons[1:]` that `add_polys` applies after the identity:
      exactly the non-constant monomials of degree at most d, each once. */
  lemma NonConstantMultipliers(dim: nat, d: nat)
    ensures |MonCombos(dim, d)| >= 1
    ensures forall m :: m in MonCombos(dim, d)[1..] <==> |m| == dim && 0 < Sum(m) <= d
    ensures forall i, j :: 1 <= i < j < |MonCombos(dim, d)| ==> MonCombos(dim, d)[i] != MonCombos(dim, d)[j]
  {
    var s := MonCombos(dim, d);
    MonCombosHead(dim, d);
    MonCombosSorted(dim, d);
    LexSortedDistinct(s);
    forall m ensures m in s[1..] <==> |m| == dim && 0 < Sum(m) <= d {
      MonCombosMember(dim, d, m);
      assert s == [s[0]] + s[1..];
      if |m| == dim && Sum(m) == 0 {
        SumZeroIsZeros(m);
      }
    }
  }

  /** `mon_combos([0]*poly.dim, degree - poly.degree)`: the identity first,
      then the multipliers of `poly` in a degree-`degree` Macaulay matrix. */
  function Multipliers(poly: Poly, degree: nat): (mons: seq<Mon>)
    requires poly.degree <= degree
    ensures |mons| >= 1 && mons[0] == Zeros(Dim(poly))
  {
    MonCombosHead(Dim(poly), degree - poly.degree);
    MonCombos(Dim(poly), degree - poly.degree)
  }

  /** The list `poly_coeff_list` that `add_polys` appends to in place. */
  class MacaulayRows {
    var coeffs: seq<Coeff>

    constructor ()
      ensures coeffs == []
    {
      coeffs := [];
    }

    /** `add_polys(degree, poly, poly_coeff_list)`: append `poly.coeff`, then
        `poly.mon_mult(mon)` for every non-constant multiplier `mon` of
        degree at most `degree - poly.degree`, in the order of `mon_combos`.
        `monMult` stands for `poly.mon_mult(·, returnType='Matrix')`. */
    method AddPolys(degree: nat, poly: Poly, monMult: Mon -> Coeff) returns (list: seq<Coeff>)
      requires poly.degree <= degree
      modifies this
      ensures coeffs == old(coeffs) + [poly.coeff] + MapCoeffs(monMult, Multipliers(poly, degree)[1..])
      ensures list == coeffs
    {
      coeffs := coeffs + [poly.coeff];
      var mons := Multipliers(poly, degree);
      ghost var start := coeffs;
      for k := 1 to |mons|
        invariant coeffs == start + MapCoeffs(monMult, mons[1..k])
      {
        MapCoeffsSnoc(monMult, mons[1..k], mons[k]);
        assert mons[1..k + 1] == mons[1..k] + [mons[k]];
        coeffs := coeffs + [monMult(mons[k])];
      }
      list := coeffs;
    }
  }

  /** `[f(m) for m in ms]`. */
  function MapCoeffs(f: Mon -> Coeff, ms: seq<Mon>): (r: seq<Coeff>)
    ensures |r| == |ms| && forall k :: 0 <= k < |ms| ==> r[k] == f(ms[k])
  {
    seq(|ms|, k requires 0 <= k < |ms| => f(ms[k]))
  }

  lemma MapCoeffsSnoc(f: Mon -> Coeff, ms: seq<Mon>, m: Mon)
    ensures MapCoeffs(f, ms + [m]) == MapCoeffs(f, ms) + [f(m)]
  {
  }

  // ---------------------------------------------------------------------
  // Column relabelling of the middle block
  // ---------------------------------------------------------------------

  /** `perm = np.arange(n); perm[c0:c1] = perm[c0:c1][P]`: the identity
      outside the middle block and the pivoting permutation P inside it. */
  function PermutationVector(n: nat, c0: nat, c1: nat, P: seq<nat>): (perm: seq<nat>)
    requires c0 <= c1 <= n && IsPermutation(P, c1 - c0)
    ensures |perm| == n
    ensures forall k :: 0 <= k < n && !(c0 <= k < c1) ==> perm[k] == k
    ensures forall k :: 0 <= k < c1 - c0 ==> perm[c0 + k] == c0 + P[k]
  {
    seq(n, k requires 0 <= k < n => if c0 <= k < c1 then c0 + P[k - c0] else k)
  }

  /** The returned `perm` is a permutation of the column indices that fixes
      every index outside the middle block. */
  lemma PermutationVectorIsPermutation(n: nat, c0: nat, c1: nat, P: seq<nat>)
    requires c0 <= c1 <= n && IsPermutation(P, c1 - c0)
    ensures IsPermutation(PermutationVector(n, c0, c1, P), n)
    ensures forall k :: 0 <= k < n ==> (c0 <= PermutationVector(n, c0, c1, P)[k] < c1 <==> c0 <= k < c1)
  {
    PermutationVectorCovers(n, c0, c1, P);
    PermutationVectorDistinct(n, c0, c1, P);
  }

  lemma PermutationVectorCovers(n: nat, c0: nat, c1: nat, P: seq<nat>)
    requires c0 <= c1 <= n && IsPermutation(P, c1 - c0)
    ensures forall z: nat :: z < n ==> z in PermutationVector(n, c0, c1, P)
  {
    var perm := PermutationVector(n, c0, c1, P);
    forall z: nat | z < n ensures z in perm {
      if c0 <= z < c1 {
        assert (z - c0) in P;
        var q :| 0 <= q < |P| && P[q] == z - c0;
        assert perm[c0 + q] == z;
      } else {
        assert perm[z] == z;
      }
    }
  }

  lemma PermutationVectorDistinct(n: nat, c0: nat, c1: nat, P: seq<nat>)
    requires c0 <= c1 <= n && IsPermutation(P, c1 - c0)
    ensures forall i, j :: 0 <= i < j < n ==> PermutationVector(n, c0, c1, P)[i] != PermutationVector(n, c0, c1, P)[j]
  {
    var perm := PermutationVector(n, c0, c1, P);
    forall i, j | 0 <= i < j < n ensures perm[i] != perm[j] {
      if c0 <= i < c1 && c0 <= j < c1 {
        assert P[i - c0] != P[j - c0];
      }
    }
  }

  /** `matrix_terms[cuts[0]:cuts[1]] = matrix_terms[cuts[0]:cuts[1]][P]`. */
  method PermuteTerms(terms: array<Mon>, c0: nat, c1: nat, P: seq<nat>)
    requires c0 <= c1 <= terms.Length && IsPermutation(P, c1 - c0)
    modifies terms
    ensures forall k :: 0 <= k < terms.Length && !(c0 <= k < c1) ==> terms[k] == old(terms[k])
    ensures forall k :: 0 <= k < c1 - c0 ==> terms[c0 + k] == old(terms[c0 + P[k]])
  {
    var block := terms[c0..c1];
    for k := 0 to c1 - c0
      invariant forall q :: 0 <= q < terms.Length && !(c0 <= q < c0 + k) ==> terms[q] == old(terms[q])
      invariant forall q :: 0 <= q < k ==> terms[c0 + q] == old(terms[c0 + P[q]])
    {
      assert P[k] in P;
      terms[c0 + k] := block[P[k]];
    }
  }

  /** Entry (i, j) once the columns c0..c1-1 of the first `top` rows (block B)
      are permuted by P. */
  function PermutedEntry(m: array2<real>, i: nat, j: nat, top: nat, c0: nat, c1: nat, P: seq<nat>): (x: real)
    requires i < m.Length0 && j < m.Length1
    requires c0 <= c1 <= m.Length1 && IsPermutation(P, c1 - c0)
    reads m
  {
    if i < top && c0 <= j < c1 then m[i, c0 + P[j - c0]] else m[i, j]
  }

  /** P maps the positions of a block of length n into the block. */
  predicate IndexesInto(P: seq<nat>, n: nat)
  {
    |P| == n && forall k :: 0 <= k < |P| ==> P[k] < n
  }

  /** A copy of row i, columns c0..c1-1. */
  function RowSlice(m: array2<real>, i: nat, c0: nat, c1: nat): (row: seq<real>)
    requires i < m.Length0 && c0 <= c1 <= m.Length1
    reads m
    ensures |row| == c1 - c0 && forall q :: 0 <= q < c1 - c0 ==> row[q] == m[i, c0 + q]
  {
    seq(c1 - c0, q requires 0 <= q < c1 - c0 reads m => m[i, c0 + q])
  }

  /** Write vals into row i from column c0 on. */
  method WriteRowSlice(m: array2<real>, i: nat, c0: nat, vals: seq<real>)
    requires i < m.Length0 && c0 + |vals| <= m.Length1
    modifies m
    ensures forall r, c :: 0 <= r < m.Length0 && 0 <= c < m.Length1 && r != i ==> m[r, c] == old(m[r, c])
    ensures forall c :: 0 <= c < m.Length1 ==>
              m[i, c] == if c0 <= c < c0 + |vals| then vals[c - c0] else old(m[i, c])
  {
    for k := 0 to |vals|
      invariant forall r, c :: 0 <= r < m.Length0 && 0 <= c < m.Length1 && r != i ==> m[r, c] == old(m[r, c])
      invariant forall c :: 0 <= c < m.Length1 ==>
                  m[i, c] == if c0 <= c < c0 + k then vals[c - c0] else old(m[i, c])
    {
      m[i, c0 + k] := vals[k];
    }
  }

  /** One row of `B[...] = B[:, P]`: row i, columns c0..c1-1. */
  method PermuteRow(m: array2<real>, i: nat, c0: nat, c1: nat, P: seq<nat>)
    requires i < m.Length0 && c0 <= c1 <= m.Length1 && IndexesInto(P, c1 - c0)
    modifies m
    ensures forall r, c :: 0 <= r < m.Length0 && 0 <= c < m.Length1 && r != i ==> m[r, c] == old(m[r, c])
    ensures forall c :: 0 <= c < m.Length1 ==>
              m[i, c] == if c0 <= c < c1 then old(m[i, c0 + P[c - c0]]) else old(m[i, c])
  {
    var row := RowSlice(m, i, c0, c1);
    WriteRowSlice(m, i, c0, Select(row, P));
  }

  /** `B[...] = B[:, P]`, B being the first `top` rows of the columns c0..c1-1. */
  method PermuteColumns(m: array2<real>, top: nat, c0: nat, c1: nat, P: seq<nat>)
    requires top <= m.Length0 && c0 <= c1 <= m.Length1 && IsPermutation(P, c1 - c0)
    modifies m
    ensures forall i, j :: 0 <= i < m.Length0 && 0 <= j < m.Length1 ==>
              m[i, j] == old(PermutedEntry(m, i, j, top, c0, c1, P))
  {
    for i := 0 to top
      invariant forall r, c :: 0 <= r < m.Length0 && 0 <= c < m.Length1 ==>
                  m[r, c] == old(PermutedEntry(m, r, c, i, c0, c1, P))
    {
      PermuteRow(m, i, c0, c1, P);
    }
  }

  // ---------------------------------------------------------------------
  // Trimming zero rows, zero and identity blocks
  // ---------------------------------------------------------------------

  /** `np.allclose(row, 0, atol=accuracy)`: every entry within accuracy of 0.
      A row of exact zeros passes for any accuracy >= 0, and with a negative
      accuracy no nonempty row passes. */
  predicate RowNearZero(m: array2<real>, i: nat, accuracy: real)
    requires i < m.Length0
    reads m
    ensures 0.0 <= accuracy && (forall j :: 0 <= j < m.Length1 ==> m[i, j] == 0.0) ==> RowNearZero(m, i, accuracy)
    ensures accuracy < 0.0 && m.Length1 > 0 ==> !RowNearZero(m, i, accuracy)
  {
    assert accuracy < 0.0 && m.Length1 > 0 ==> !(-accuracy <= m[i, 0] <= accuracy);
    forall j :: 0 <= j < m.Length1 ==> -accuracy <= m[i, j] <= accuracy
  }

  /** The trailing-zero-row loop over the first `rows` rows: the returned
      height keeps a prefix; every dropped row is within accuracy of 0 and
      the last kept row, if any, is not. */
  method TrimZeroRows(m: array2<real>, rows: nat, accuracy: real) returns (height: nat)
    requires rows <= m.Length0
    ensures height <= rows
    ensures forall i :: height <= i < rows ==> RowNearZero(m, i, accuracy)
    ensures height > 0 ==> !RowNearZero(m, height - 1, accuracy)
  {
    height := rows;
    var r := rows;
    while r > 0
      invariant height == r
      invariant forall i :: height <= i < rows ==> RowNearZero(m, i, accuracy)
    {
      r := r - 1;
      if RowNearZero(m, r, accuracy) {
        height := height - 1;
      } else {
        break;
      }
    }
  }

  /** `matrix[:h, :h] = np.eye(h)` (the rows beyond h are not part of the
      trimmed matrix). */
  method SetIdentityBlock(m: array2<real>, h: nat)
    requires h <= m.Length0 && h <= m.Length1
    modifies m
    ensures forall i, j :: 0 <= i < m.Length0 && 0 <= j < m.Length1 ==>
              m[i, j] == if i < h && j < h then (if i == j then 1.0 else 0.0) else old(m[i, j])
  {
    for i := 0 to h
      invariant forall r, c :: 0 <= r < m.Length0 && 0 <= c < m.Length1 ==>
                  m[r, c] == if r < i && c < h then (if r == c then 1.0 else 0.0) else old(m[r, c])
    {
      for j := 0 to h
        invariant forall r, c :: 0 <= r < m.Length0 && 0 <= c < m.Length1 ==>
                    m[r, c] == if (r < i || (r == i && c < j)) && c < h then (if r == c then 1.0 else 0.0) else old(m[r, c])
      {
        m[i, j] := if i == j then 1.0 else 0.0;
      }
    }
  }

  /** `D[...] = 0` for D = rows r0..r1-1 of the first `cols` columns. */
  method ZeroBlock(m: array2<real>, r0: nat, r1: nat, cols: nat)
    requires r0 <= r1 <= m.Length0 && cols <= m.Length1
    modifies m
    ensures forall i, j :: 0 <= i < m.Length0 && 0 <= j < m.Length1 ==>
              m[i, j] == if r0 <= i < r1 && j < cols then 0.0 else old(m[i, j])
  {
    for i := r0 to r1
      invariant forall r, c :: 0 <= r < m.Length0 && 0 <= c < m.Length1 ==>
                  m[r, c] == if r0 <= r < i && c < cols then 0.0 else old(m[r, c])
    {
      for j := 0 to cols
        invariant forall r, c :: 0 <= r < m.Length0 && 0 <= c < m.Length1 ==>
                    m[r, c] == if (r0 <= r < i || (r == i && c < j)) && c < cols then 0.0 else old(m[r, c])
      {
        m[i, j] := 0.0;
      }
    }
  }

  /** `matrix[np.isclose(matrix, 0, atol=accuracy)] = 0`: every entry within
      accuracy of 0 becomes exactly 0, every other entry is kept. */
  method ClearSmallEntries(m: array2<real>, accuracy: real)
    modifies m
    ensures forall i, j :: 0 <= i < m.Length0 && 0 <= j < m.Length1 ==>
              m[i, j] == if -accuracy <= old(m[i, j]) <= accuracy then 0.0 else old(m[i, j])
  {
    for i := 0 to m.Length0
      invariant forall r, c :: 0 <= r < m.Length0 && 0 <= c < m.Length1 ==>
                  m[r, c] == if r < i && -accuracy <= old(m[r, c]) <= accuracy then 0.0 else old(m[r, c])
    {
      for j := 0 to m.Length1
        invariant forall r, c :: 0 <= r < m.Length0 && 0 <= c < m.Length1 ==>
                    m[r, c] == if (r < i || (r == i && c < j)) && -accuracy <= old(m[r, c]) <= accuracy
                               then 0.0 else old(m[r, c])
      {
        if -accuracy <= m[i, j] <= accuracy {
          m[i, j] := 0.0;
        }
      }
    }
  }

  // ---------------------------------------------------------------------
  // The two reductions, structurally
  // ---------------------------------------------------------------------

  function Min(a: nat, b: nat): (least: nat)
  {
    if a <= b then a else b
  }

  /** `cuts[0] + R.shape[0]`: the rows `rrqr_reduceMacaulay2` keeps, R being
      the economic triangular factor of the (rows - c0) x (c1 - c0) block E. */
  function KeptRows(rows: nat, c0: nat, c1: nat): (kept: nat)
    requires c0 <= rows && c0 <= c1
    ensures c0 <= kept && kept <= rows && kept <= c1
    ensures kept == rows || kept == c1
  {
    c0 + Min(rows - c0, c1 - c0)
  }

  /** `row_swap_matrix(matrix[:rows])`: a new array holding the first `rows`
      rows in the order Q gives. Which order that helper picks is not part of
      this model; Q is the reordering it chooses. */
  method RowSwap(m: array2<real>, rows: nat, Q: seq<nat>) returns (s: array2<real>)
    requires rows <= m.Length0 && IsPermutation(Q, rows)
    ensures fresh(s) && s.Length0 == rows && s.Length1 == m.Length1
    ensures forall i, j :: 0 <= i < rows && 0 <= j < m.Length1 ==> s[i, j] == m[Q[i], j]
  {
    s := new real[rows, m.Length1];
    for i := 0 to rows
      invariant forall r, c :: 0 <= r < i && 0 <= c < m.Length1 ==> s[r, c] == m[Q[r], c]
    {
      for j := 0 to m.Length1
        invariant forall r, c :: (0 <= r < i || r == i) && 0 <= c < m.Length1 && (r < i || c < j) ==> s[r, c] == m[Q[r], c]
      {
        s[i, j] := m[Q[i], j];
      }
    }
  }

  /** `rrqr_reduceMacaulay(matrix, matrix_terms, cuts, accuracy, return_perm)`,
      its bookkeeping steps in source order: permute the columns of B and the
      labels of the middle block by P (in the caller's arrays), build `perm`,
      reorder the rows by `row_swap_matrix` (Q) into a new array, trim the
      trailing zero rows and overwrite the leading height x height block with
      the identity. The result is the trimmed height and the new array, or an
      error when the kept rows outnumber the columns (the triangular solve
      needs a square block). */
  method RrqrReduceMacaulay(matrix: array2<real>, terms: array<Mon>, c0: nat, c1: nat,
                            P: seq<nat>, Q: seq<nat>, accuracy: real)
    returns (r: Outcome<nat>, perm: seq<nat>, reduced: array2<real>)
    requires terms.Length == matrix.Length1
    requires c0 <= c1 <= matrix.Length1 && IsPermutation(P, c1 - c0) && IsPermutation(Q, matrix.Length0)
    modifies matrix, terms
    ensures perm == PermutationVector(matrix.Length1, c0, c1, P)
    ensures forall k :: 0 <= k < terms.Length ==> terms[k] == old(terms[perm[k]])
    ensures forall i, j :: 0 <= i < matrix.Length0 && 0 <= j < matrix.Length1 ==>
              matrix[i, j] == old(PermutedEntry(matrix, i, j, Min(c0, matrix.Length0), c0, c1, P))
    ensures fresh(reduced) && reduced.Length0 == matrix.Length0 && reduced.Length1 == matrix.Length1
    ensures r.Err? <==> exists i :: matrix.Length1 <= i < matrix.Length0 && !RowNearZero(matrix, Q[i], accuracy)
    ensures r.Ok? ==> r.value <= matrix.Length0 && r.value <= matrix.Length1
    ensures r.Ok? ==> forall i :: r.value <= i < matrix.Length0 ==> RowNearZero(matrix, Q[i], accuracy)
    ensures r.Ok? && r.value > 0 ==> !RowNearZero(matrix, Q[r.value - 1], accuracy)
    ensures forall i, j :: 0 <= i < reduced.Length0 && 0 <= j < reduced.Length1 ==>
              reduced[i, j] == if r.Ok? && i < r.value && j < r.value then (if i == j then 1.0 else 0.0)
                               else matrix[Q[i], j]
  {
    var top := Min(c0, matrix.Length0);
    perm := PivotBlock(matrix, terms, top, c0, c1, P);
    reduced := RowSwap(matrix, matrix.Length0, Q);
    forall i | 0 <= i < reduced.Length0
      ensures RowNearZero(reduced, i, accuracy) <==> RowNearZero(matrix, Q[i], accuracy)
    {
    }
    r := TrimAndNormalize(reduced, reduced.Length0, accuracy);
  }

  /** The pivoting shared by both reductions: the columns c0..c1-1 of the
      first `top` rows and their labels are permuted by P, and the matching
      permutation of all column indices is returned. */
  method PivotBlock(matrix: array2<real>, terms: array<Mon>, top: nat, c0: nat, c1: nat, P: seq<nat>)
    returns (perm: seq<nat>)
    requires terms.Length == matrix.Length1 && top <= matrix.Length0
    requires c0 <= c1 <= matrix.Length1 && IsPermutation(P, c1 - c0)
    modifies matrix, terms
    ensures perm == PermutationVector(matrix.Length1, c0, c1, P)
    ensures forall k :: 0 <= k < terms.Length ==> terms[k] == old(terms[perm[k]])
    ensures forall i, j :: 0 <= i < matrix.Length0 && 0 <= j < matrix.Length1 ==>
              matrix[i, j] == old(PermutedEntry(matrix, i, j, top, c0, c1, P))
  {
    PermuteColumns(matrix, top, c0, c1, P);
    PermuteTerms(terms, c0, c1, P);
    perm := PermutationVector(matrix.Length1, c0, c1, P);
  }

  /** The tail shared by both reductions, on the first `rows` rows: trim the
      trailing zero rows and overwrite the leading height x height block with
      the identity; an error, leaving the matrix as it is, when the kept rows
      outnumber the columns. */
  method TrimAndNormalize(m: array2<real>, rows: nat, accuracy: real) returns (r: Outcome<nat>)
    requires rows <= m.Length0
    modifies m
    ensures r.Err? <==> (exists i :: m.Length1 <= i < rows && old(!RowNearZero(m, i, accuracy)))
    ensures r.Err? ==> forall i, j :: 0 <= i < m.Length0 && 0 <= j < m.Length1 ==> m[i, j] == old(m[i, j])
    ensures r.Ok? ==> r.value <= rows && r.value <= m.Length1
    ensures r.Ok? ==> forall i :: r.value <= i < rows ==> old(RowNearZero(m, i, accuracy))
    ensures r.Ok? && r.value > 0 ==> old(!RowNearZero(m, r.value - 1, accuracy))
    ensures r.Ok? ==> forall i, j :: 0 <= i < m.Length0 && 0 <= j < m.Length1 ==>
              m[i, j] == if i < r.value && j < r.value then (if i == j then 1.0 else 0.0) else old(m[i, j])
  {
    var height := TrimZeroRows(m, rows, accuracy);
    forall i | 0 <= i < rows
      ensures RowNearZero(m, i, accuracy) <==> old(RowNearZero(m, i, accuracy))
    {
    }
    if height > m.Length1 {
      assert old(!RowNearZero(m, height - 1, accuracy));
      return Err("expected square matrix");
    }
    assert height > 0 ==> old(!RowNearZero(m, height - 1, accuracy));
    SetIdentityBlock(m, height);
    r := Ok(height);
  }

  /** Entry (i, j) of the reduced matrix of `rrqr_reduceMacaulay2` before the
      final trim: A is the identity (after the top backsolve), D of the kept
      rows is zero, and B is permuted by P. */
  function StagedEntry(m: array2<real>, i: nat, j: nat, c0: nat, c1: nat, P: seq<nat>, kept: nat): (x: real)
    requires i < m.Length0 && j < m.Length1
    requires c0 <= c1 <= m.Length1 && IsPermutation(P, c1 - c0)
    reads m
  {
    if i < c0 && j < c0 then (if i == j then 1.0 else 0.0)
    else if c0 <= i < kept && j < c0 then 0.0
    else PermutedEntry(m, i, j, c0, c0, c1, P)
  }

  /** `rrqr_reduceMacaulay2(matrix, matrix_terms, cuts, accuracy)`, its
      bookkeeping steps in source order: A becomes the identity, the matrix is
      cut to `cuts[0] + R.shape[0]` rows (R being the min(rows - c0, c1 - c0)
      by c1 - c0 factor of E), D of the kept rows becomes zero, B and the
      labels of the middle block are permuted by P (all in the caller's
      arrays), the kept rows are reordered by `row_swap_matrix` (Q) into a new
      array, its trailing zero rows are trimmed and its leading height x
      height block becomes the identity. With fewer rows than cuts[0] the
      block A is not square and the triangular solve on it fails. */
  method RrqrReduceMacaulay2(matrix: array2<real>, terms: array<Mon>, c0: nat, c1: nat,
                             P: seq<nat>, Q: seq<nat>, accuracy: real)
    returns (r: Outcome<nat>, reduced: array2<real>)
    requires terms.Length == matrix.Length1
    requires c0 <= c1 <= matrix.Length1 && IsPermutation(P, c1 - c0)
    requires c0 <= matrix.Length0 ==> IsPermutation(Q, KeptRows(matrix.Length0, c0, c1))
    modifies matrix, terms
    ensures fresh(reduced)
    ensures r.Err? <==> c0 > matrix.Length0
    ensures r.Err? ==> forall k :: 0 <= k < terms.Length ==> terms[k] == old(terms[k])
    ensures r.Ok? ==>
              forall k :: 0 <= k < terms.Length ==> terms[k] == old(terms[PermutationVector(matrix.Length1, c0, c1, P)[k]])
    ensures r.Ok? ==> forall i, j :: 0 <= i < matrix.Length0 && 0 <= j < matrix.Length1 ==>
              matrix[i, j] == old(StagedEntry(matrix, i, j, c0, c1, P, KeptRows(matrix.Length0, c0, c1)))
    ensures r.Ok? ==> reduced.Length0 == KeptRows(matrix.Length0, c0, c1) && reduced.Length1 == matrix.Length1
    ensures r.Ok? ==> r.value <= reduced.Length0 && r.value <= matrix.Length1
    ensures r.Ok? ==> forall i :: r.value <= i < reduced.Length0 ==> RowNearZero(matrix, Q[i], accuracy)
    ensures r.Ok? && r.value > 0 ==> !RowNearZero(matrix, Q[r.value - 1], accuracy)
    ensures r.Ok? ==> forall i, j :: 0 <= i < reduced.Length0 && 0 <= j < reduced.Length1 ==>
              reduced[i, j] == if i < r.value && j < r.value then (if i == j then 1.0 else 0.0) else matrix[Q[i], j]
  {
    if c0 > matrix.Length0 {
      reduced := new real[0, 0];
      return Err("expected square matrix"), reduced;
    }
    SetIdentityBlock(matrix, c0);
    var kept := KeptRows(matrix.Length0, c0, c1);
    ZeroBlock(matrix, c0, kept, c0);
    var _ := PivotBlock(matrix, terms, c0, c0, c1, P);
    forall i, j | 0 <= i < matrix.Length0 && 0 <= j < matrix.Length1
      ensures matrix[i, j] == old(StagedEntry(matrix, i, j, c0, c1, P, kept))
    {
    }
    reduced := RowSwap(matrix, kept, Q);
    forall i | 0 <= i < reduced.Length0
      ensures RowNearZero(reduced, i, accuracy) <==> RowNearZero(matrix, Q[i], accuracy)
    {
    }
    r := TrimAndNormalize(reduced, kept, accuracy);
  }
}
