# RootFinding: the combinatorial core of the Groebner and Macaulay root finders

This project models, in Dafny, the bookkeeping at the heart of two files of
the RootFinding repository:

- `groebner/root_finder.py`: reading the vector-space basis of the quotient
  ring off the leading terms of a Groebner basis, the tests for finitely many
  solutions, the lookup of a basis polynomial by leading term, matching the
  dimensions of two polynomials, ordering a basis in degrevlex order and
  ordering polynomials by their leading-coefficient ratio, and the variable
  bookkeeping done when the roots are assembled.
- `yroots/MacaulayReduce.py`: the Macaulay degree bound, the assembly of the
  rows contributed by one generator, and the structural steps of the two
  reductions of a Macaulay matrix. These steps are the relabelling of the
  middle block of columns by the pivoting permutation, the returned
  permutation vector, trimming trailing zero rows, zeroing the D block and
  overwriting the leading block with the identity.

Files:

- `monomials.dfy` (module `Monomials`): exponent tuples and the utility
  helpers the source imports. These are `divides`, `get_var_list`,
  `mon_combos` and the degrevlex order of `Term`. Their definitions are not
  part of this model and are written out here as described beside each one.
- `polynomials.dfy` (module `Polynomials`): the polynomial record the
  bookkeeping reads, with its basis kind, coefficient shape and data, lead
  term and degree. It also holds the `Option` and `Outcome` result types,
  indexing a sequence through a list of positions (`Select`), and the proof
  that indexing through a permutation keeps the multiset.
- `root_finder.dfy` (module `RootFinder`): `groebner/root_finder.py`.
- `macaulay_reduce.dfy` (module `MacaulayReduce`): `yroots/MacaulayReduce.py`.

The loops of `vectorSpaceBasis`, `_test_zero_dimensional`,
`_get_poly_with_LT`, `_match_poly_dim`, the index bookkeeping in `roots`, the
var_dict loop of `TVBMultMatrix`, `add_polys` and the zero-row trim are
methods with loop invariants, proved against specification functions. The
loops of `sortVB` and `sorted_polys_coeff`, which only order a list by a key,
are functions. The in-place matrix steps act on `array2<real>` and
state the whole new matrix in terms of the old one. The list that `add_polys`
appends to is a class field.

## Model

| member | source | states |
|---|---|---|
| RootFinder.BoxMember | groebner/root_finder.py:318-319 | the product of the ranges below the per-axis maximum leading exponents holds exactly the tuples strictly below those maxima |
| RootFinder.BoxSorted | groebner/root_finder.py:319 | that product is enumerated in strictly increasing lexicographic order, the last axis varying fastest |
| RootFinder.Bounds | groebner/root_finder.py:318 | each bound is at least every leading term's exponent on that axis and equals one of them; no leading terms give no axes |
| RootFinder.BasisOfCharacterization | groebner/root_finder.py:317-331 | a monomial is in the basis iff it lies in the box and no leading term divides it; the basis is lexicographically sorted and has no duplicates |
| RootFinder.BasisBelowLeadTerms | groebner/root_finder.py:319-328 | each exponent of a basis monomial is strictly below the largest exponent of that variable among the leading terms |
| RootFinder.DividedByLeadTerm | groebner/root_finder.py:323-327 | the early-exit scan reports divisible iff some leading term divides the monomial |
| RootFinder.VectorSpaceBasis | groebner/root_finder.py:304-333 | the returned basis is the box filtered by non-divisibility, in enumeration order; the position map has exactly the basis monomials of total degree 0 or 1 as keys, each mapped to a position holding it |
| RootFinder.FirstIndex | groebner/root_finder.py:331 | `basis.index(mon)` gives the first position holding mon |
| RootFinder.RankOfRows | groebner/root_finder.py:443 | the rank of the 2-row integer matrix [u; v] is at most 2, is 0 exactly for two zero rows, and is 1 for a nonzero row stacked on itself or on a zero row |
| RootFinder.RankWithVariable | groebner/root_finder.py:443 | the rank of the 2-row matrix [x_i; LT] is 1 iff LT is a pure power of x_i (the zero tuple included) |
| RootFinder.TestZeroDimensional | groebner/root_finder.py:437-449 | the early-exit loops return true iff every variable has a leading term with which it forms a rank-1 matrix |
| RootFinder.ZeroDimensionalIff | groebner/root_finder.py:437-449 | with the variable list of `get_var_list`, the test passes iff every variable has a pure power among the leading terms |
| RootFinder.ZeroDimensionalBasisComplete | groebner/root_finder.py:317-331 | when the test passes, every monomial that no leading term divides lies in the enumerated basis, so the box misses nothing |
| RootFinder.NotZeroDimensionalInfinite | groebner/root_finder.py:437-449 | when a variable has no pure power among the leading terms, none of its powers is divisible by a leading term, so infinitely many monomials lie outside the ideal |
| RootFinder.FinitelyManySolutions | groebner/root_finder.py:234-247 | never true for a single constant polynomial; with the variable list of `get_var_list`, true iff the basis is not that constant and every variable has a pure power among the leading terms |
| RootFinder.GetPolyWithLT | groebner/root_finder.py:432-435 | nothing is returned iff no polynomial has that lead term; otherwise the first polynomial with it |
| RootFinder.MatchPolyDim | groebner/root_finder.py:451-483 | as written: equal dimensions return both untouched, differing kinds raise, otherwise the smaller gets exactly one new axis, so a gap of two or more axes survives |
| RootFinder.MatchPolyDimGapExample | groebner/root_finder.py:451-483 | run on a 1-variable and a 3-variable polynomial of one type, the as-written matching returns them with 2 and 3 variables |
| RootFinder.PromoteBy | groebner/root_finder.py:469-474 | adding n trailing axes of length 1 keeps the data, kind and degree and pads the lead term with n zeros |
| RootFinder.MatchPolyDimPadded | groebner/root_finder.py:451-483 | corrected: an error iff the dimensions and the kinds both differ; on success both polynomials have the same dimension, the smaller padded by the full difference |
| RootFinder.SortVB | groebner/root_finder.py:156-173 | the result is a rearrangement of the basis (same multiset) in non-decreasing degrevlex order |
| RootFinder.SortVBStrict | groebner/root_finder.py:156-173 | on a basis without duplicates the sorted basis is strictly increasing in degrevlex order |
| Monomials.DegRevLexTotal | groebner/root_finder.py:170-173 | the `Term` order is total on tuples of one length |
| Monomials.DegRevLexTransitive | groebner/root_finder.py:170-173 | the `Term` order is transitive |
| Monomials.DegRevLexIrreflexive | groebner/root_finder.py:170-173 | the `Term` order is irreflexive |
| RootFinder.AscendingIndices | groebner/root_finder.py:256 | the stable `sorted(range(n), key=...)` is a permutation of 0..n-1, ascending by key with ties in index order |
| RootFinder.DescendingOrder | groebner/root_finder.py:256 | the reversed order is a permutation of the indices with non-increasing keys; among equal keys the later index comes first |
| Polynomials.SelectPermutation | groebner/root_finder.py:257-259 | picking a list's entries through a permutation of its positions keeps every entry's multiplicity |
| RootFinder.SortedPolysCoeff | groebner/root_finder.py:249-260 | the result is the input rearranged (same multiset) in the descending-key order, its k-th entry being the input entry at that order's k-th index, so keys never increase along it |
| RootFinder.MissingVars | groebner/root_finder.py:68-75 | `vars_not_in_basis` records strictly increasing positions, each mapped to its own unit tuple, which is not a key of var_dict |
| RootFinder.MissingVarsSpec | groebner/root_finder.py:68-75 | every variable that is not a key of var_dict is recorded: a position is recorded iff its variable is absent |
| RootFinder.IndexVariables | groebner/root_finder.py:64-82 | var_indexes holds the basis position of each variable or -1; a position is -1 iff it is among the missing variables; the TVB front end fails iff some variable is missing, otherwise back-solving is flagged iff some variable is missing |
| RootFinder.BacksolveOrder | groebner/root_finder.py:108 | reversing the recorded positions keeps exactly the same positions and turns increasing positions into strictly decreasing ones |
| RootFinder.BacksolveOrderDecreasing | groebner/root_finder.py:103-111 | the back-substitution visits exactly the missing variables, in strictly decreasing index order |
| RootFinder.BuildVarDict | groebner/root_finder.py:225-231 | var_dict has exactly the basis monomials of total degree 0 or 1 as keys, each mapped to its last position in the basis |
| RootFinder.VariableIndexedIffInBasis | groebner/root_finder.py:66-75 | with var_dict keyed by the basis monomials of degree at most 1, a variable gets a position (its var_indexes entry is not -1) iff it is in the basis, and is recorded among the variables to back-solve iff it is not |
| Monomials.SumOneIsUnit | groebner/root_finder.py:229 | a monomial of total degree 1 is a single variable's unit tuple, so var_dict keys are the constant and the variables |
| Monomials.MonCombosMember | yroots/MacaulayReduce.py:36 | `mon_combos([0]*dim, d)` holds exactly the tuples of length dim with total degree at most d |
| Monomials.MonCombosHead | yroots/MacaulayReduce.py:36-38 | the first of them is the zero tuple, and it does not occur again |
| MacaulayReduce.NonConstantMultipliers | yroots/MacaulayReduce.py:36-38 | `mons[1:]` are exactly the non-constant monomials of degree at most d, each once |
| MacaulayReduce.Multipliers | yroots/MacaulayReduce.py:33-36 | the multiplier list of a polynomial starts with the zero tuple of its dimension |
| MacaulayReduce.MacaulayRows.AddPolys | yroots/MacaulayReduce.py:11-40 | the list becomes the old list, then poly.coeff, then mon_mult of each non-constant multiplier in mon_combos order; that list is returned |
| MacaulayReduce.FindDegree | yroots/MacaulayReduce.py:42-59 | the Macaulay degree is 1 plus the total excess of the generator degrees over 1 |
| MacaulayReduce.FindDegreeBound | yroots/MacaulayReduce.py:42-59 | the bound is 1 plus the sum of (degree - 1); when every degree is at least 1 it is at least every generator's degree |
| MacaulayReduce.FindDegreeLinear | yroots/MacaulayReduce.py:42-59 | for linear generators the bound is 1 |
| MacaulayReduce.PermutationVector | yroots/MacaulayReduce.py:152-154 | perm is the identity outside [cuts[0], cuts[1]) and cuts[0] + P inside it |
| MacaulayReduce.PermutationVectorIsPermutation | yroots/MacaulayReduce.py:152-154 | perm is a permutation of the column indices that maps the middle block onto itself |
| MacaulayReduce.PermuteTerms | yroots/MacaulayReduce.py:124 | the labels of the middle block are permuted by P; every other label is unchanged |
| MacaulayReduce.PermuteColumns | yroots/MacaulayReduce.py:121 | the middle-block columns of the top rows (block B) are permuted by P; every other entry is unchanged |
| MacaulayReduce.PivotBlock | yroots/MacaulayReduce.py:121-124 | B and the labels are permuted together, and the returned vector is the column permutation applied to the labels |
| MacaulayReduce.RowNearZero | yroots/MacaulayReduce.py:129 | `np.allclose(row, 0, atol=accuracy)`: a row of exact zeros passes for any accuracy >= 0, and no nonempty row passes with a negative accuracy |
| MacaulayReduce.TrimZeroRows | yroots/MacaulayReduce.py:128-132 | the kept height is a prefix; every dropped row is within accuracy of 0 and the last kept row is not |
| MacaulayReduce.SetIdentityBlock | yroots/MacaulayReduce.py:150 | the leading h x h block becomes the identity; every other entry is unchanged |
| MacaulayReduce.ZeroBlock | yroots/MacaulayReduce.py:219-222 | the D block of the given rows becomes zero; every other entry is unchanged |
| MacaulayReduce.ClearSmallEntries | yroots/MacaulayReduce.py:208 | every entry within accuracy of 0 becomes 0; every other entry is unchanged |
| MacaulayReduce.RowSwap | yroots/MacaulayReduce.py:127 | the reordered matrix is a new array whose i-th row is row Q[i] of the kept rows |
| MacaulayReduce.KeptRows | yroots/MacaulayReduce.py:216-218 | cuts[0] + R.shape[0] keeps at least cuts[0] rows and at most min(rows, cuts[1]), and equals one of those two bounds |
| MacaulayReduce.TrimAndNormalize | yroots/MacaulayReduce.py:126-150 | an error, with the matrix untouched, iff a row beyond the column count is not near zero; otherwise the trim facts hold and the leading height x height block is the identity |
| MacaulayReduce.RrqrReduceMacaulay | yroots/MacaulayReduce.py:61-157 | the caller's labels are permuted by the returned perm and the caller's B block by P; the returned matrix holds the rows in the row-swap order Q; an error iff a row at or beyond the column count in that order is not near zero; otherwise the dropped trailing rows are near zero, the last kept row is not, the leading block is the identity and every other entry is the reordered pivoted matrix's |
| MacaulayReduce.RrqrReduceMacaulay2 | yroots/MacaulayReduce.py:159-259 | an error iff there are fewer rows than cuts[0] (A not square for the solve); otherwise in the caller's matrix A is the identity, D of the cuts[0] + R.shape[0] kept rows is zero and B and the labels are permuted by P; the returned matrix holds the kept rows in the row-swap order Q, with its trailing zero rows trimmed and its leading block the identity |

## Left out

- The numerical steps of both reductions are not modelled. These are `qr`, `qr_multiply`, the products with Q^T, `solve_triangular` and `EF -= D @ BC`. The matrix is taken as those steps leave it, and the entries they own are left unchanged. The pivoting permutation P of the QR with pivoting is a parameter.
- The conditioning gate of both reductions is not modelled. It sits in an unresolved merge conflict in yroots/MacaulayReduce.py (lines 134-146 and 241-252): one side returns the pair -1, -1 after an SVD test, the other raises after a condition-number test.
- `row_swap_matrix` (yroots.utils) is not part of this model. Its result is modelled as a new array holding the rows in an order Q given as a parameter (a permutation of the rows); which order it picks, and whether it also drops rows, is not modelled.
- MacaulayReduce.RrqrReduceMacaulay: the `return_perm` flag is not a parameter. The permutation vector is always returned.
- MacaulayReduce.TrimAndNormalize: the "expected square matrix" error stands for `solve_triangular` rejecting more rows than columns. In RrqrReduceMacaulay2 it cannot arise there, because the kept rows never exceed cuts[1]; that reduction fails earlier, at the solve on A, when there are fewer rows than cuts[0].
- MacaulayReduce.RrqrReduceMacaulay2: the `isclose` clearing at line 208 is the standalone ClearSmallEntries. The reduction's contract starts from the matrix after the numerical steps, so it does not restate that clearing.
- RowNearZero: `np.allclose` also treats NaN and infinities specially; reals have neither.
- MacaulayReduce.MacaulayRows.AddPolys requires the matrix degree to be at least the polynomial's degree, because `mon_combos` with a negative degree is not defined here. FindDegreeBound shows the bound meets this when every degree is at least 1. `poly.mon_mult` is the parameter `monMult`.
- The helpers `Term`, `get_var_list` and `divides` (groebner.utils) and `mon_combos` (yroots.utils) are not part of this model. They are defined in module Monomials as componentwise <=, unit tuples, all tuples of bounded degree in lexicographic order with zero first, and degrevlex.
- RootFinder.MatchPolyDim and RootFinder.MatchPolyDimPadded: the polynomial constructor recomputes the lead term. The model takes it to be the old lead term padded with zeros; degrevlex is unaffected by a trailing zero exponent.
- RootFinder.SortedPolysCoeff takes the keys |lead_coeff| / sum |coeff| as a parameter; they are floating-point values.
- RootFinder.SortVB is a stable insertion sort, whereas `np.argsort` is not stable by default. The results agree on a basis without duplicates, which is what SortVBStrict covers.
- RootFinder.IndexVariables: the TVB branch prints and returns -1. This is the `Err` outcome.
- `roots` itself is not modelled beyond lines 64-82 and 108: the front ends, the multiplication matrices and the eigen-solve. Also out are evaluating the back-solved variables, `newton_polish`, `multMatrix`, `coordinateVector`, `reduce_poly`, the remainder loop of `TVBMultMatrix`, `_random_poly` and all printing. They are floating-point linear algebra and polynomial arithmetic outside the core.

## Findings

| source | as written | input that shows it | evidently intended | confidence | as-written member | corrected member |
|---|---|---|---|---|---|---|
| groebner/root_finder.py:468-481 | each pass of the loop reshapes the original coefficients, so the smaller polynomial gains exactly one axis | a 1-variable and a 3-variable MultiPower polynomial come out with 2 and 3 variables | pad by the full difference so both dimensions match | not executed | RootFinder.MatchPolyDim | RootFinder.MatchPolyDimPadded |
