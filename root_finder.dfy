/** The combinatorial bookkeeping of groebner/root_finder.py: the monomial basis
    of the quotient ring read off a Groebner basis, the tests for finitely many
    solutions, the lookups and orderings used when the multiplication matrix
    is built and when the roots are assembled. */
module RootFinder {
  import opened Monomials
  import opened Polynomials

  // ---------------------------------------------------------------------
  // Leading terms and the box they bound
  // ---------------------------------------------------------------------

  /** `[f.lead_term for f in GB]`. */
  function LeadTerms(gb: seq<Poly>): (lts: seq<Mon>)
    ensures |lts| == |gb|
    ensures forall t :: 0 <= t < |gb| ==> lts[t] == gb[t].leadTerm
  {
    seq(|gb|, t requires 0 <= t < |gb| => gb[t].leadTerm)
  }

  /** Every tuple in s has length n. */
  predicate AllOfLength(s: seq<Mon>, n: nat)
  {
    forall t :: 0 <= t < |s| ==> |s[t]| == n
  }

  /** All leading terms have one length: the polynomials of a Groebner basis
      share one dimension. */
  predicate UniformLength(lts: seq<Mon>)
  {
    |lts| == 0 || AllOfLength(lts, |lts[0]|)
  }

  /** The largest exponent of x_i among the leading terms. */
  function AxisMax(lts: seq<Mon>, i: nat): (r: nat)
    requires |lts| > 0
    requires forall t :: 0 <= t < |lts| ==> i < |lts[t]|
    ensures forall t :: 0 <= t < |lts| ==> lts[t][i] <= r
    ensures exists t :: 0 <= t < |lts| && lts[t][i] == r
  {
    if |lts| == 1 then lts[0][i]
    else
      var rest := AxisMax(lts[1..], i);
      assert forall t :: 1 <= t < |lts| ==> lts[t] == lts[1..][t - 1];
      if lts[0][i] >= rest then lts[0][i] else rest
  }

  /** `[max(tup) for tup in zip(*LT_G)]`: the per-axis maximum exponent.
      With no leading terms `zip` yields nothing and there are no axes. */
  function Bounds(lts: seq<Mon>): (b: seq<nat>)
    requires UniformLength(lts)
    ensures |lts| == 0 ==> b == []
    ensures |lts| > 0 ==> |b| == |lts[0]|
    ensures forall i, t :: 0 <= i < |b| && 0 <= t < |lts| ==> lts[t][i] <= b[i]
    ensures forall i :: 0 <= i < |b| ==> exists t :: 0 <= t < |lts| && lts[t][i] == b[i]
  {
    if |lts| == 0 then [] else seq(|lts[0]|, i requires 0 <= i < |lts[0]| => AxisMax(lts, i))
  }

  /** m lies in the box of exponents strictly below b. */
  predicate InBox(m: Mon, b: seq<nat>)
  {
    |m| == |b| && forall i :: 0 <= i < |m| ==> m[i] < b[i]
  }

  /** `itertools.product(*[range(n) for n in b])`: the box in lexicographic
      order, the last axis varying fastest. */
  function Box(b: seq<nat>): (box: seq<Mon>)
    decreases |b|, 1, 0
  {
    if |b| == 0 then [[]] else BoxFrom(b, 0)
  }

  /** The part of the box whose first exponent is at least e. */
  function BoxFrom(b: seq<nat>, e: nat): (part: seq<Mon>)
    requires |b| > 0
    decreases |b|, 0, if e <= b[0] then b[0] - e else 0
  {
    if e >= b[0] then [] else Prepend(e, Box(b[1..])) + BoxFrom(b, e + 1)
  }

  lemma InBoxCons(m: Mon, b: seq<nat>)
    requires |b| > 0
    ensures InBox(m, b) <==> |m| > 0 && m[0] < b[0] && InBox(m[1..], b[1..])
  {
    if |m| > 0 && m[0] < b[0] && InBox(m[1..], b[1..]) && |m| == |b| {
      forall i | 1 <= i < |m| ensures m[i] < b[i] {
        assert m[1..][i - 1] < b[1..][i - 1];
      }
    }
  }

  /** The enumeration holds exactly the monomials of the box. */
  lemma {:induction false} BoxMember(b: seq<nat>, m: Mon)
    ensures m in Box(b) <==> InBox(m, b)
    decreases |b|, 1, 0
  {
    if |b| > 0 {
      BoxFromMember(b, 0, m);
    }
  }

  lemma {:induction false} BoxFromMember(b: seq<nat>, e: nat, m: Mon)
    requires |b| > 0
    ensures m in BoxFrom(b, e) <==> InBox(m, b) && e <= m[0]
    decreases |b|, 0, if e <= b[0] then b[0] - e else 0
  {
    InBoxCons(m, b);
    if e < b[0] {
      PrependMember(e, Box(b[1..]), m);
      BoxFromMember(b, e + 1, m);
      if |m| > 0 {
        BoxMember(b[1..], m[1..]);
      }
    }
  }

  /** The enumeration is strictly increasing in lexicographic order. */
  lemma {:induction false} BoxSorted(b: seq<nat>)
    ensures LexSorted(Box(b))
    decreases |b|, 1, 0
  {
    if |b| > 0 {
      BoxFromSorted(b, 0);
    }
  }

  lemma {:induction false} BoxFromSorted(b: seq<nat>, e: nat)
    requires |b| > 0
    ensures LexSorted(BoxFrom(b, e))
    decreases |b|, 0, if e <= b[0] then b[0] - e else 0
  {
    if e < b[0] {
      var head := Prepend(e, Box(b[1..]));
      var tail := BoxFrom(b, e + 1);
      BoxSorted(b[1..]);
      PrependSorted(e, Box(b[1..]));
      BoxFromSorted(b, e + 1);
      forall x, y | x in head && y in tail ensures LexLess(x, y) {
        PrependMember(e, Box(b[1..]), x);
        BoxFromMember(b, e + 1, y);
      }
      ConcatSorted(head, tail);
    }
  }

  // ---------------------------------------------------------------------
  // The vector-space basis of the quotient ring
  // ---------------------------------------------------------------------

  /** Some leading term divides m. */
  predicate DivisibleByAny(lts: seq<Mon>, m: Mon)
  {
    exists t :: 0 <= t < |lts| && Divides(lts[t], m)
  }

  /** The monomials of s, in order, that no leading term divides. */
  function Undivided(lts: seq<Mon>, s: seq<Mon>): (kept: seq<Mon>)
    decreases |s|
  {
    if |s| == 0 then []
    else Undivided(lts, s[..|s| - 1]) + (if DivisibleByAny(lts, s[|s| - 1]) then [] else [s[|s| - 1]])
  }

  /** The basis `vectorSpaceBasis` builds: the box monomials, in enumeration
      order, that no leading term divides. */
  function BasisOf(lts: seq<Mon>): (basis: seq<Mon>)
    requires UniformLength(lts)
  {
    Undivided(lts, Box(Bounds(lts)))
  }

  lemma {:induction false} UndividedMember(lts: seq<Mon>, s: seq<Mon>, m: Mon)
    ensures m in Undivided(lts, s) <==> m in s && !DivisibleByAny(lts, m)
    decreases |s|
  {
    if |s| > 0 {
      var init := s[..|s| - 1];
      UndividedMember(lts, init, m);
      assert s == init + [s[|s| - 1]];
    }
  }

  lemma {:induction false} UndividedSorted(lts: seq<Mon>, s: seq<Mon>)
    requires LexSorted(s)
    ensures LexSorted(Undivided(lts, s))
    decreases |s|
  {
    if |s| > 0 {
      var init := s[..|s| - 1];
      var last := s[|s| - 1];
      UndividedSorted(lts, init);
      if !DivisibleByAny(lts, last) {
        var u := Undivided(lts, init);
        forall x | x in u ensures LexLess(x, last) {
          UndividedMember(lts, init, x);
          var k :| 0 <= k < |init| && init[k] == x;
        }
        ConcatSorted(u, [last]);
      }
    }
  }

  /** The basis holds exactly the monomials below every per-axis maximum
      that no leading term divides, strictly increasing in the order of
      `itertools.product` and therefore pairwise distinct. */
  lemma BasisOfCharacterization(lts: seq<Mon>)
    requires UniformLength(lts)
    ensures forall m :: m in BasisOf(lts) <==> InBox(m, Bounds(lts)) && !DivisibleByAny(lts, m)
    ensures LexSorted(BasisOf(lts))
    ensures forall i, j :: 0 <= i < j < |BasisOf(lts)| ==> BasisOf(lts)[i] != BasisOf(lts)[j]
  {
    var b := Bounds(lts);
    forall m ensures m in BasisOf(lts) <==> InBox(m, b) && !DivisibleByAny(lts, m) {
      BasisMember(lts, m);
    }
    BoxSorted(b);
    UndividedSorted(lts, Box(b));
    LexSortedDistinct(BasisOf(lts));
  }

  lemma BasisMember(lts: seq<Mon>, m: Mon)
    requires UniformLength(lts)
    ensures m in BasisOf(lts) <==> InBox(m, Bounds(lts)) && !DivisibleByAny(lts, m)
  {
    UndividedMember(lts, Box(Bounds(lts)), m);
    BoxMember(Bounds(lts), m);
  }

  /** Each exponent of a basis monomial is below the largest exponent of that
      variable in some leading term. */
  lemma BasisBelowLeadTerms(lts: seq<Mon>, m: Mon, i: nat)
    requires |lts| > 0 && UniformLength(lts)
    requires m in BasisOf(lts) && i < |lts[0]|
    ensures |m| == |lts[0]| && m[i] < Bounds(lts)[i]
    ensures exists t :: 0 <= t < |lts| && m[i] < lts[t][i] == Bounds(lts)[i]
  {
    BasisOfCharacterization(lts);
  }

  /** `list.index`: the first position of x in s. */
  function FirstIndex(s: seq<Mon>, x: Mon): (r: nat)
    requires x in s
    ensures r < |s| && s[r] == x
    ensures forall j :: 0 <= j < r ==> s[j] != x
  {
    if s[0] == x then 0 else 1 + FirstIndex(s[1..], x)
  }

  /** `vectorSpaceBasis(GB)`: enumerate the box below the per-axis maximum
      leading exponents, keep the monomials no leading term divides, and
      record the position of each kept monomial of total degree 0 or 1. */
  method VectorSpaceBasis(gb: seq<Poly>) returns (basis: seq<Mon>, varToPos: map<Mon, nat>)
    requires UniformLength(LeadTerms(gb))
    ensures basis == BasisOf(LeadTerms(gb))
    ensures forall m :: m in basis <==> InBox(m, Bounds(LeadTerms(gb))) && !DivisibleByAny(LeadTerms(gb), m)
    ensures LexSorted(basis)
    ensures forall m :: m in varToPos <==> m in basis && Sum(m) <= 1
    ensures forall m :: m in varToPos ==> varToPos[m] < |basis| && basis[varToPos[m]] == m
  {
    var lts := LeadTerms(gb);
    var box := Box(Bounds(lts));
    basis := [];
    varToPos := map[];
    var k := 0;
    while k < |box|
      invariant 0 <= k <= |box|
      invariant basis == Undivided(lts, box[..k])
      invariant PositionMap(basis, varToPos)
    {
      var mon := box[k];
      var divisible := DividedByLeadTerm(lts, mon);
      assert box[..k + 1][..k] == box[..k];
      if !divisible {
        PositionMapStep(basis, varToPos, mon);
        basis := basis + [mon];
        if Sum(mon) == 1 || Sum(mon) == 0 {
          varToPos := varToPos[mon := FirstIndex(basis, mon)];
        }
      }
      k := k + 1;
    }
    assert box[..k] == box;
    BasisOfCharacterization(lts);
  }

  /** varToPos maps exactly the monomials of degree at most 1 in basis to a
      position holding them. */
  ghost predicate PositionMap(basis: seq<Mon>, varToPos: map<Mon, nat>)
  {
    (forall m :: m in varToPos <==> m in basis && Sum(m) <= 1) &&
    (forall m :: m in varToPos ==> varToPos[m] < |basis| && basis[varToPos[m]] == m)
  }

  lemma PositionMapStep(basis: seq<Mon>, varToPos: map<Mon, nat>, mon: Mon)
    requires PositionMap(basis, varToPos)
    ensures PositionMap(basis + [mon],
              if Sum(mon) <= 1 then varToPos[mon := FirstIndex(basis + [mon], mon)] else varToPos)
  {
    var b := basis + [mon];
    assert forall m :: m in basis ==> m in b;
  }

  /** The inner loop of `vectorSpaceBasis`: scan the leading terms, stopping
      at the first one that divides mon. */
  method DividedByLeadTerm(lts: seq<Mon>, mon: Mon) returns (divisible: bool)
    ensures divisible <==> DivisibleByAny(lts, mon)
  {
    divisible := false;
    var t := 0;
    while t < |lts|
      invariant 0 <= t <= |lts|
      invariant !divisible
      invariant forall u :: 0 <= u < t ==> !Divides(lts[u], mon)
    {
      if Divides(lts[t], mon) {
        divisible := true;
        break;
      }
      t := t + 1;
    }
  }

  // ---------------------------------------------------------------------
  // Zero-dimensionality: a pure power of every variable among the leading terms
  // ---------------------------------------------------------------------

  /** Every entry is zero. */
  predicate IsZeroRow(u: Mon)
  {
    forall j :: 0 <= j < |u| ==> u[j] == 0
  }

  /** Every 2x2 minor of the matrix with rows u and v vanishes. */
  predicate MinorsVanish(u: Mon, v: Mon)
    requires |u| == |v|
  {
    forall j, k :: 0 <= j < |u| && 0 <= k < |u| ==> u[j] * v[k] == u[k] * v[j]
  }

  /** `np.linalg.matrix_rank(np.array([u, v]))`, exactly, for integer rows. */
  function RankOfRows(u: Mon, v: Mon): (rank: nat)
    requires |u| == |v|
    ensures rank <= 2
    ensures rank == 0 <==> IsZeroRow(u) && IsZeroRow(v)
    ensures !IsZeroRow(u) && (u == v || IsZeroRow(v)) ==> rank == 1
    ensures !IsZeroRow(v) && IsZeroRow(u) ==> rank == 1
  {
    if IsZeroRow(u) && IsZeroRow(v) then 0 else if MinorsVanish(u, v) then 1 else 2
  }

  /** lt is a power of x_i (possibly the constant monomial). */
  predicate PurePowerOf(lt: Mon, i: nat)
  {
    forall j :: 0 <= j < |lt| && j != i ==> lt[j] == 0
  }

  /** Some leading term is a pure power of x_i. */
  predicate HasPurePower(lts: seq<Mon>, i: nat)
  {
    exists t :: 0 <= t < |lts| && PurePowerOf(lts[t], i)
  }

  /** Some leading term has rank 1 together with `var` (the flag
      `exists_multiple`). */
  predicate HasMultiple(var_: Mon, lts: seq<Mon>)
  {
    exists t :: 0 <= t < |lts| && |lts[t]| == |var_| && RankOfRows(var_, lts[t]) == 1
  }

  /** The test of `_test_zero_dimensional`: every variable has a multiple. */
  predicate ZeroDimensional(vars: seq<Mon>, lts: seq<Mon>)
  {
    forall v :: 0 <= v < |vars| ==> HasMultiple(vars[v], lts)
  }

  /** The rank test against the variable x_i accepts exactly the leading terms
      that are pure powers of x_i; the zero leading term passes, since the
      matrix [e_i; 0] has rank 1. */
  lemma RankWithVariable(dim: nat, i: nat, lt: Mon)
    requires i < dim && |lt| == dim
    ensures RankOfRows(UnitVec(dim, i), lt) == 1 <==> PurePowerOf(lt, i)
  {
    var u := UnitVec(dim, i);
    assert !IsZeroRow(u) by { assert u[i] == 1; }
    if PurePowerOf(lt, i) {
      forall j, k | 0 <= j < dim && 0 <= k < dim ensures u[j] * lt[k] == u[k] * lt[j] {
        if j != i && k != i {
          assert u[j] == 0 && u[k] == 0;
        } else if j == i && k != i {
          assert lt[k] == 0 && u[k] == 0;
        } else if j != i && k == i {
          assert lt[j] == 0 && u[j] == 0;
        }
      }
    }
    if MinorsVanish(u, lt) {
      forall j | 0 <= j < dim && j != i ensures lt[j] == 0 {
        assert u[i] * lt[j] == u[j] * lt[i];
      }
    }
  }

  /** `_test_zero_dimensional(_vars, GB)` as the source computes it, with an
      early exit per variable. */
  method TestZeroDimensional(vars: seq<Mon>, gb: seq<Poly>) returns (ok: bool)
    requires forall v, t :: 0 <= v < |vars| && 0 <= t < |gb| ==> |vars[v]| == |gb[t].leadTerm|
    ensures ok <==> ZeroDimensional(vars, LeadTerms(gb))
  {
    var lts := LeadTerms(gb);
    var v := 0;
    while v < |vars|
      invariant 0 <= v <= |vars|
      invariant forall w :: 0 <= w < v ==> HasMultiple(vars[w], lts)
    {
      var existsMultiple := false;
      var t := 0;
      while t < |lts|
        invariant 0 <= t <= |lts|
        invariant !existsMultiple
        invariant forall u :: 0 <= u < t ==> RankOfRows(vars[v], lts[u]) != 1
      {
        if RankOfRows(vars[v], lts[t]) == 1 {
          existsMultiple := true;
          break;
        }
        t := t + 1;
      }
      if !existsMultiple {
        assert !HasMultiple(vars[v], lts);
        return false;
      }
      v := v + 1;
    }
    return true;
  }

  /** With the variable list of `get_var_list`, the test passes exactly when
      for every variable some leading term is a pure power of it. */
  lemma ZeroDimensionalIff(dim: nat, lts: seq<Mon>)
    requires AllOfLength(lts, dim)
    ensures ZeroDimensional(VarList(dim), lts) <==>
            forall i :: 0 <= i < dim ==> HasPurePower(lts, i)
  {
    var vars := VarList(dim);
    if ZeroDimensional(vars, lts) {
      forall i | 0 <= i < dim ensures HasPurePower(lts, i) {
        assert HasMultiple(vars[i], lts);
        var t :| 0 <= t < |lts| && |lts[t]| == dim && RankOfRows(vars[i], lts[t]) == 1;
        RankWithVariable(dim, i, lts[t]);
      }
    }
    if forall i :: 0 <= i < dim ==> HasPurePower(lts, i) {
      forall v | 0 <= v < dim ensures HasMultiple(vars[v], lts) {
        assert HasPurePower(lts, v);
        var t :| 0 <= t < |lts| && PurePowerOf(lts[t], v);
        RankWithVariable(dim, v, lts[t]);
      }
    }
  }

  /** When the test passes, the box misses nothing: every monomial no leading
      term divides is in the enumerated basis. */
  lemma ZeroDimensionalBasisComplete(dim: nat, lts: seq<Mon>, m: Mon)
    requires AllOfLength(lts, dim) && ZeroDimensional(VarList(dim), lts)
    requires |m| == dim && !DivisibleByAny(lts, m)
    ensures m in BasisOf(lts)
  {
    ZeroDimensionalIff(dim, lts);
    var b := Bounds(lts);
    if |lts| == 0 {
      assert !HasPurePower(lts, 0);
      assert m == [] && b == [];
    } else {
      forall i | 0 <= i < dim ensures m[i] < b[i] {
        assert HasPurePower(lts, i);
        var t :| 0 <= t < |lts| && PurePowerOf(lts[t], i);
        assert !Divides(lts[t], m);
      }
    }
    BasisMember(lts, m);
  }

  /** When the test fails for x_i, no leading term divides any power of x_i:
      there are infinitely many monomials outside the leading-term ideal. */
  lemma NotZeroDimensionalInfinite(dim: nat, lts: seq<Mon>, i: nat, n: nat)
    requires AllOfLength(lts, dim) && i < dim
    requires forall t :: 0 <= t < |lts| ==> !PurePowerOf(lts[t], i)
    ensures !DivisibleByAny(lts, seq(dim, j => if j == i then n else 0))
  {
    var p := seq(dim, j => if j == i then n else 0);
    forall t | 0 <= t < |lts| ensures !Divides(lts[t], p) {
      var j :| 0 <= j < dim && j != i && lts[t][j] != 0;
      assert p[j] == 0;
    }
  }

  /** The GB holds a single polynomial whose coefficient array has every
      axis of length 1: a nonzero constant, the whole ring. */
  predicate IsConstantBasis(gb: seq<Poly>)
  {
    |gb| == 1 && forall i :: 0 <= i < |gb[0].coeff.shape| ==> gb[0].coeff.shape[i] == 1
  }

  /** `_finitelyManySolutions(GB, var_list)`. With the variable list of
      `get_var_list`, it is false for the constant basis, and otherwise true
      exactly when every variable has a pure power among the leading terms. */
  function FinitelyManySolutions(gb: seq<Poly>, vars: seq<Mon>): (finite: bool)
    requires forall v, t :: 0 <= v < |vars| && 0 <= t < |gb| ==> |vars[v]| == |gb[t].leadTerm|
    ensures finite ==> !IsConstantBasis(gb)
    ensures vars == VarList(|vars|) && AllOfLength(LeadTerms(gb), |vars|) ==>
              (finite <==> !IsConstantBasis(gb) &&
                           forall i :: 0 <= i < |vars| ==> HasPurePower(LeadTerms(gb), i))
  {
    // Both branches compute the same value; the first exists only to bring
    // ZeroDimensionalIff in for the iff in the ensures.
    if AllOfLength(LeadTerms(gb), |vars|) then
      ZeroDimensionalIff(|vars|, LeadTerms(gb));
      if IsConstantBasis(gb) then false else ZeroDimensional(vars, LeadTerms(gb))
    else
      if IsConstantBasis(gb) then false else ZeroDimensional(vars, LeadTerms(gb))
  }

  // ---------------------------------------------------------------------
  // Lookups used when the roots are assembled
  // ---------------------------------------------------------------------

  /** `_get_poly_with_LT(LT, GB)`: the first element whose leading term is
      LT, or nothing (the source falls off the end and returns None). */
  method GetPolyWithLT(lt: Mon, gb: seq<Poly>) returns (r: Option<Poly>)
    ensures r.None? <==> forall k :: 0 <= k < |gb| ==> gb[k].leadTerm != lt
    ensures r.Some? ==> exists k :: 0 <= k < |gb| && r.value == gb[k] && gb[k].leadTerm == lt &&
                                    forall j :: 0 <= j < k ==> gb[j].leadTerm != lt
  {
    var k := 0;
    while k < |gb|
      invariant 0 <= k <= |gb|
      invariant forall j :: 0 <= j < k ==> gb[j].leadTerm != lt
    {
      if gb[k].leadTerm == lt {
        return Some(gb[k]);
      }
      k := k + 1;
    }
    return None;
  }

  // ---------------------------------------------------------------------
  // Matching the dimensions of two polynomials
  // ---------------------------------------------------------------------

  /** `_match_poly_dim(poly1, poly2)` as written. Equal dimensions: both are
      returned untouched, with no type check. Differing dimensions and
      differing types: it raises. Otherwise the lower-dimensional one is
      rebuilt with a trailing axis of length 1 -- exactly one, because the
      loop reshapes the ORIGINAL coefficients on every pass, so a difference
      of two or more axes is left unresolved. */
  method MatchPolyDim(p1: Poly, p2: Poly) returns (r: Outcome<(Poly, Poly)>)
    ensures Dim(p1) == Dim(p2) ==> r == Ok((p1, p2))
    ensures Dim(p1) != Dim(p2) && p1.kind != p2.kind ==> r.Err?
    ensures Dim(p1) < Dim(p2) && p1.kind == p2.kind ==> r == Ok((Promote(p1), p2))
    ensures Dim(p2) < Dim(p1) && p1.kind == p2.kind ==> r == Ok((p1, Promote(p2)))
    ensures r.Ok? && Dim(p1) + 1 < Dim(p2) ==> Dim(r.value.0) < Dim(r.value.1)
  {
    if Dim(p1) == Dim(p2) {
      return Ok((p1, p2));
    }
    if p1.kind != p2.kind {
      return Err("Polynomials must be the same type");
    }
    var maxVars := if Dim(p1) >= Dim(p2) then Dim(p1) else Dim(p2);
    var q1, q2 := p1, p2;
    if Dim(p1) < maxVars {
      var reshaped := p1.coeff;
      for j := 0 to maxVars - Dim(p1)
        invariant j > 0 ==> reshaped == AddAxis(p1.coeff)
      {
        reshaped := AddAxis(p1.coeff);
      }
      q1 := Poly(p1.kind, reshaped, p1.leadTerm + [0], p1.degree);
    } else if Dim(p2) < maxVars {
      var reshaped := p2.coeff;
      for j := 0 to maxVars - Dim(p2)
        invariant j > 0 ==> reshaped == AddAxis(p2.coeff)
      {
        reshaped := AddAxis(p2.coeff);
      }
      q2 := Poly(p2.kind, reshaped, p2.leadTerm + [0], p2.degree);
    }
    r := Ok((q1, q2));
  }

  /** A one-variable and a three-variable polynomial of the same type: as
      written, `_match_poly_dim` returns them with two and three variables. */
  method MatchPolyDimGapExample() returns (d1: nat, d2: nat)
    ensures d1 == 2 && d2 == 3
  {
    var p1 := Poly(MultiPower, Coeff([2], [1.0, 1.0]), [1], 1);
    var p2 := Poly(MultiPower, Coeff([2, 2, 2], [1.0, 0.0, 0.0, 0.0, 0.0, 0.0, 0.0, 1.0]), [1, 1, 1], 3);
    var r := MatchPolyDim(p1, p2);
    d1, d2 := Dim(r.value.0), Dim(r.value.1);
  }

  /** p rebuilt with n trailing axes of length 1. */
  function PromoteBy(p: Poly, n: nat): (q: Poly)
    ensures Dim(q) == Dim(p) + n && q.kind == p.kind && q.degree == p.degree
    ensures q.coeff.data == p.coeff.data
    ensures q.coeff.shape[..Dim(p)] == p.coeff.shape
    ensures forall i :: Dim(p) <= i < Dim(q) ==> q.coeff.shape[i] == 1
    ensures q.leadTerm == p.leadTerm + Zeros(n)
  {
    if n == 0 then
      assert p.leadTerm + Zeros(0) == p.leadTerm;
      p
    else
      var q := Promote(PromoteBy(p, n - 1));
      assert Zeros(n) == Zeros(n - 1) + [0] by { ZerosSnoc(n); }
      q
  }

  lemma {:induction false} ZerosSnoc(n: nat)
    requires n > 0
    ensures Zeros(n) == Zeros(n - 1) + [0]
  {
    if n > 1 {
      ZerosSnoc(n - 1);
    }
  }

  /** `_match_poly_dim` as it is evidently meant to work: the lower-dimensional
      polynomial gains one trailing axis per missing variable, so that both
      come out with the same number of variables. */
  method MatchPolyDimPadded(p1: Poly, p2: Poly) returns (r: Outcome<(Poly, Poly)>)
    ensures Dim(p1) == Dim(p2) ==> r == Ok((p1, p2))
    ensures r.Err? <==> Dim(p1) != Dim(p2) && p1.kind != p2.kind
    ensures r.Ok? ==> Dim(r.value.0) == Dim(r.value.1)
    ensures Dim(p1) < Dim(p2) && r.Ok? ==> r.value == (PromoteBy(p1, Dim(p2) - Dim(p1)), p2)
    ensures Dim(p2) < Dim(p1) && r.Ok? ==> r.value == (p1, PromoteBy(p2, Dim(p1) - Dim(p2)))
  {
    if Dim(p1) == Dim(p2) {
      return Ok((p1, p2));
    }
    if p1.kind != p2.kind {
      return Err("Polynomials must be the same type");
    }
    var q1, q2 := p1, p2;
    if Dim(p1) < Dim(p2) {
      for j := 0 to Dim(p2) - Dim(p1)
        invariant q1 == PromoteBy(p1, j)
      {
        q1 := Promote(q1);
      }
    } else {
      for j := 0 to Dim(p1) - Dim(p2)
        invariant q2 == PromoteBy(p2, j)
      {
        q2 := Promote(q2);
      }
    }
    r := Ok((q1, q2));
  }

  // ---------------------------------------------------------------------
  // Orderings: sortVB and sorted_polys_coeff
  // ---------------------------------------------------------------------

  /** Non-decreasing in degrevlex (`Term`) order, over tuples of one length. */
  predicate SortedByTerm(s: seq<Mon>)
  {
    forall i, j :: 0 <= i < j < |s| ==> |s[i]| == |s[j]| && !DegRevLexLess(s[j], s[i])
  }

  lemma SortedByTermCons(y: Mon, s: seq<Mon>)
    requires SortedByTerm(s)
    requires forall z :: z in s ==> |z| == |y| && !DegRevLexLess(z, y)
    ensures SortedByTerm([y] + s)
  {
    var r := [y] + s;
    forall i, j | 0 <= i < j < |r| ensures |r[i]| == |r[j]| && !DegRevLexLess(r[j], r[i]) {
      if i > 0 {
        assert r[i] == s[i - 1] && r[j] == s[j - 1];
      } else {
        assert r[j] in s;
      }
    }
  }

  /** Insert x before the first element that is not below it. */
  function InsertTerm(x: Mon, s: seq<Mon>): (r: seq<Mon>)
    requires SortedByTerm(s) && forall z :: z in s ==> |z| == |x|
    ensures multiset(r) == multiset(s) + multiset{x}
    ensures SortedByTerm(r)
    ensures forall z :: z in r ==> |z| == |x|
  {
    if |s| == 0 then [x]
    else if !DegRevLexLess(s[0], x) then
      NotBelowHead(x, s);
      SortedByTermCons(x, s);
      [x] + s
    else
      var rest := InsertTerm(x, s[1..]);
      assert s == [s[0]] + s[1..];
      HeadBelowRest(x, s, rest);
      SortedByTermCons(s[0], rest);
      [s[0]] + rest
  }

  /** When the head of a sorted s is not below x, nothing in s is. */
  lemma NotBelowHead(x: Mon, s: seq<Mon>)
    requires |s| > 0 && SortedByTerm(s) && forall z :: z in s ==> |z| == |x|
    requires !DegRevLexLess(s[0], x)
    ensures forall z :: z in s ==> !DegRevLexLess(z, x)
  {
    forall z | z in s ensures !DegRevLexLess(z, x) {
      var j :| 0 <= j < |s| && s[j] == z;
      if j > 0 && DegRevLexLess(z, x) {
        if x == s[0] {
        } else {
          DegRevLexTotal(x, s[0]);
          DegRevLexTransitive(z, x, s[0]);
        }
      }
    }
  }

  /** When the head of s is below x, it is below nothing in x inserted into
      the tail. */
  lemma HeadBelowRest(x: Mon, s: seq<Mon>, rest: seq<Mon>)
    requires |s| > 0 && SortedByTerm(s) && forall z :: z in s ==> |z| == |x|
    requires DegRevLexLess(s[0], x)
    requires multiset(rest) == multiset(s[1..]) + multiset{x}
    requires forall z :: z in rest ==> |z| == |x|
    ensures forall z :: z in rest ==> !DegRevLexLess(z, s[0])
  {
    forall z | z in rest ensures !DegRevLexLess(z, s[0]) {
      assert z in multiset(rest);
      if z == x {
        DegRevLexIrreflexive(x);
        if DegRevLexLess(x, s[0]) {
          DegRevLexTransitive(x, s[0], x);
        }
      } else {
        assert z in s[1..];
        var j :| 0 <= j < |s[1..]| && s[1..][j] == z;
        assert z == s[j + 1];
      }
    }
  }

  /** `sortVB(VB)`: the basis monomials rearranged into ascending degrevlex
      order, lowest terms first. */
  function SortVB(vb: seq<Mon>): (r: seq<Mon>)
    requires UniformLength(vb)
    ensures multiset(r) == multiset(vb)
    ensures SortedByTerm(r)
    ensures |vb| > 0 ==> forall z :: z in r ==> |z| == |vb[0]|
  {
    if |vb| == 0 then []
    else
      UniformTail(vb);
      var rest := SortVB(vb[1..]);
      assert forall z :: z in rest ==> |z| == |vb[0]|;
      assert vb == [vb[0]] + vb[1..];
      InsertTerm(vb[0], rest)
  }

  lemma UniformTail(vb: seq<Mon>)
    requires |vb| > 0 && UniformLength(vb)
    ensures UniformLength(vb[1..])
    ensures forall z :: z in vb[1..] ==> |z| == |vb[0]|
  {
    forall t | 0 <= t < |vb[1..]| ensures |vb[1..][t]| == |vb[0]| {
      assert vb[1..][t] == vb[t + 1];
    }
  }

  /** Over pairwise distinct monomials (a vector-space basis), the sorted
      basis is strictly increasing in degrevlex order. */
  lemma SortVBStrict(vb: seq<Mon>)
    requires UniformLength(vb)
    requires forall i, j :: 0 <= i < j < |vb| ==> vb[i] != vb[j]
    ensures forall i, j :: 0 <= i < j < |SortVB(vb)| ==> DegRevLexLess(SortVB(vb)[i], SortVB(vb)[j])
  {
    var r := SortVB(vb);
    forall i, j | 0 <= i < j < |r| ensures DegRevLexLess(r[i], r[j]) {
      if r[i] == r[j] {
        DuplicateCount(r, i, j);
        DistinctCount(vb, r[i]);
      } else {
        DegRevLexTotal(r[i], r[j]);
      }
    }
  }

  lemma DuplicateCount(s: seq<Mon>, i: nat, j: nat)
    requires i < j < |s| && s[i] == s[j]
    ensures multiset(s)[s[i]] >= 2
  {
    assert s == s[..j] + [s[j]] + s[j + 1..];
    assert s[..j][i] == s[i];
    assert s[i] in multiset(s[..j]);
  }

  lemma {:induction false} DistinctCount(s: seq<Mon>, x: Mon)
    requires forall i, j :: 0 <= i < j < |s| ==> s[i] != s[j]
    ensures multiset(s)[x] <= 1
  {
    if |s| > 0 {
      DistinctCount(s[1..], x);
      assert s == [s[0]] + s[1..];
      if s[0] == x {
        assert x !in s[1..];
      }
    }
  }

  /** Index i comes before j in the ascending order of Python's stable
      `sorted(range(n), key=keys.__getitem__)`: smaller key, or equal key and
      smaller index. */
  predicate KeyLess(keys: seq<real>, i: nat, j: nat)
    requires i < |keys| && j < |keys|
  {
    keys[i] < keys[j] || (keys[i] == keys[j] && i < j)
  }

  /** Strictly ascending under KeyLess, over valid indices. */
  predicate AscendingByKey(keys: seq<real>, s: seq<nat>)
  {
    (forall k :: 0 <= k < |s| ==> s[k] < |keys|) &&
    forall i, j :: 0 <= i < j < |s| ==> KeyLess(keys, s[i], s[j])
  }

  function InsertIndex(keys: seq<real>, x: nat, s: seq<nat>): (r: seq<nat>)
    requires x < |keys| && AscendingByKey(keys, s) && x !in s
    ensures |r| == |s| + 1
    ensures forall z: nat :: z in r <==> z == x || z in s
    ensures AscendingByKey(keys, r)
  {
    if |s| == 0 then [x]
    else if KeyLess(keys, x, s[0]) then
      AscendingTail(keys, s);
      AscendingCons(keys, x, s);
      [x] + s
    else
      AscendingTail(keys, s);
      var rest := InsertIndex(keys, x, s[1..]);
      assert s == [s[0]] + s[1..];
      AscendingCons(keys, s[0], rest);
      [s[0]] + rest
  }

  lemma AscendingTail(keys: seq<real>, s: seq<nat>)
    requires |s| > 0 && AscendingByKey(keys, s)
    ensures AscendingByKey(keys, s[1..])
    ensures forall z: nat :: z in s[1..] ==> z < |keys| && KeyLess(keys, s[0], z)
  {
    forall z: nat | z in s[1..] ensures z < |keys| && KeyLess(keys, s[0], z) {
      var j :| 0 <= j < |s[1..]| && s[1..][j] == z;
      assert s[j + 1] == z;
    }
  }

  lemma AscendingCons(keys: seq<real>, y: nat, s: seq<nat>)
    requires y < |keys| && AscendingByKey(keys, s)
    requires forall z: nat :: z in s ==> KeyLess(keys, y, z)
    ensures AscendingByKey(keys, [y] + s)
  {
    var r := [y] + s;
    forall i, j | 0 <= i < j < |r| ensures KeyLess(keys, r[i], r[j]) {
      if i == 0 {
        assert r[j] == s[j - 1];
        assert s[j - 1] in s;
      } else {
        assert r[i] == s[i - 1] && r[j] == s[j - 1];
      }
    }
  }

  /** The indices 0..n-1 in ascending key order, ties by ascending index. */
  function AscendingIndices(keys: seq<real>, n: nat): (r: seq<nat>)
    requires n <= |keys|
    ensures |r| == n
    ensures forall z: nat :: z in r <==> z < n
    ensures AscendingByKey(keys, r)
  {
    if n == 0 then []
    else
      var prev := AscendingIndices(keys, n - 1);
      var r := InsertIndex(keys, n - 1, prev);
      assert forall z: nat :: z in r <==> z == n - 1 || z in prev;
      r
  }

  /** `sorted(range(n), key=...)[::-1]`: a permutation of the indices by
      strictly descending (key, index). The polynomial with the largest
      leading-coefficient ratio comes first, and among equal ratios the later
      one in the input comes first. */
  function DescendingOrder(keys: seq<real>): (r: seq<nat>)
    ensures |r| == |keys|
    ensures forall z: nat :: z in r <==> z < |keys|
    ensures forall k :: 0 <= k < |r| ==> r[k] < |keys|
    ensures forall i, j :: 0 <= i < j < |keys| ==> r[i] != r[j]
    ensures forall i, j :: 0 <= i < j < |keys| ==> keys[r[j]] <= keys[r[i]]
    ensures forall i, j :: 0 <= i < j < |keys| && keys[r[j]] == keys[r[i]] ==> r[j] < r[i]
  {
    var a := AscendingIndices(keys, |keys|);
    ReversedMembers(a);
    var r := Reversed(a);
    assert forall i, j :: 0 <= i < j < |keys| ==> KeyLess(keys, r[j], r[i]) by {
      forall i, j | 0 <= i < j < |keys| ensures KeyLess(keys, r[j], r[i]) {
        assert r[i] == a[|a| - 1 - i] && r[j] == a[|a| - 1 - j];
      }
    }
    r
  }

  /** `s[::-1]`. */
  function Reversed<T>(s: seq<T>): (r: seq<T>)
    ensures |r| == |s| && forall k :: 0 <= k < |s| ==> r[k] == s[|s| - 1 - k]
  {
    seq(|s|, k requires 0 <= k < |s| => s[|s| - 1 - k])
  }

  lemma ReversedMembers<T>(s: seq<T>)
    ensures forall x :: x in Reversed(s) <==> x in s
  {
    var r := Reversed(s);
    forall x ensures x in r <==> x in s {
      if x in s {
        var k :| 0 <= k < |s| && s[k] == x;
        assert r[|s| - 1 - k] == x;
      }
      if x in r {
        var k :| 0 <= k < |r| && r[k] == x;
        assert s[|s| - 1 - k] == x;
      }
    }
  }

  /** `sorted_polys_coeff(polys)`, given each polynomial's ratio
      |lead_coeff| / sum |coeff| as its key: the polynomials rearranged by
      DescendingOrder, so that the keys never increase along the result,
      with none lost and none added. */
  function SortedPolysCoeff(polys: seq<Poly>, keys: seq<real>): (r: seq<Poly>)
    requires |keys| == |polys|
    ensures |r| == |polys| && multiset(r) == multiset(polys)
    ensures forall k :: 0 <= k < |r| ==> r[k] == polys[DescendingOrder(keys)[k]]
    ensures forall i, j :: 0 <= i < j < |r| ==> keys[DescendingOrder(keys)[j]] <= keys[DescendingOrder(keys)[i]]
  {
    var order := DescendingOrder(keys);
    assert IsPermutation(order, |polys|);
    SelectPermutation(polys, order);
    Select(polys, order)
  }

  // ---------------------------------------------------------------------
  // Variable bookkeeping when the roots are assembled
  // ---------------------------------------------------------------------

  /** The front end of `roots`. */
  datatype Method = Groebner | Macaulay | TVB

  /** The keys of `vars_not_in_basis`, in insertion order. */
  function Positions(nib: seq<(nat, Mon)>): (p: seq<nat>)
    ensures |p| == |nib| && forall k :: 0 <= k < |nib| ==> p[k] == nib[k].0
  {
    seq(|nib|, k requires 0 <= k < |nib| => nib[k].0)
  }

  /** The entries `i -> x_i` of `vars_not_in_basis`, in insertion order, for
      the first n variables: strictly increasing positions below n, each
      mapped to its own variable, which has no position in the basis. */
  function MissingVars(dim: nat, varDict: map<Mon, nat>, n: nat): (nib: seq<(nat, Mon)>)
    requires n <= dim
    ensures forall k :: 0 <= k < |nib| ==>
              nib[k].0 < n && nib[k].1 == UnitVec(dim, nib[k].0) && nib[k].1 !in varDict
    ensures forall k, l :: 0 <= k < l < |nib| ==> nib[k].0 < nib[l].0
  {
    if n == 0 then []
    else MissingVars(dim, varDict, n - 1) +
         (if UnitVec(dim, n - 1) in varDict then [] else [(n - 1, UnitVec(dim, n - 1))])
  }

  /** Every variable with no position in the basis is recorded: a position
      below n is in MissingVars exactly when its variable is not a key of
      the position map. */
  lemma {:induction false} MissingVarsSpec(dim: nat, varDict: map<Mon, nat>, n: nat)
    requires n <= dim
    ensures forall i :: 0 <= i < n ==>
              (UnitVec(dim, i) !in varDict <==> i in Positions(MissingVars(dim, varDict, n)))
  {
    if n > 0 {
      MissingVarsSpec(dim, varDict, n - 1);
      var prev := MissingVars(dim, varDict, n - 1);
      var tail := if UnitVec(dim, n - 1) in varDict then [] else [(n - 1, UnitVec(dim, n - 1))];
      assert MissingVars(dim, varDict, n) == prev + tail;
      assert Positions(prev + tail) == Positions(prev) + Positions(tail);
      assert (n - 1) !in Positions(prev);
      assert Positions(tail) == if UnitVec(dim, n - 1) in varDict then [] else [n - 1];
      forall i | 0 <= i < n ensures UnitVec(dim, i) !in varDict <==> i in Positions(MissingVars(dim, varDict, n)) {
        if i < n - 1 {
          assert i !in Positions(tail);
        }
      }
    }
  }

  /** The bookkeeping of `roots` before the eigen-solve: the position of
      every variable in the basis (-1 when it is absent), the variables
      not in the basis, and whether they must be back-solved -- which the
      TVB front end does not support. */
  method IndexVariables(dim: nat, varDict: map<Mon, nat>, how: Method)
    returns (varIndexes: seq<int>, notInBasis: seq<(nat, Mon)>, backsolve: Outcome<bool>)
    ensures |varIndexes| == dim
    ensures forall i :: 0 <= i < dim ==>
              varIndexes[i] == (if UnitVec(dim, i) in varDict then varDict[UnitVec(dim, i)] else -1)
    ensures notInBasis == MissingVars(dim, varDict, dim)
    ensures forall i :: 0 <= i < dim ==> (varIndexes[i] == -1 <==> i in Positions(notInBasis))
    ensures forall k :: 0 <= k < |notInBasis| ==> notInBasis[k].0 < dim && notInBasis[k].1 == UnitVec(dim, notInBasis[k].0)
    ensures backsolve.Err? <==> how == TVB && |notInBasis| > 0
    ensures backsolve.Ok? ==> (backsolve.value <==> |notInBasis| > 0)
  {
    var varList := VarList(dim);
    varIndexes := seq(dim, _ => -1);
    notInBasis := [];
    for i := 0 to |varList|
      invariant |varIndexes| == dim
      invariant forall j :: 0 <= j < i ==>
                  varIndexes[j] == (if UnitVec(dim, j) in varDict then varDict[UnitVec(dim, j)] else -1)
      invariant forall j :: i <= j < dim ==> varIndexes[j] == -1
      invariant notInBasis == MissingVars(dim, varDict, i)
    {
      var v := varList[i];
      if v in varDict {
        varIndexes := varIndexes[i := varDict[v]];
      } else {
        notInBasis := notInBasis + [(i, v)];
      }
    }
    MissingVarsSpec(dim, varDict, dim);
    backsolve := Ok(false);
    if |notInBasis| != 0 {
      if how == TVB {
        backsolve := Err("This isn't working yet...");
      } else {
        backsolve := Ok(true);
      }
    }
  }

  /** `list(vars_not_in_basis.keys())[::-1]`: the order in which the missing
      variables are back-solved. Over strictly increasing positions it is
      strictly decreasing, with the same members. */
  function BacksolveOrder(notInBasis: seq<(nat, Mon)>): (order: seq<nat>)
    ensures |order| == |notInBasis|
    ensures forall i: nat :: i in order <==> i in Positions(notInBasis)
    ensures (forall k, l :: 0 <= k < l < |notInBasis| ==> notInBasis[k].0 < notInBasis[l].0) ==>
              forall k, l :: 0 <= k < l < |order| ==> order[l] < order[k]
  {
    var p := Positions(notInBasis);
    ReversedMembers(p);
    var order := Reversed(p);
    assert forall k, l :: 0 <= k < l < |order| ==>
             order[l] == notInBasis[|p| - 1 - l].0 && order[k] == notInBasis[|p| - 1 - k].0;
    order
  }

  /** The back-substitution visits every variable missing from the basis
      exactly once, in strictly decreasing index order, so each is resolved
      after every missing variable of higher index. */
  lemma BacksolveOrderDecreasing(dim: nat, varDict: map<Mon, nat>)
    ensures forall k, l :: 0 <= k < l < |BacksolveOrder(MissingVars(dim, varDict, dim))| ==>
              BacksolveOrder(MissingVars(dim, varDict, dim))[l] < BacksolveOrder(MissingVars(dim, varDict, dim))[k]
    ensures forall i :: 0 <= i < dim ==>
              (i in BacksolveOrder(MissingVars(dim, varDict, dim)) <==> UnitVec(dim, i) !in varDict)
  {
    MissingVarsSpec(dim, varDict, dim);
  }

  /** With a var_dict keyed by the basis monomials of degree at most 1 (as
      `vectorSpaceBasis` and `TVBMultMatrix` build it), variable x_i gets a
      position (its `var_indexes` entry is not -1) exactly when x_i is in the
      basis, and it is back-solved exactly when it is not. */
  lemma {:induction false} VariableIndexedIffInBasis(dim: nat, basis: seq<Mon>, varDict: map<Mon, nat>)
    requires forall m :: m in varDict <==> m in basis && Sum(m) <= 1
    ensures forall i :: 0 <= i < dim ==> (UnitVec(dim, i) in varDict <==> UnitVec(dim, i) in basis)
    ensures forall i :: 0 <= i < dim ==>
              (i in Positions(MissingVars(dim, varDict, dim)) <==> UnitVec(dim, i) !in basis)
  {
    forall i | 0 <= i < dim
      ensures UnitVec(dim, i) in varDict <==> UnitVec(dim, i) in basis
    {
      SumOfUnitVec(dim, i);
    }
    MissingVarsSpec(dim, varDict, dim);
  }

  /** The position map built at the end of `TVBMultMatrix`: every monomial
      of total degree 0 or 1 in the sorted basis, mapped to its position. */
  method BuildVarDict(vb: seq<Mon>) returns (d: map<Mon, nat>)
    ensures forall m :: m in d <==> m in vb && Sum(m) <= 1
    ensures forall m :: m in d ==> d[m] < |vb| && vb[d[m]] == m
    ensures forall m :: m in d ==> forall j :: d[m] < j < |vb| ==> vb[j] != m
  {
    d := map[];
    for i := 0 to |vb|
      invariant VarDictUpTo(vb, d, i)
    {
      VarDictStep(vb, d, i);
      var mon := vb[i];
      if Sum(mon) == 1 || Sum(mon) == 0 {
        d := d[mon := i];
      }
    }
    assert vb[..|vb|] == vb;
  }

  /** d is the position map of the monomials of degree at most 1 among the
      first i entries of vb, each at its last position. */
  ghost predicate VarDictUpTo(vb: seq<Mon>, d: map<Mon, nat>, i: nat)
    requires i <= |vb|
  {
    (forall m :: m in d <==> m in vb[..i] && Sum(m) <= 1) &&
    (forall m :: m in d ==> d[m] < i && vb[d[m]] == m) &&
    (forall m :: m in d ==> forall j :: d[m] < j < i ==> vb[j] != m)
  }

  lemma VarDictStep(vb: seq<Mon>, d: map<Mon, nat>, i: nat)
    requires i < |vb| && VarDictUpTo(vb, d, i)
    ensures VarDictUpTo(vb, if Sum(vb[i]) <= 1 then d[vb[i] := i] else d, i + 1)
  {
    assert vb[..i + 1] == vb[..i] + [vb[i]];
  }

}
