/** Exponent tuples and the helpers the root finder takes from its utility
    modules: divisibility of monomials, the list of single variables, the
    lexicographic order in which `itertools.product` enumerates a box, the
    graded reverse lexicographic order of `Term`, and `mon_combos`. */
module Monomials {

  /** A monomial x_0^m[0] * ... * x_{n-1}^m[n-1], given by its exponent tuple. */
  type Mon = seq<nat>

  /** Total degree of a monomial. */
  function Sum(m: Mon): (total: nat)
  {
    if |m| == 0 then 0 else m[0] + Sum(m[1..])
  }

  /** `divides(a, b)`: the monomial a divides b, i.e. a <= b componentwise. */
  predicate Divides(a: Mon, b: Mon)
  {
    |a| == |b| && forall i :: 0 <= i < |a| ==> a[i] <= b[i]
  }

  /** The constant monomial 1 in `dim` variables. */
  function Zeros(dim: nat): (z: Mon)
    ensures |z| == dim && Sum(z) == 0
  {
    if dim == 0 then [] else [0] + Zeros(dim - 1)
  }

  /** The exponent tuple of the single variable x_i in `dim` variables. */
  function UnitVec(dim: nat, i: nat): (u: Mon)
    requires i < dim
    ensures |u| == dim && u[i] == 1
    ensures forall j :: 0 <= j < dim && j != i ==> u[j] == 0
  {
    seq(dim, j => if j == i then 1 else 0)
  }

  /** `get_var_list(dim)`: the unit exponent tuples x_0, ..., x_{dim-1}. */
  function VarList(dim: nat): (vs: seq<Mon>)
    ensures |vs| == dim
    ensures forall i :: 0 <= i < dim ==> vs[i] == UnitVec(dim, i)
  {
    seq(dim, i requires 0 <= i < dim => UnitVec(dim, i))
  }

  lemma {:induction false} SumOfUnitVec(dim: nat, i: nat)
    requires i < dim
    ensures Sum(UnitVec(dim, i)) == 1
  {
    SumOneHot(UnitVec(dim, i), i);
  }

  lemma {:induction false} SumOneHot(m: Mon, i: nat)
    requires i < |m| && m[i] == 1
    requires forall j :: 0 <= j < |m| && j != i ==> m[j] == 0
    ensures Sum(m) == 1
  {
    if i == 0 {
      SumZero(m[1..]);
    } else {
      SumOneHot(m[1..], i - 1);
    }
  }

  lemma {:induction false} SumZero(m: Mon)
    requires forall j :: 0 <= j < |m| ==> m[j] == 0
    ensures Sum(m) == 0
  {
    if |m| > 0 {
      SumZero(m[1..]);
    }
  }

  /** A monomial of total degree 0 is the constant monomial. */
  lemma {:induction false} SumZeroIsZeros(m: Mon)
    requires Sum(m) == 0
    ensures m == Zeros(|m|)
  {
    if |m| > 0 {
      SumZeroIsZeros(m[1..]);
    }
  }

  /** A monomial of total degree 1 is a single variable. */
  lemma {:induction false} SumOneIsUnit(m: Mon) returns (i: nat)
    requires Sum(m) == 1
    ensures i < |m| && m == UnitVec(|m|, i)
  {
    if m[0] == 1 {
      SumZeroIsZeros(m[1..]);
      i := 0;
      assert m == UnitVec(|m|, 0) by {
        forall j | 1 <= j < |m| ensures m[j] == 0 {
          assert m[1..][j - 1] == Zeros(|m| - 1)[j - 1];
          ZerosAt(|m| - 1, j - 1);
        }
      }
    } else {
      var k := SumOneIsUnit(m[1..]);
      i := k + 1;
    }
  }

  lemma {:induction false} ZerosAt(dim: nat, j: nat)
    requires j < dim
    ensures Zeros(dim)[j] == 0
  {
    if j > 0 {
      ZerosAt(dim - 1, j - 1);
    }
  }

  // ---------------------------------------------------------------------
  // Lexicographic order: the order of itertools.product (last axis fastest)
  // ---------------------------------------------------------------------

  /** a comes strictly before b in lexicographic order (equal lengths). */
  predicate LexLess(a: Mon, b: Mon)
    decreases |a|
  {
    |a| > 0 && |b| > 0 &&
    (a[0] < b[0] || (a[0] == b[0] && LexLess(a[1..], b[1..])))
  }

  /** Strictly increasing in lexicographic order (hence pairwise distinct). */
  predicate LexSorted(s: seq<Mon>)
  {
    forall i, j :: 0 <= i < j < |s| ==> LexLess(s[i], s[j])
  }

  lemma {:induction false} LexLessIrreflexive(a: Mon)
    ensures !LexLess(a, a)
  {
    if |a| > 0 {
      LexLessIrreflexive(a[1..]);
    }
  }

  lemma LexSortedDistinct(s: seq<Mon>)
    requires LexSorted(s)
    ensures forall i, j :: 0 <= i < j < |s| ==> s[i] != s[j]
  {
    forall i, j | 0 <= i < j < |s| ensures s[i] != s[j] {
      LexLessIrreflexive(s[i]);
    }
  }

  /** Every monomial of s with the exponent e put in front. */
  function Prepend(e: nat, s: seq<Mon>): (r: seq<Mon>)
    ensures |r| == |s|
    ensures forall i :: 0 <= i < |s| ==> r[i] == [e] + s[i]
  {
    seq(|s|, i requires 0 <= i < |s| => [e] + s[i])
  }

  lemma PrependMember(e: nat, s: seq<Mon>, m: Mon)
    ensures m in Prepend(e, s) <==> |m| > 0 && m[0] == e && m[1..] in s
  {
    if m in Prepend(e, s) {
      var i :| 0 <= i < |s| && Prepend(e, s)[i] == m;
      assert m[1..] == s[i];
    }
    if |m| > 0 && m[0] == e && m[1..] in s {
      var i :| 0 <= i < |s| && s[i] == m[1..];
      assert Prepend(e, s)[i] == m;
    }
  }

  lemma PrependSorted(e: nat, s: seq<Mon>)
    requires LexSorted(s)
    ensures LexSorted(Prepend(e, s))
  {
    var r := Prepend(e, s);
    forall i, j | 0 <= i < j < |r| ensures LexLess(r[i], r[j]) {
      assert r[i][1..] == s[i] && r[j][1..] == s[j];
    }
  }

  lemma ConcatSorted(a: seq<Mon>, b: seq<Mon>)
    requires LexSorted(a) && LexSorted(b)
    requires forall x, y :: x in a && y in b ==> LexLess(x, y)
    ensures LexSorted(a + b)
  {
    var c := a + b;
    forall i, j | 0 <= i < j < |c| ensures LexLess(c[i], c[j]) {
      if j < |a| {
        assert c[i] == a[i] && c[j] == a[j];
      } else if i >= |a| {
        assert c[i] == b[i - |a|] && c[j] == b[j - |a|];
      } else {
        assert c[i] in a && c[j] in b;
      }
    }
  }

  // ---------------------------------------------------------------------
  // mon_combos: all monomials of total degree <= d, the constant one first
  // ---------------------------------------------------------------------

  /** `mon_combos([0]*dim, d)`: every exponent tuple of length dim and total
      degree at most d, each once, in lexicographic order (so the constant
      monomial comes first). */
  function MonCombos(dim: nat, d: nat): (mons: seq<Mon>)
    decreases dim, 1, 0
  {
    if dim == 0 then [[]] else CombosFrom(dim, d, 0)
  }

  /** Those with first exponent at least e. */
  function CombosFrom(dim: nat, d: nat, e: nat): (mons: seq<Mon>)
    requires dim > 0
    decreases dim, 0, d + 1 - e
  {
    if e > d then [] else Prepend(e, MonCombos(dim - 1, d - e)) + CombosFrom(dim, d, e + 1)
  }

  /** Membership in mon_combos: exactly the tuples of the right length and
      total degree at most d. */
  lemma {:induction false} MonCombosMember(dim: nat, d: nat, m: Mon)
    ensures m in MonCombos(dim, d) <==> |m| == dim && Sum(m) <= d
    decreases dim, 1, 0
  {
    if dim > 0 {
      CombosFromMember(dim, d, 0, m);
    }
  }

  lemma {:induction false} CombosFromMember(dim: nat, d: nat, e: nat, m: Mon)
    requires dim > 0
    ensures m in CombosFrom(dim, d, e) <==> |m| == dim && e <= m[0] && Sum(m) <= d
    decreases dim, 0, d + 1 - e
  {
    if e <= d {
      PrependMember(e, MonCombos(dim - 1, d - e), m);
      CombosFromMember(dim, d, e + 1, m);
      if |m| > 0 {
        MonCombosMember(dim - 1, d - e, m[1..]);
      }
    }
  }

  /** mon_combos is strictly increasing in lexicographic order. */
  lemma {:induction false} MonCombosSorted(dim: nat, d: nat)
    ensures LexSorted(MonCombos(dim, d))
    decreases dim, 1, 0
  {
    if dim > 0 {
      CombosFromSorted(dim, d, 0);
    }
  }

  lemma {:induction false} CombosFromSorted(dim: nat, d: nat, e: nat)
    requires dim > 0
    ensures LexSorted(CombosFrom(dim, d, e))
    decreases dim, 0, d + 1 - e
  {
    if e <= d {
      var head := Prepend(e, MonCombos(dim - 1, d - e));
      var tail := CombosFrom(dim, d, e + 1);
      MonCombosSorted(dim - 1, d - e);
      PrependSorted(e, MonCombos(dim - 1, d - e));
      CombosFromSorted(dim, d, e + 1);
      forall x, y | x in head && y in tail ensures LexLess(x, y) {
        PrependMember(e, MonCombos(dim - 1, d - e), x);
        CombosFromMember(dim, d, e + 1, y);
      }
      ConcatSorted(head, tail);
    }
  }

  /** The first entry of mon_combos is the constant monomial, and no later
      entry is: `mons[1:]` are exactly the non-constant multipliers. */
  lemma {:induction false} MonCombosHead(dim: nat, d: nat)
    ensures |MonCombos(dim, d)| > 0 && MonCombos(dim, d)[0] == Zeros(dim)
    ensures Zeros(dim) !in MonCombos(dim, d)[1..]
    decreases dim
  {
    var s := MonCombos(dim, d);
    if dim > 0 {
      MonCombosHead(dim - 1, d);
      var head := Prepend(0, MonCombos(dim - 1, d));
      assert s == CombosFrom(dim, d, 0) == head + CombosFrom(dim, d, 1);
      assert s[0] == head[0] == [0] + Zeros(dim - 1);
    }
    MonCombosSorted(dim, d);
    LexSortedDistinct(s);
    forall j | 0 <= j < |s| - 1 ensures s[1..][j] != Zeros(dim) {
      assert s[1..][j] == s[j + 1] != s[0];
    }
  }

  // ---------------------------------------------------------------------
  // Graded reverse lexicographic order (the order of `Term`)
  // ---------------------------------------------------------------------

  /** The last coordinate in which a and b differ is larger in a. */
  predicate RevLexLess(a: Mon, b: Mon)
    requires |a| == |b|
    decreases |a|
  {
    |a| > 0 &&
    (if a[|a| - 1] != b[|a| - 1] then a[|a| - 1] > b[|a| - 1]
     else RevLexLess(a[..|a| - 1], b[..|a| - 1]))
  }

  /** `Term(a) < Term(b)` in degrevlex: lower total degree first, ties broken
      by reverse lexicographic comparison. */
  predicate DegRevLexLess(a: Mon, b: Mon)
    requires |a| == |b|
  {
    Sum(a) < Sum(b) || (Sum(a) == Sum(b) && RevLexLess(a, b))
  }

  lemma {:induction false} RevLexIrreflexive(a: Mon)
    ensures !RevLexLess(a, a)
  {
    if |a| > 0 {
      RevLexIrreflexive(a[..|a| - 1]);
    }
  }

  lemma {:induction false} RevLexTransitive(a: Mon, b: Mon, c: Mon)
    requires |a| == |b| == |c|
    requires RevLexLess(a, b) && RevLexLess(b, c)
    ensures RevLexLess(a, c)
  {
    var n := |a| - 1;
    if a[n] == b[n] && b[n] == c[n] {
      RevLexTransitive(a[..n], b[..n], c[..n]);
    }
  }

  lemma {:induction false} RevLexTotal(a: Mon, b: Mon)
    requires |a| == |b| && a != b
    ensures RevLexLess(a, b) || RevLexLess(b, a)
  {
    var n := |a| - 1;
    if a[n] == b[n] {
      assert a == a[..n] + [a[n]] && b == b[..n] + [b[n]];
      RevLexTotal(a[..n], b[..n]);
    }
  }

  lemma DegRevLexIrreflexive(a: Mon)
    ensures !DegRevLexLess(a, a)
  {
    RevLexIrreflexive(a);
  }

  lemma DegRevLexTransitive(a: Mon, b: Mon, c: Mon)
    requires |a| == |b| == |c|
    requires DegRevLexLess(a, b) && DegRevLexLess(b, c)
    ensures DegRevLexLess(a, c)
  {
    if Sum(a) == Sum(b) == Sum(c) {
      RevLexTransitive(a, b, c);
    }
  }

  /** degrevlex is total on tuples of one length. */
  lemma DegRevLexTotal(a: Mon, b: Mon)
    requires |a| == |b| && a != b
    ensures DegRevLexLess(a, b) || DegRevLexLess(b, a)
  {
    RevLexTotal(a, b);
  }
}
