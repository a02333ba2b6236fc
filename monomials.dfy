/**
 * The monomial basis of a two-dimensional polynomial of total degree at most
 * d: the exponent pairs (degX, degY), grouped by ascending total degree and,
 * within one degree, by ascending exponent of y. Index 0 is the constant term.
 */
module Monomials {

  /** The monomial x^degX * y^degY. */
  datatype Monomial = Monomial(degX: nat, degY: nat)

  function Degree(m: Monomial): nat
  {
    m.degX + m.degY
  }

  /** The number of monomials of total degree below k: degree j contributes j + 1 of them. */
  function CountBelow(k: nat): nat
  {
    if k == 0 then 0 else CountBelow(k - 1) + k
  }

  /**
   * Gauss's relation (m+1)(m+2)/2, the number of coefficients the fitter
   * allocates for order m. The product of two consecutive integers is even and
   * never negative, so Java's truncating division and Dafny's agree here.
   */
  function GaussCount(m: int): int
  {
    (m + 1) * (m + 2) / 2
  }

  /** Gauss's relation counts the monomials of degree at most m, for every order from -1 on. */
  lemma {:induction false} GaussRelation(m: int)
    requires m >= -1
    ensures GaussCount(m) == CountBelow(m + 1)
  {
    if m >= 0 {
      GaussRelation(m - 1);
      assert (m + 1) * (m + 2) == m * (m + 1) + 2 * (m + 1);
    }
  }

  /** The closed form is never negative, whatever the order. */
  lemma GaussCountNonNegative(m: int)
    ensures GaussCount(m) >= 0
  {
    var a, b := m + 1, m + 2;
    if m <= -2 {
      var na: nat, nb: nat := -a, -b;
      assert a * b == na * nb;
    } else if m >= -1 {
      var pa: nat, pb: nat := a, b;
      assert a * b == pa * pb;
    }
  }

  lemma {:induction false} CountBelowMonotone(a: nat, b: nat)
    requires a <= b
    ensures CountBelow(a) <= CountBelow(b)
  {
    if a < b {
      CountBelowMonotone(a, b - 1);
    }
  }

  /** The monomials of total degree exactly k, by ascending exponent of y. */
  function Block(k: nat): seq<Monomial>
  {
    seq(k + 1, n requires 0 <= n <= k => Monomial(k - n, n))
  }

  /** The basis of total degree at most d. */
  function Basis(d: nat): (b: seq<Monomial>)
    ensures |b| == CountBelow(d + 1)
  {
    if d == 0 then [Monomial(0, 0)] else Basis(d - 1) + Block(d)
  }

  /** The position of a monomial in every basis that contains it. */
  function IndexOf(m: Monomial): nat
  {
    CountBelow(Degree(m)) + m.degY
  }

  /** Every monomial of degree at most d sits at IndexOf in Basis(d). */
  lemma {:induction false} BasisAt(d: nat, m: Monomial)
    requires Degree(m) <= d
    ensures IndexOf(m) < |Basis(d)| && Basis(d)[IndexOf(m)] == m
  {
    if d == 0 {
      assert m == Monomial(0, 0);
    } else if Degree(m) == d {
      BlockAt(d, m);
    } else {
      BasisAt(d - 1, m);
      assert IndexOf(m) < |Basis(d - 1)|;
      BasisPrefix(d, IndexOf(m));
    }
  }

  /** A monomial of degree exactly d sits in the last block of Basis(d). */
  lemma BlockAt(d: nat, m: Monomial)
    requires d > 0 && Degree(m) == d
    ensures IndexOf(m) < |Basis(d)| && Basis(d)[IndexOf(m)] == m
  {
    var prefix := Basis(d - 1);
    var i := IndexOf(m);
    assert i == |prefix| + m.degY;
    assert Basis(d)[i] == Block(d)[m.degY];
  }

  /** Basis(d) extends Basis(d - 1). */
  lemma BasisPrefix(d: nat, i: nat)
    requires d > 0 && i < |Basis(d - 1)|
    ensures i < |Basis(d)| && Basis(d)[i] == Basis(d - 1)[i]
  {
  }

  /** The monomials of degree k fill the slots from CountBelow(k) to CountBelow(k + 1) - 1, by ascending y exponent. */
  lemma BasisBlock(d: nat, k: nat)
    requires k <= d
    ensures CountBelow(k) + k + 1 == CountBelow(k + 1) <= |Basis(d)|
    ensures forall c :: CountBelow(k) <= c < CountBelow(k + 1) ==>
              Basis(d)[c] == Monomial(CountBelow(k + 1) - 1 - c, c - CountBelow(k))
  {
    CountBelowMonotone(k + 1, d + 1);
    var start := CountBelow(k);
    forall c | start <= c < CountBelow(k + 1) ensures Basis(d)[c] == Monomial(CountBelow(k + 1) - 1 - c, c - start) {
      var m := Monomial(CountBelow(k + 1) - 1 - c, c - start);
      assert IndexOf(m) == c;
      BasisAt(d, m);
    }
  }

  /** Each entry of Basis(d) has degree at most d, and IndexOf recovers its position. */
  lemma {:induction false} IndexOfEntry(d: nat, c: nat)
    requires c < |Basis(d)|
    ensures Degree(Basis(d)[c]) <= d && IndexOf(Basis(d)[c]) == c
  {
    if d > 0 {
      var prefix := CountBelow(d);
      assert Basis(d) == Basis(d - 1) + Block(d);
      if c < prefix {
        IndexOfEntry(d - 1, c);
      } else {
        assert Basis(d)[c] == Block(d)[c - prefix];
      }
    }
  }

  /** The constant term is entry 0 of every basis. */
  lemma BasisConstantTerm(d: nat)
    ensures |Basis(d)| > 0 && Basis(d)[0] == Monomial(0, 0)
  {
    BasisAt(d, Monomial(0, 0));
  }

  /** A monomial belongs to Basis(d) exactly when its degree is at most d. */
  lemma BasisComplete(d: nat, m: Monomial)
    ensures m in Basis(d) <==> Degree(m) <= d
  {
    if Degree(m) <= d {
      BasisAt(d, m);
    }
    if m in Basis(d) {
      var c :| 0 <= c < |Basis(d)| && Basis(d)[c] == m;
      IndexOfEntry(d, c);
    }
  }

  /** No monomial occurs twice in a basis. */
  lemma BasisDistinct(d: nat, a: nat, b: nat)
    requires a < |Basis(d)| && b < |Basis(d)|
    requires Basis(d)[a] == Basis(d)[b]
    ensures a == b
  {
    IndexOfEntry(d, a);
    IndexOfEntry(d, b);
  }

  /** Monomial p comes before q: lower degree, or same degree and lower y exponent. */
  predicate Precedes(p: Monomial, q: Monomial)
  {
    Degree(p) < Degree(q) || (Degree(p) == Degree(q) && p.degY < q.degY)
  }

  lemma IndexOfMonotone(p: Monomial, q: Monomial)
    requires Precedes(p, q)
    ensures IndexOf(p) < IndexOf(q)
  {
    if Degree(p) < Degree(q) {
      CountBelowMonotone(Degree(p) + 1, Degree(q));
    }
  }

  /** The basis is listed by ascending degree, then by ascending y exponent. */
  lemma BasisOrdered(d: nat, a: nat, b: nat)
    requires a < b < |Basis(d)|
    ensures Precedes(Basis(d)[a], Basis(d)[b])
  {
    var p, q := Basis(d)[a], Basis(d)[b];
    IndexOfEntry(d, a);
    IndexOfEntry(d, b);
    if !Precedes(p, q) {
      if p == q {
        BasisDistinct(d, a, b);
      } else {
        assert Precedes(q, p);
        IndexOfMonotone(q, p);
      }
    }
  }

  /**
   * The exponent table the fitter builds for a maximal order m. For a negative
   * order the fill loop never runs, and the table holds as many copies of the
   * constant term as Gauss's relation allocates: none for -1 and -2, then
   * 1, 3, 6, ... going down.
   */
  function PowerTable(m: int): (t: seq<Monomial>)
  {
    if m >= 0 then Basis(m)
    else if m == -1 then []
    else seq(CountBelow(-m - 2), _ => Monomial(0, 0))
  }

  /** Below order -1, Gauss's relation mirrors itself: order m allocates what order -m - 3 does. */
  lemma GaussMirror(m: int)
    requires m <= -2
    ensures GaussCount(m) == CountBelow(-m - 2)
  {
    var k := -m - 2;
    assert (m + 1) * (m + 2) == k * (k + 1);
    GaussRelation(k - 1);
  }

  /** The table has one entry per coefficient the fitter allocates. */
  lemma PowerTableLength(m: int)
    ensures |PowerTable(m)| == GaussCount(m)
  {
    if m >= 0 {
      GaussRelation(m);
    } else if m == -1 {
      assert GaussCount(m) == 0;
    } else {
      GaussMirror(m);
    }
  }

  /** Whatever the order, a non-empty table starts with the constant term. */
  lemma PowerTableConstantTerm(m: int)
    requires |PowerTable(m)| > 0
    ensures PowerTable(m)[0] == Monomial(0, 0)
  {
    if m >= 0 {
      BasisConstantTerm(m);
    }
  }
}
