/**
 * The mathematics behind the polynomial background: normalised coordinates,
 * the value of the polynomial surface, the positions sampled under a mask,
 * the least-squares system built from them, and the background a fit yields.
 * Values are real numbers; the fitter computes them in double precision.
 */
module Surface {
  import opened Wrappers
  import opened Grids
  import opened Monomials

  /** x^n for a natural exponent (the source calls Math.pow with an integer exponent). */
  function Pow(x: real, n: nat): real
  {
    if n == 0 then 1.0 else x * Pow(x, n - 1)
  }

  /** Maps an index of [0, size) onto [-1.5, 1.5), keeping high powers bounded. */
  function NormalizePosition(index: int, size: int): (r: real)
    requires size > 0
    ensures 0 <= index < size ==> -1.5 <= r < 1.5
  {
    ((index as real / size as real) - 0.5) * 3.0
  }

  /** Distinct indices get distinct coordinates, in the same order. */
  lemma NormalizePositionIncreasing(i: int, j: int, size: int)
    requires size > 0 && i < j
    ensures NormalizePosition(i, size) < NormalizePosition(j, size)
  {
    var s := size as real;
    assert j as real / s - i as real / s == (j as real - i as real) / s;
    assert (j as real - i as real) / s > 0.0;
  }

  /** The value of monomial m at the normalised point (xn, yn). */
  function MonomialValue(m: Monomial, xn: real, yn: real): real
  {
    Pow(xn, m.degX) * Pow(yn, m.degY)
  }

  /** The sum of the first k terms coeffs[c] * monomial c, accumulated in index order. */
  function PartialSum(coeffs: seq<real>, basis: seq<Monomial>, xn: real, yn: real, k: nat): real
    requires k <= |coeffs| == |basis|
  {
    if k == 0 then 0.0
    else PartialSum(coeffs, basis, xn, yn, k - 1) + coeffs[k - 1] * MonomialValue(basis[k - 1], xn, yn)
  }

  /** One more term of the sum, with the two powers of the monomial given as tabulated. */
  lemma PartialSumStep(coeffs: seq<real>, basis: seq<Monomial>, xn: real, yn: real, k: nat, xm: real, ym: real)
    requires k < |coeffs| == |basis|
    requires xm == Pow(xn, basis[k].degX) && ym == Pow(yn, basis[k].degY)
    ensures PartialSum(coeffs, basis, xn, yn, k + 1) == PartialSum(coeffs, basis, xn, yn, k) + coeffs[k] * xm * ym
  {
    assert MonomialValue(basis[k], xn, yn) == xm * ym;
    assert coeffs[k] * xm * ym == coeffs[k] * (xm * ym);
  }

  /** The polynomial surface with the given coefficients, at (xn, yn). */
  function PolyValue(coeffs: seq<real>, basis: seq<Monomial>, xn: real, yn: real): real
    requires |coeffs| == |basis|
  {
    PartialSum(coeffs, basis, xn, yn, |coeffs|)
  }

  /** Only the constant coefficient contributes to a partial sum when the others are zero. */
  lemma {:induction false} PartialSumConstant(coeffs: seq<real>, basis: seq<Monomial>, xn: real, yn: real, k: nat)
    requires 0 < k <= |coeffs| == |basis|
    requires basis[0] == Monomial(0, 0)
    requires forall c :: 1 <= c < |coeffs| ==> coeffs[c] == 0.0
    ensures PartialSum(coeffs, basis, xn, yn, k) == coeffs[0]
  {
    if k > 1 {
      PartialSumConstant(coeffs, basis, xn, yn, k - 1);
    }
  }

  /**
   * A coefficient vector that is zero except on the constant term describes a
   * flat surface at the height of that term, wherever it is evaluated.
   */
  lemma ConstantSurface(coeffs: seq<real>, d: nat, xn: real, yn: real)
    requires |coeffs| == |Basis(d)|
    requires forall c :: 1 <= c < |coeffs| ==> coeffs[c] == 0.0
    ensures PolyValue(coeffs, Basis(d), xn, yn) == coeffs[0]
  {
    BasisConstantTerm(d);
    PartialSumConstant(coeffs, Basis(d), xn, yn, |coeffs|);
  }

  /**
   * The surface is linear in its coefficients: the coefficient vector
   * f * a + g * b evaluates, term by term, to f times the surface of a plus g
   * times the surface of b.
   */
  lemma {:induction false} PartialSumLinear(a: seq<real>, b: seq<real>, s: seq<real>, f: real, g: real,
                                            basis: seq<Monomial>, xn: real, yn: real, k: nat)
    requires k <= |a| == |b| == |s| == |basis|
    requires forall c :: 0 <= c < |s| ==> s[c] == f * a[c] + g * b[c]
    ensures PartialSum(s, basis, xn, yn, k)
            == f * PartialSum(a, basis, xn, yn, k) + g * PartialSum(b, basis, xn, yn, k)
  {
    if k > 0 {
      PartialSumLinear(a, b, s, f, g, basis, xn, yn, k - 1);
      var m := MonomialValue(basis[k - 1], xn, yn);
      assert s[k - 1] * m == f * (a[k - 1] * m) + g * (b[k - 1] * m);
    }
  }

  // ---------------------------------------------------------------------------
  // Sampling: the positions (x, y), both multiples of the step, inside the
  // image and inside the mask, in the order y-major then x (the loops' order).
  // ---------------------------------------------------------------------------

  /** Sampled positions of row y, from column x on. */
  function RowSites(mask: Grid<bool>, w: nat, h: nat, step: nat, y: nat, x: nat): (s: seq<(nat, nat)>)
    requires step >= 1 && Covers(mask, w, h) && y < h
    ensures forall p :: p in s ==> x <= p.0 < w && p.1 == y
    decreases w - x
  {
    if x >= w then []
    else (if mask[x][y] then [(x, y)] else []) + RowSites(mask, w, h, step, y, x + step)
  }

  /** Sampled positions of rows y, y + step, ... */
  function Sites(mask: Grid<bool>, w: nat, h: nat, step: nat, y: nat): (s: seq<(nat, nat)>)
    requires step >= 1 && Covers(mask, w, h)
    ensures forall p :: p in s ==> p.0 < w && y <= p.1 < h
    decreases h - y
  {
    if y >= h then []
    else RowSites(mask, w, h, step, y, 0) + Sites(mask, w, h, step, y + step)
  }

  /** All sampled positions, in the order both loops of the fit visit them. */
  function SampleSites(mask: Grid<bool>, w: nat, h: nat, step: nat): seq<(nat, nat)>
    requires step >= 1 && Covers(mask, w, h)
  {
    Sites(mask, w, h, step, 0)
  }

  /** The positions a fit uses: on the step grid, inside the image, masked true. */
  function SampledPositions(mask: Grid<bool>, w: nat, h: nat, step: nat): set<(nat, nat)>
    requires step >= 1 && Covers(mask, w, h)
  {
    set x: nat, y: nat | x < w && y < h && x % step == 0 && y % step == 0 && mask[x][y] :: (x, y)
  }

  lemma MulAtLeast(k: int, s: int)
    requires k >= 1 && s > 0
    ensures k * s >= s
  {
    var m := k - 1;
    assert m * s >= 0;
    assert k * s == m * s + s;
  }

  /** The remainder is determined by any quotient-remainder decomposition. */
  lemma ModUnique(a: int, s: int, q: int, r: int)
    requires s > 0 && 0 <= r < s && a == q * s + r
    ensures a % s == r
  {
    var q0, r0 := a / s, a % s;
    assert a == q0 * s + r0;
    var k := q - q0;
    assert k * s == q * s - q0 * s;
    assert k * s == r0 - r;
    if k >= 1 {
      MulAtLeast(k, s);
    } else if k <= -1 {
      MulAtLeast(-k, s);
    }
  }

  /** An offset d >= 0 is a multiple of s exactly when it is 0 or s more than a multiple of s. */
  lemma MultipleStep(d: int, s: int)
    requires s > 0 && d >= 0
    ensures d % s == 0 <==> (d == 0 || (d >= s && (d - s) % s == 0))
  {
    if d == 0 {
      ModUnique(0, s, 0, 0);
    } else if d < s {
      ModUnique(d, s, 0, d);
    } else {
      var q, r := (d - s) / s, (d - s) % s;
      assert d - s == q * s + r;
      assert d == (q + 1) * s + r;
      ModUnique(d, s, q + 1, r);
    }
  }

  /** Membership in RowSites: on the row, from x on, on the step grid relative to x, masked. */
  lemma {:induction false} RowSitesMembers(mask: Grid<bool>, w: nat, h: nat, step: nat, y: nat, x: nat, p: (nat, nat))
    requires step >= 1 && Covers(mask, w, h) && y < h
    ensures p in RowSites(mask, w, h, step, y, x) <==>
      p.1 == y && x <= p.0 < w && (p.0 - x) % step == 0 && mask[p.0][y]
    decreases w - x
  {
    if x < w {
      var rest := RowSites(mask, w, h, step, y, x + step);
      assert RowSites(mask, w, h, step, y, x) == (if mask[x][y] then [(x, y)] else []) + rest;
      RowSitesMembers(mask, w, h, step, y, x + step, p);
      if p.1 == y && x <= p.0 < w {
        MultipleStep(p.0 - x, step);
        if p.0 == x {
          assert p in RowSites(mask, w, h, step, y, x) <==> mask[x][y];
        } else {
          assert p in RowSites(mask, w, h, step, y, x) <==> p in rest;
        }
      } else {
        assert p !in rest;
      }
    }
  }

  /** Membership in Sites: on the column grid, from row y on, on the step grid relative to y, masked. */
  lemma {:induction false} SitesMembers(mask: Grid<bool>, w: nat, h: nat, step: nat, y: nat, p: (nat, nat))
    requires step >= 1 && Covers(mask, w, h)
    ensures p in Sites(mask, w, h, step, y) <==>
      p.0 < w && y <= p.1 < h && p.0 % step == 0 && (p.1 - y) % step == 0 && mask[p.0][p.1]
    decreases h - y
  {
    if y < h {
      var rest := Sites(mask, w, h, step, y + step);
      assert Sites(mask, w, h, step, y) == RowSites(mask, w, h, step, y, 0) + rest;
      SitesMembers(mask, w, h, step, y + step, p);
      RowSitesMembers(mask, w, h, step, y, 0, p);
      if y <= p.1 {
        MultipleStep(p.1 - y, step);
      }
    }
  }

  /** Position p is visited strictly before q in y-major order. */
  predicate Before(p: (nat, nat), q: (nat, nat))
  {
    p.1 < q.1 || (p.1 == q.1 && p.0 < q.0)
  }

  /** The sequence lists positions in strictly increasing y-major order. */
  predicate StrictlyOrdered(s: seq<(nat, nat)>)
  {
    forall i, j :: 0 <= i < j < |s| ==> Before(s[i], s[j])
  }

  lemma ConcatOrdered(a: seq<(nat, nat)>, b: seq<(nat, nat)>)
    requires StrictlyOrdered(a) && StrictlyOrdered(b)
    requires forall p, q :: p in a && q in b ==> Before(p, q)
    ensures StrictlyOrdered(a + b)
  {
    forall i, j | 0 <= i < j < |a + b|
      ensures Before((a + b)[i], (a + b)[j])
    {
      if j < |a| {
      } else if i >= |a| {
        assert (a + b)[i] == b[i - |a|] && (a + b)[j] == b[j - |a|];
      } else {
        assert (a + b)[i] in a && (a + b)[j] in b;
      }
    }
  }

  lemma {:induction false} RowSitesOrdered(mask: Grid<bool>, w: nat, h: nat, step: nat, y: nat, x: nat)
    requires step >= 1 && Covers(mask, w, h) && y < h
    ensures StrictlyOrdered(RowSites(mask, w, h, step, y, x))
    decreases w - x
  {
    if x < w {
      RowSitesOrdered(mask, w, h, step, y, x + step);
      ConcatOrdered(if mask[x][y] then [(x, y)] else [], RowSites(mask, w, h, step, y, x + step));
    }
  }

  lemma {:induction false} SitesOrdered(mask: Grid<bool>, w: nat, h: nat, step: nat, y: nat)
    requires step >= 1 && Covers(mask, w, h)
    ensures StrictlyOrdered(Sites(mask, w, h, step, y))
    decreases h - y
  {
    if y < h {
      SitesOrdered(mask, w, h, step, y + step);
      RowSitesOrdered(mask, w, h, step, y, 0);
      ConcatOrdered(RowSites(mask, w, h, step, y, 0), Sites(mask, w, h, step, y + step));
    }
  }

  lemma {:induction false} OrderedCardinality(s: seq<(nat, nat)>)
    requires StrictlyOrdered(s)
    ensures |set p | p in s| == |s|
  {
    if s != [] {
      var t := s[1..];
      assert StrictlyOrdered(t) by {
        forall i, j | 0 <= i < j < |t| ensures Before(t[i], t[j]) {
          assert t[i] == s[i + 1] && t[j] == s[j + 1];
        }
      }
      OrderedCardinality(t);
      assert s[0] !in t by {
        forall k | 0 <= k < |t| ensures t[k] != s[0] {
          assert Before(s[0], s[k + 1]);
        }
      }
      assert (set p | p in s) == {s[0]} + (set p | p in t) by {
        assert s == [s[0]] + t;
      }
    }
  }

  /**
   * The sampled sequence lists every sampled position exactly once: it is in
   * strict y-major order, its elements are exactly SampledPositions, and so
   * its length is the number of those positions.
   */
  lemma SampleSitesExact(mask: Grid<bool>, w: nat, h: nat, step: nat)
    requires step >= 1 && Covers(mask, w, h)
    ensures StrictlyOrdered(SampleSites(mask, w, h, step))
    ensures (set p | p in SampleSites(mask, w, h, step)) == SampledPositions(mask, w, h, step)
    ensures |SampleSites(mask, w, h, step)| == |SampledPositions(mask, w, h, step)|
  {
    var s := SampleSites(mask, w, h, step);
    SitesOrdered(mask, w, h, step, 0);
    forall p: (nat, nat) ensures p in s <==> p in SampledPositions(mask, w, h, step) {
      SitesMembers(mask, w, h, step, 0, p);
    }
    OrderedCardinality(s);
  }

  // ---------------------------------------------------------------------------
  // The least-squares system and the fitted background.
  // ---------------------------------------------------------------------------

  /** The design-matrix row of a sample: every monomial at its normalised position. */
  function DesignRow(basis: seq<Monomial>, w: nat, h: nat, p: (nat, nat)): (row: seq<real>)
    requires p.0 < w && p.1 < h
  {
    seq(|basis|, c requires 0 <= c < |basis| =>
      MonomialValue(basis[c], NormalizePosition(p.0, w), NormalizePosition(p.1, h)))
  }

  /** The design matrix: one row per sampled position, one column per monomial. */
  function DesignRows(sites: seq<(nat, nat)>, basis: seq<Monomial>, w: nat, h: nat): (rows: seq<seq<real>>)
    requires forall p :: p in sites ==> p.0 < w && p.1 < h
  {
    seq(|sites|, r requires 0 <= r < |sites| => DesignRow(basis, w, h, sites[r]))
  }

  /** The right-hand side: the image value at each sampled position. */
  function SampleValues(image: Grid<UInt8>, w: nat, h: nat, sites: seq<(nat, nat)>): (vals: seq<real>)
    requires Covers(image, w, h)
    requires forall p :: p in sites ==> p.0 < w && p.1 < h
  {
    seq(|sites|, r requires 0 <= r < |sites| => image[sites[r].0][sites[r].1] as real)
  }

  /**
   * The least-squares solver (a QR factorisation in the source): given the
   * design matrix and the values, the coefficient vector, or None when it
   * gives up (a rank-deficient matrix).
   */
  type Solver = (seq<seq<real>>, seq<real>) -> Option<seq<real>>

  /** What the solver answers for the system a fit builds. */
  function SolverAnswer(image: Grid<UInt8>, mask: Grid<bool>, w: nat, h: nat, basis: seq<Monomial>,
                        step: nat, solve: Solver): Option<seq<real>>
    requires step >= 1 && Covers(image, w, h) && Covers(mask, w, h)
  {
    var sites := SampleSites(mask, w, h, step);
    solve(DesignRows(sites, basis, w, h), SampleValues(image, w, h, sites))
  }

  /**
   * The coefficients a fit produces: the first |basis| entries of the
   * solver's answer, or None when the solver fails or answers too few.
   */
  function FittedCoefficients(image: Grid<UInt8>, mask: Grid<bool>, w: nat, h: nat, basis: seq<Monomial>,
                              step: nat, solve: Solver): (r: Option<seq<real>>)
    requires step >= 1 && Covers(image, w, h) && Covers(mask, w, h)
    ensures r.Some? ==> |r.value| == |basis|
    ensures r.Some? <==> (var t := SolverAnswer(image, mask, w, h, basis, step, solve); t.Some? && |t.value| >= |basis|)
  {
    match SolverAnswer(image, mask, w, h, basis, step, solve)
    case None => None
    case Some(theta) => if |theta| < |basis| then None else Some(theta[..|basis|])
  }

  /** The surface with the given coefficients, evaluated at every pixel of a w x h grid. */
  function BackgroundGrid(coeffs: seq<real>, basis: seq<Monomial>, w: nat, h: nat): (g: Grid<real>)
    requires |coeffs| == |basis|
    ensures |g| == w && Covers(g, w, h)
    ensures forall x :: 0 <= x < w ==> |g[x]| == h
  {
    seq(w, x requires 0 <= x < w =>
      seq(h, y requires 0 <= y < h =>
        PolyValue(coeffs, basis, NormalizePosition(x, w), NormalizePosition(y, h))))
  }

  /** The background a fit of the given order produces, or None when the solve fails. */
  function FittedBackground(image: Grid<UInt8>, mask: Grid<bool>, w: nat, h: nat, order: int,
                            step: nat, solve: Solver): Option<Grid<real>>
    requires step >= 1 && Covers(image, w, h) && Covers(mask, w, h)
  {
    match FittedCoefficients(image, mask, w, h, PowerTable(order), step, solve)
    case None => None
    case Some(coeffs) => Some(BackgroundGrid(coeffs, PowerTable(order), w, h))
  }
}
