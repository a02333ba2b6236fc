/**
 * The polynomial background fitter: an object holding the maximal order, the
 * coefficient vector, the exponent tables of the monomial basis and the
 * per-axis tables of monomial values, all updated in place by its methods.
 */
module Polynomial {
  import opened Wrappers
  import opened Grids
  import opened Monomials
  import opened Surface

  /**
   * Counts the positions on the sampling grid that lie inside the image and
   * inside the mask (the first pass of a fit, which sizes the matrix).
   */
  method CountSamples(mask: array2<bool>, sizeX: nat, sizeY: nat, samplingStep: nat) returns (nValues: nat)
    requires samplingStep >= 1
    requires mask.Length0 >= sizeX && mask.Length1 >= sizeY
    ensures nValues == |SampleSites(Cells(mask), sizeX, sizeY, samplingStep)|
    ensures nValues == |SampledPositions(Cells(mask), sizeX, sizeY, samplingStep)|
  {
    ghost var g := Cells(mask);
    ghost var total := |SampleSites(g, sizeX, sizeY, samplingStep)|;
    nValues := 0;
    var y := 0;
    while y < sizeY
      invariant nValues + |Sites(g, sizeX, sizeY, samplingStep, y)| == total
    {
      SitesSplit(g, sizeX, sizeY, samplingStep, y);
      var x := 0;
      while x < sizeX
        invariant nValues + |RowSites(g, sizeX, sizeY, samplingStep, y, x)|
                  + |Sites(g, sizeX, sizeY, samplingStep, y + samplingStep)| == total
      {
        RowSitesCount(g, sizeX, sizeY, samplingStep, y, x);
        if mask[x, y] {
          nValues := nValues + 1;
        }
        x := x + samplingStep;
      }
      y := y + samplingStep;
    }
    SampleSitesExact(g, sizeX, sizeY, samplingStep);
  }

  /** The samples from row y on are those of row y, then those from row y + step on. */
  lemma {:induction false} SitesSplit(mask: Grid<bool>, w: nat, h: nat, step: nat, y: nat)
    requires step >= 1 && Covers(mask, w, h) && y < h
    ensures Sites(mask, w, h, step, y) == RowSites(mask, w, h, step, y, 0) + Sites(mask, w, h, step, y + step)
  {
  }

  /** A masked position of the row adds one sample to those after it; an unmasked one none. */
  lemma {:induction false} RowSitesCount(mask: Grid<bool>, w: nat, h: nat, step: nat, y: nat, x: nat)
    requires step >= 1 && Covers(mask, w, h) && y < h && x < w
    ensures |RowSites(mask, w, h, step, y, x)| == |RowSites(mask, w, h, step, y, x + step)| + (if mask[x][y] then 1 else 0)
  {
  }

  /**
   * The table of one axis: entry (i, c) is the normalised coordinate of index
   * i raised to exponent c of the given exponent array.
   */
  method TabulatePowers(size: nat, powers: array<int>) returns (monoms: array2<real>)
    requires forall c :: 0 <= c < powers.Length ==> powers[c] >= 0
    ensures fresh(monoms) && monoms.Length0 == size && monoms.Length1 == powers.Length
    ensures forall i, c :: 0 <= i < size && 0 <= c < powers.Length ==>
              monoms[i, c] == Pow(NormalizePosition(i, size), powers[c])
  {
    monoms := new real[size, powers.Length];
    var i := 0;
    while i < size
      modifies monoms
      invariant 0 <= i <= size
      invariant forall i', c :: 0 <= i' < i && 0 <= c < powers.Length ==>
                  monoms[i', c] == Pow(NormalizePosition(i', size), powers[c])
    {
      var pos := NormalizePosition(i, size);
      var c := 0;
      while c < powers.Length
        modifies monoms
        invariant 0 <= c <= powers.Length
        invariant forall i', c' :: 0 <= i' < i && 0 <= c' < powers.Length ==>
                    monoms[i', c'] == Pow(NormalizePosition(i', size), powers[c'])
        invariant forall c' :: 0 <= c' < c ==> monoms[i, c'] == Pow(pos, powers[c'])
      {
        monoms[i, c] := Pow(pos, powers[c]);
        c := c + 1;
      }
      i := i + 1;
    }
  }

  /** dst with its first |src| entries (at most) replaced by those of src. */
  function Overwrite(dst: seq<real>, src: seq<real>): seq<real>
  {
    seq(|dst|, c requires 0 <= c < |dst| => if c < |src| then src[c] else dst[c])
  }

  /** Reading one element off a suffix moves the suffix on by one. */
  lemma SuffixAdvance<T>(s: seq<T>, i: nat, p: T, t: seq<T>)
    requires i <= |s| && s[i..] == [p] + t
    ensures i < |s| && s[i] == p && s[i + 1..] == t
  {
    assert s[i..][0] == s[i];
    assert s[i + 1..] == s[i..][1..];
  }

  /**
   * Moving along row y past position x: a masked position is the next sample,
   * and the samples after it are those of the rest of the row; an unmasked one
   * contributes nothing.
   */
  lemma {:induction false} RowStep(mask: Grid<bool>, w: nat, h: nat, step: nat, y: nat, x: nat, later: seq<(nat, nat)>,
                sites: seq<(nat, nat)>, i: nat)
    requires step >= 1 && Covers(mask, w, h) && y < h && x < w
    requires i <= |sites| && sites[i..] == RowSites(mask, w, h, step, y, x) + later
    ensures mask[x][y] ==> i < |sites| && sites[i] == (x, y)
                           && sites[i + 1..] == RowSites(mask, w, h, step, y, x + step) + later
    ensures !mask[x][y] ==> sites[i..] == RowSites(mask, w, h, step, y, x + step) + later
  {
    var rest := RowSites(mask, w, h, step, y, x + step);
    if mask[x][y] {
      RowVisit(mask, w, h, step, y, x, later);
      SuffixAdvance(sites, i, (x, y), rest + later);
    } else {
      RowSkip(mask, w, h, step, y, x);
    }
  }

  /** A masked position heads the samples of the row from it on. */
  lemma {:induction false} RowVisit(mask: Grid<bool>, w: nat, h: nat, step: nat, y: nat, x: nat,
                                    later: seq<(nat, nat)>)
    requires step >= 1 && Covers(mask, w, h) && y < h && x < w && mask[x][y]
    ensures RowSites(mask, w, h, step, y, x) + later == [(x, y)] + (RowSites(mask, w, h, step, y, x + step) + later)
  {
    var rest := RowSites(mask, w, h, step, y, x + step);
    assert RowSites(mask, w, h, step, y, x) == [(x, y)] + rest;
  }

  /** An unmasked position contributes no sample. */
  lemma {:induction false} RowSkip(mask: Grid<bool>, w: nat, h: nat, step: nat, y: nat, x: nat)
    requires step >= 1 && Covers(mask, w, h) && y < h && x < w && !mask[x][y]
    ensures RowSites(mask, w, h, step, y, x) == RowSites(mask, w, h, step, y, x + step)
  {
    var rest := RowSites(mask, w, h, step, y, x + step);
    assert RowSites(mask, w, h, step, y, x) == [] + rest;
  }

  /**
   * The first i rows of the matrix and entries of the value vector hold the
   * design row and the image value of the first i samples.
   */
  ghost predicate SystemPrefix(matrix: array2<real>, values: array<real>, image: array2<UInt8>,
                               sites: seq<(nat, nat)>, basis: seq<Monomial>, i: nat)
    reads matrix, values, image
  {
    && |sites| == matrix.Length0 == values.Length && matrix.Length1 == |basis| && i <= |sites|
    && (forall r :: 0 <= r < |sites| ==> sites[r].0 < image.Length0 && sites[r].1 < image.Length1)
    && (forall r, c :: 0 <= r < i && 0 <= c < |basis| ==>
          matrix[r, c] == DesignRow(basis, image.Length0, image.Length1, sites[r])[c])
    && (forall r :: 0 <= r < i ==> values[r] == image[sites[r].0, sites[r].1] as real)
  }

  /** Once every sample is written, the arrays hold the whole system. */
  lemma SystemComplete(matrix: array2<real>, values: array<real>, image: array2<UInt8>,
                       sites: seq<(nat, nat)>, basis: seq<Monomial>)
    requires SystemPrefix(matrix, values, image, sites, basis, |sites|)
    ensures Cells(matrix) == DesignRows(sites, basis, image.Length0, image.Length1)
    ensures values[..] == SampleValues(Cells(image), image.Length0, image.Length1, sites)
  {
    forall p | p in sites ensures p.0 < image.Length0 && p.1 < image.Length1 {
      var r :| 0 <= r < |sites| && sites[r] == p;
    }
    var rows := DesignRows(sites, basis, image.Length0, image.Length1);
    forall r | 0 <= r < |sites| ensures Cells(matrix)[r] == rows[r] {
    }
  }

  /** The samples from index i on are those still to be visited, in the order given by rest. */
  ghost predicate Pending(sites: seq<(nat, nat)>, i: nat, rest: seq<(nat, nat)>)
  {
    i <= |sites| && sites[i..] == rest
  }

  /** Every sampled position lies inside the image, stated index by index. */
  lemma SampleSitesInBounds(mask: Grid<bool>, w: nat, h: nat, step: nat)
    requires step >= 1 && Covers(mask, w, h)
    ensures var sites := SampleSites(mask, w, h, step);
            forall r :: 0 <= r < |sites| ==> sites[r].0 < w && sites[r].1 < h
  {
    var sites := SampleSites(mask, w, h, step);
    forall r | 0 <= r < |sites| ensures sites[r].0 < w && sites[r].1 < h {
      assert sites[r] in sites;
    }
  }

  /** Rows i and later of the matrix, and entries i and later of the vector, still hold their values from before. */
  twostate predicate RowsFrom(matrix: array2<real>, values: array<real>, i: nat)
    reads matrix, values
  {
    && (forall r, c :: i <= r < matrix.Length0 && 0 <= c < matrix.Length1 ==> matrix[r, c] == old(matrix[r, c]))
    && (forall r :: i <= r < values.Length ==> values[r] == old(values[r]))
  }

  class PolynomialBackground {
    var maxOrder: int
    var coeffs: array<real>
    var xPowers: array<int>
    var yPowers: array<int>
    var xMonoms: array2?<real>
    var yMonoms: array2?<real>

    /**
     * The object invariant: the three arrays have one entry per monomial, and
     * entry c of the exponent arrays is monomial c of the order's table.
     */
    ghost predicate Valid()
      reads this`maxOrder, this`coeffs, this`xPowers, this`yPowers, xPowers, yPowers
    {
      && xPowers != yPowers
      && coeffs.Length == |PowerTable(maxOrder)|
      && xPowers.Length == |PowerTable(maxOrder)|
      && yPowers.Length == |PowerTable(maxOrder)|
      && forall c :: 0 <= c < xPowers.Length ==>
           xPowers[c] == PowerTable(maxOrder)[c].degX && yPowers[c] == PowerTable(maxOrder)[c].degY
    }

    /** The monomial tables hold, for every index of each axis, the value of each monomial's power. */
    ghost predicate MonomsFor(sizeX: nat, sizeY: nat)
      reads this`maxOrder, this`coeffs, this`xMonoms, this`yMonoms, xMonoms, yMonoms
    {
      && xMonoms != null && yMonoms != null
      && coeffs.Length == |PowerTable(maxOrder)|
      && xMonoms.Length0 == sizeX && xMonoms.Length1 == coeffs.Length
      && yMonoms.Length0 == sizeY && yMonoms.Length1 == coeffs.Length
      && (forall x, c :: 0 <= x < sizeX && 0 <= c < coeffs.Length ==>
            xMonoms[x, c] == Pow(NormalizePosition(x, sizeX), PowerTable(maxOrder)[c].degX))
      && (forall y, c :: 0 <= y < sizeY && 0 <= c < coeffs.Length ==>
            yMonoms[y, c] == Pow(NormalizePosition(y, sizeY), PowerTable(maxOrder)[c].degY))
    }

    /** A fitter of the given order, with all coefficients zero. */
    constructor (maxOrder: int)
      ensures Valid() && this.maxOrder == maxOrder
      ensures coeffs.Length == GaussCount(maxOrder)
      ensures fresh(coeffs) && fresh(xPowers) && fresh(yPowers)
      ensures forall c :: 0 <= c < coeffs.Length ==> coeffs[c] == 0.0
      ensures xMonoms == null && yMonoms == null
    {
      this.maxOrder := maxOrder;
      // placeholders until the tables are built below
      coeffs, xPowers, yPowers := new real[0], new int[0], new int[0];
      xMonoms, yMonoms := null, null;
      new;
      InitXYPowers();
      PowerTableLength(maxOrder);
    }

    /** Changes the order: rebuilds the exponent tables and resets the coefficients to zero. */
    method SertMaxOrder(maxOrder: int)
      modifies this`maxOrder, this`coeffs, this`xPowers, this`yPowers
      ensures Valid() && this.maxOrder == maxOrder
      ensures coeffs.Length == GaussCount(maxOrder)
      ensures fresh(coeffs) && fresh(xPowers) && fresh(yPowers)
      ensures forall c :: 0 <= c < coeffs.Length ==> coeffs[c] == 0.0
    {
      this.maxOrder := maxOrder;
      InitXYPowers();
      PowerTableLength(maxOrder);
    }

    /**
     * Allocates the coefficient and exponent arrays for the current order and
     * fills the exponent tables: slot 0 keeps the constant term (0, 0), and the
     * slots from 1 on receive the monomials of degree 1, 2, ..., maxOrder.
     */
    method InitXYPowers()
      modifies this`coeffs, this`xPowers, this`yPowers
      ensures Valid()
      ensures fresh(coeffs) && fresh(xPowers) && fresh(yPowers)
      ensures forall c :: 0 <= c < coeffs.Length ==> coeffs[c] == 0.0
    {
      // Gauss's relation, as the fitter writes it
      var nCoeffs := GaussCount(maxOrder);
      PowerTableLength(maxOrder);
      GaussCountNonNegative(maxOrder);
      coeffs := new real[nCoeffs](_ => 0.0);
      xPowers := new int[nCoeffs](_ => 0);
      yPowers := new int[nCoeffs](_ => 0);
      FillPowers();
    }

    /** The loops of InitXYPowers: slot 0 keeps (0, 0), then degree 1, 2, ... follow from slot 1 on. */
    method FillPowers()
      requires coeffs.Length == |PowerTable(maxOrder)|
      requires xPowers != yPowers && PowersFilled(PowerTable(maxOrder), 0)
      modifies xPowers, yPowers
      ensures Valid()
    {
      ghost var table := PowerTable(maxOrder);
      if maxOrder >= 0 {
        BasisConstantTerm(maxOrder);
      }
      var c := 1;
      var order := 1;
      while order <= maxOrder
        invariant maxOrder < 0 ==> order == 1
        invariant maxOrder >= 0 ==> 1 <= order <= maxOrder + 1 && c == CountBelow(order)
        invariant PowersFilled(table, if maxOrder >= 0 then c else 0)
      {
        BasisBlock(maxOrder, order);
        c := FillDegree(table, order, c);
        order := order + 1;
      }
      if maxOrder >= 0 {
        assert c == |table|;
      } else {
        assert forall k :: 0 <= k < |table| ==> table[k] == Monomial(0, 0);
      }
      assert PowersFilled(table, |table|);
    }

    /**
     * The exponent arrays agree with the table below slot c and are still zero
     * from slot c on.
     */
    ghost predicate PowersFilled(table: seq<Monomial>, c: nat)
      reads this`xPowers, this`yPowers, xPowers, yPowers
    {
      && xPowers.Length == yPowers.Length == |table| && c <= |table|
      && (forall k :: 0 <= k < |table| ==> xPowers[k] == (if k < c then table[k].degX else 0))
      && (forall k :: 0 <= k < |table| ==> yPowers[k] == (if k < c then table[k].degY else 0))
    }

    /** The inner loop of InitXYPowers: writes the order + 1 monomials of one degree from slot c on. */
    method FillDegree(ghost table: seq<Monomial>, order: nat, c0: nat) returns (c: nat)
      requires c0 + order + 1 <= |table|
      requires forall c :: c0 <= c < c0 + order + 1 ==> table[c] == Monomial(c0 + order - c, c - c0)
      requires xPowers != yPowers && PowersFilled(table, c0)
      modifies xPowers, yPowers
      ensures c == c0 + order + 1 && PowersFilled(table, c)
    {
      c := c0;
      var n := 0;
      while n <= order
        invariant 0 <= n <= order + 1
        invariant c == c0 + n
        invariant PowersFilled(table, c)
      {
        xPowers[c] := order - n;
        yPowers[c] := n;
        c := c + 1;
        n := n + 1;
      }
    }

    /** Tabulates, for each index of each axis, the power of its normalised coordinate for every monomial. */
    method ComputeMonoms(sizeX: nat, sizeY: nat)
      requires Valid()
      modifies this`xMonoms, this`yMonoms
      ensures MonomsFor(sizeX, sizeY)
      ensures fresh(xMonoms) && fresh(yMonoms)
    {
      xMonoms := TabulatePowers(sizeX, xPowers);
      yMonoms := TabulatePowers(sizeY, yPowers);
    }

    /**
     * The second pass of a fit: visits the sampled positions again, in the same
     * order as CountSamples, and fills row i of the design matrix and entry i
     * of the value vector for the i-th of them.
     */
    method AssembleSystem(image: array2<UInt8>, mask: array2<bool>, samplingStep: nat, nValues: nat)
      returns (matrix: array2<real>, values: array<real>)
      requires Valid() && samplingStep >= 1
      requires mask.Length0 >= image.Length0 && mask.Length1 >= image.Length1
      requires MonomsFor(image.Length0, image.Length1)
      requires nValues == |SampleSites(Cells(mask), image.Length0, image.Length1, samplingStep)|
      ensures Cells(matrix) == DesignRows(SampleSites(Cells(mask), image.Length0, image.Length1, samplingStep),
                                          PowerTable(maxOrder), image.Length0, image.Length1)
      ensures values[..] == SampleValues(Cells(image), image.Length0, image.Length1,
                                         SampleSites(Cells(mask), image.Length0, image.Length1, samplingStep))
    {
      var nCoeffs := coeffs.Length;
      var sizeX, sizeY := image.Length0, image.Length1;
      ghost var g := Cells(mask);
      ghost var sites := SampleSites(g, sizeX, sizeY, samplingStep);
      ghost var basis := PowerTable(maxOrder);

      SampleSitesInBounds(g, sizeX, sizeY, samplingStep);
      matrix := new real[nValues, nCoeffs];
      values := new real[nValues];
      AssembleRows(image, mask, g, samplingStep, matrix, values, sites);
      SystemComplete(matrix, values, image, sites, basis);
    }

    /**
     * The loops of the second pass, row of samples by row of samples: every
     * sample in turn is recorded, in the order of SampleSites.
     */
    method AssembleRows(image: array2<UInt8>, mask: array2<bool>, ghost g: Grid<bool>, samplingStep: nat,
                        matrix: array2<real>, values: array<real>, ghost sites: seq<(nat, nat)>)
      requires samplingStep >= 1
      requires mask.Length0 >= image.Length0 && mask.Length1 >= image.Length1 && g == Cells(mask)
      requires MonomsFor(image.Length0, image.Length1)
      requires matrix != xMonoms && matrix != yMonoms
      requires sites == SampleSites(g, image.Length0, image.Length1, samplingStep)
      requires SystemPrefix(matrix, values, image, sites, PowerTable(maxOrder), 0)
      modifies matrix, values
      ensures SystemPrefix(matrix, values, image, sites, PowerTable(maxOrder), |sites|)
    {
      var sizeX, sizeY := image.Length0, image.Length1;
      var i := 0;
      var y := 0;
      assert sites[0..] == sites;
      assert Covers(g, sizeX, sizeY);
      ghost var basis := PowerTable(maxOrder);
      while y < sizeY
        invariant Pending(sites, i, Sites(g, sizeX, sizeY, samplingStep, y))
        invariant SystemPrefix(matrix, values, image, sites, basis, i)
      {
        i := AssembleRow(image, mask, g, samplingStep, matrix, values, sites, i, y);
        y := y + samplingStep;
      }
      assert Sites(g, sizeX, sizeY, samplingStep, y) == [];
    }

    /**
     * One row of the second pass: the samples of row y, from index i0 on, are
     * recorded; the samples of the rows after it remain.
     */
    method AssembleRow(image: array2<UInt8>, mask: array2<bool>, ghost g: Grid<bool>, samplingStep: nat,
                       matrix: array2<real>, values: array<real>,
                       ghost sites: seq<(nat, nat)>, i0: nat, y: nat)
      returns (i: nat)
      requires samplingStep >= 1 && y < image.Length1
      requires mask.Length0 >= image.Length0 && mask.Length1 >= image.Length1 && g == Cells(mask)
      requires MonomsFor(image.Length0, image.Length1)
      requires matrix != xMonoms && matrix != yMonoms
      requires SystemPrefix(matrix, values, image, sites, PowerTable(maxOrder), i0)
      requires Pending(sites, i0, Sites(g, image.Length0, image.Length1, samplingStep, y))
      modifies matrix, values
      ensures i0 <= i && Pending(sites, i, Sites(g, image.Length0, image.Length1, samplingStep, y + samplingStep))
      ensures SystemPrefix(matrix, values, image, sites, PowerTable(maxOrder), i)
      ensures RowsFrom(matrix, values, i)
    {
      var sizeX, sizeY := image.Length0, image.Length1;
      ghost var later := Sites(g, sizeX, sizeY, samplingStep, y + samplingStep);
      SitesSplit(g, sizeX, sizeY, samplingStep, y);
      i := i0;
      var x := 0;
      while x < sizeX
        invariant i0 <= i && RowProgress(image, g, samplingStep, matrix, values, sites, later, i, x, y)
        invariant RowsFrom(matrix, values, i)
      {
        i := VisitPosition(image, mask, g, samplingStep, matrix, values, sites, later, i, x, y);
        x := x + samplingStep;
      }
    }

    /**
     * The state of the second pass on reaching position (x, y) of a sampled
     * row: the tables are at the image's extents, the first i samples are
     * assembled, and the samples still pending are those of the row from
     * column x on, followed by later.
     */
    ghost predicate RowProgress(image: array2<UInt8>, g: Grid<bool>, samplingStep: nat,
                                matrix: array2<real>, values: array<real>,
                                sites: seq<(nat, nat)>, later: seq<(nat, nat)>, i: nat, x: nat, y: nat)
      reads this, xMonoms, yMonoms, matrix, values, image
    {
      && samplingStep >= 1 && y < image.Length1 && Covers(g, image.Length0, image.Length1)
      && MonomsFor(image.Length0, image.Length1)
      && matrix != xMonoms && matrix != yMonoms
      && SystemPrefix(matrix, values, image, sites, PowerTable(maxOrder), i)
      && Pending(sites, i, RowSites(g, image.Length0, image.Length1, samplingStep, y, x) + later)
    }

    /** One position of a sampled row: recorded as the next sample when the mask holds there, skipped otherwise. */
    method VisitPosition(image: array2<UInt8>, mask: array2<bool>, ghost g: Grid<bool>, samplingStep: nat,
                         matrix: array2<real>, values: array<real>,
                         ghost sites: seq<(nat, nat)>, ghost later: seq<(nat, nat)>, i0: nat, x: nat, y: nat)
      returns (i: nat)
      requires x < image.Length0
      requires mask.Length0 >= image.Length0 && mask.Length1 >= image.Length1 && g == Cells(mask)
      requires RowProgress(image, g, samplingStep, matrix, values, sites, later, i0, x, y)
      modifies matrix, values
      ensures RowProgress(image, g, samplingStep, matrix, values, sites, later, i, x + samplingStep, y)
      ensures mask[x, y] ==> i == i0 + 1
      ensures !mask[x, y] ==> i == i0 && unchanged(matrix, values)
      ensures RowsFrom(matrix, values, i)
    {
      RowStep(g, image.Length0, image.Length1, samplingStep, y, x, later, sites, i0);
      i := i0;
      if mask[x, y] {
        RecordSample(image, matrix, values, sites, i, x, y);
        i := i + 1;
      }
    }

    /**
     * Records sample i, at (x, y): row i of the matrix receives the monomial
     * values read from the tables, entry i of the vector the image value.
     */
    method RecordSample(image: array2<UInt8>, matrix: array2<real>, values: array<real>,
                        ghost sites: seq<(nat, nat)>, i: nat, x: nat, y: nat)
      requires MonomsFor(image.Length0, image.Length1)
      requires SystemPrefix(matrix, values, image, sites, PowerTable(maxOrder), i)
      requires i < |sites| && sites[i] == (x, y)
      requires matrix != xMonoms && matrix != yMonoms
      modifies matrix, values
      ensures SystemPrefix(matrix, values, image, sites, PowerTable(maxOrder), i + 1)
      ensures forall r, c :: 0 <= r < matrix.Length0 && r != i && 0 <= c < matrix.Length1 ==>
                matrix[r, c] == old(matrix[r, c])
      ensures forall r :: 0 <= r < values.Length && r != i ==> values[r] == old(values[r])
    {
      WriteRow(matrix, i, x, y, image.Length0, image.Length1);
      values[i] := image[x, y] as real;
    }

    /** Row i of the matrix receives the monomial values at (x, y), read from the tables; the other rows keep theirs. */
    method WriteRow(matrix: array2<real>, i: nat, x: nat, y: nat, sizeX: nat, sizeY: nat)
      requires MonomsFor(sizeX, sizeY) && x < sizeX && y < sizeY
      requires i < matrix.Length0 && matrix.Length1 == coeffs.Length
      requires matrix != xMonoms && matrix != yMonoms
      modifies matrix
      ensures forall r, c :: 0 <= r < matrix.Length0 && 0 <= c < matrix.Length1 ==>
                matrix[r, c] == if r == i then DesignRow(PowerTable(maxOrder), sizeX, sizeY, (x, y))[c]
                                else old(matrix[r, c])
    {
      ghost var row := DesignRow(PowerTable(maxOrder), sizeX, sizeY, (x, y));
      var c := 0;
      while c < matrix.Length1
        invariant 0 <= c <= matrix.Length1
        invariant forall r, c' :: 0 <= r < matrix.Length0 && 0 <= c' < matrix.Length1 ==>
                    matrix[r, c'] == if r == i && c' < c then row[c'] else old(matrix[r, c'])
      {
        matrix[i, c] := xMonoms[x, c] * yMonoms[y, c];
        c := c + 1;
      }
    }

    /**
     * Fits the coefficients to the image values at the sampled positions of the
     * mask. The solver's answer is copied entry by entry; the solve failing
     * (None), or an answer shorter than the basis, ends the fit with `false`
     * after the entries copied so far, as the exceptions do in the source.
     */
    method FitCoefficients(image: array2<UInt8>, mask: array2<bool>, samplingStep: nat, solve: Solver)
      returns (ok: bool)
      requires Valid() && samplingStep >= 1
      requires mask.Length0 >= image.Length0 && mask.Length1 >= image.Length1
      modifies this`xMonoms, this`yMonoms, coeffs
      ensures Valid()
      ensures MonomsFor(image.Length0, image.Length1) && fresh(xMonoms) && fresh(yMonoms)
      ensures var t := SolverAnswer(Cells(image), Cells(mask), image.Length0, image.Length1,
                                    PowerTable(maxOrder), samplingStep, solve);
              && ok == (t.Some? && |t.value| >= coeffs.Length)
              && coeffs[..] == (if t.None? then old(coeffs[..]) else Overwrite(old(coeffs[..]), t.value))
      ensures ok == FittedCoefficients(Cells(image), Cells(mask), image.Length0, image.Length1,
                                       PowerTable(maxOrder), samplingStep, solve).Some?
      ensures ok ==> coeffs[..] == FittedCoefficients(Cells(image), Cells(mask), image.Length0, image.Length1,
                                                      PowerTable(maxOrder), samplingStep, solve).value
    {
      var sizeX, sizeY := image.Length0, image.Length1;
      var nValues := CountSamples(mask, sizeX, sizeY, samplingStep);
      ComputeMonoms(sizeX, sizeY);
      var matrix, values := AssembleSystem(image, mask, samplingStep, nValues);

      var theta := solve(Cells(matrix), values[..]);
      if theta.None? {
        return false;
      }
      ok := CopyAnswer(theta.value);
    }

    /**
     * Copies the solver's answer into the coefficients, entry by entry; an
     * answer shorter than the basis stops the copy at its end, with `false`.
     */
    method CopyAnswer(theta: seq<real>) returns (ok: bool)
      modifies coeffs
      ensures ok == (|theta| >= coeffs.Length)
      ensures coeffs[..] == Overwrite(old(coeffs[..]), theta)
      ensures ok ==> coeffs[..] == theta[..coeffs.Length]
    {
      var c := 0;
      while c < coeffs.Length
        invariant 0 <= c <= coeffs.Length && c <= |theta|
        invariant coeffs[..] == Overwrite(old(coeffs[..]), theta[..c])
      {
        if c >= |theta| {
          assert theta[..c] == theta;
          return false;
        }
        coeffs[c] := theta[c];
        c := c + 1;
      }
      assert coeffs[..] == theta[..coeffs.Length];
      assert coeffs[..] == Overwrite(old(coeffs[..]), theta);
      return true;
    }

    /** The innermost loop of FillImage: the surface at pixel (x, y), summed over the monomials in index order. */
    method SurfaceAt(x: nat, y: nat, sizeX: nat, sizeY: nat) returns (value: real)
      requires Valid() && MonomsFor(sizeX, sizeY) && x < sizeX && y < sizeY
      ensures value == PolyValue(coeffs[..], PowerTable(maxOrder), NormalizePosition(x, sizeX), NormalizePosition(y, sizeY))
    {
      ghost var basis := PowerTable(maxOrder);
      ghost var xn, yn := NormalizePosition(x, sizeX), NormalizePosition(y, sizeY);
      value := 0.0;
      var c := 0;
      while c < coeffs.Length
        invariant 0 <= c <= coeffs.Length
        invariant value == PartialSum(coeffs[..], basis, xn, yn, c)
      {
        PartialSumStep(coeffs[..], basis, xn, yn, c, xMonoms[x, c], yMonoms[y, c]);
        value := value + coeffs[c] * xMonoms[x, c] * yMonoms[y, c];
        c := c + 1;
      }
    }

    /**
     * Writes into every pixel of the given image the value of the polynomial
     * surface at its normalised coordinates; the coefficients are not changed.
     */
    method FillImage(image: array2<real>)
      requires Valid()
      modifies this`xMonoms, this`yMonoms, image
      ensures MonomsFor(image.Length0, image.Length1) && fresh(xMonoms) && fresh(yMonoms)
      ensures coeffs[..] == old(coeffs[..])
      ensures Cells(image) == BackgroundGrid(coeffs[..], PowerTable(maxOrder), image.Length0, image.Length1)
    {
      var sizeX, sizeY := image.Length0, image.Length1;
      ComputeMonoms(sizeX, sizeY);
      ghost var bg := BackgroundGrid(coeffs[..], PowerTable(maxOrder), sizeX, sizeY);
      var y := 0;
      while y < sizeY
        modifies image
        invariant 0 <= y <= sizeY
        invariant forall x, y' :: 0 <= x < sizeX && 0 <= y' < y ==> image[x, y'] == bg[x][y']
      {
        FillRow(image, y);
        y := y + 1;
      }
      assert Cells(image) == bg by {
        forall x | 0 <= x < sizeX ensures Cells(image)[x] == bg[x] {
        }
      }
    }

    /** Writes row y of the image: the surface at each pixel of the row; the other rows are left alone. */
    method FillRow(image: array2<real>, y: nat)
      requires Valid() && MonomsFor(image.Length0, image.Length1) && y < image.Length1
      requires image != xMonoms && image != yMonoms
      modifies image
      ensures forall x, y' :: 0 <= x < image.Length0 && 0 <= y' < image.Length1 ==>
                image[x, y'] == if y' == y then BackgroundGrid(coeffs[..], PowerTable(maxOrder), image.Length0, image.Length1)[x][y]
                                else old(image[x, y'])
    {
      ghost var bg := BackgroundGrid(coeffs[..], PowerTable(maxOrder), image.Length0, image.Length1);
      var x := 0;
      while x < image.Length0
        invariant 0 <= x <= image.Length0
        invariant forall x', y' :: 0 <= x' < image.Length0 && 0 <= y' < image.Length1 ==>
                    image[x', y'] == if y' == y && x' < x then bg[x'][y] else old(image[x', y'])
      {
        var value := SurfaceAt(x, y, image.Length0, image.Length1);
        image[x, y] := value;
        x := x + 1;
      }
    }

    /**
     * Fits the coefficients, then evaluates the surface over a new array of the
     * image's size; None when the fit fails.
     */
    method FitBackground(image: array2<UInt8>, mask: array2<bool>, samplingStep: nat, solve: Solver)
      returns (result: Option<array2<real>>)
      requires Valid() && samplingStep >= 1
      requires mask.Length0 >= image.Length0 && mask.Length1 >= image.Length1
      modifies this`xMonoms, this`yMonoms, coeffs
      ensures Valid()
      ensures result.Some? == FittedCoefficients(Cells(image), Cells(mask), image.Length0, image.Length1,
                                                 PowerTable(maxOrder), samplingStep, solve).Some?
      ensures MonomsFor(image.Length0, image.Length1) && fresh(xMonoms) && fresh(yMonoms)
      ensures var t := SolverAnswer(Cells(image), Cells(mask), image.Length0, image.Length1,
                                    PowerTable(maxOrder), samplingStep, solve);
              coeffs[..] == (if t.None? then old(coeffs[..]) else Overwrite(old(coeffs[..]), t.value))
      ensures result.Some? ==>
                && fresh(result.value)
                && result.value.Length0 == image.Length0 && result.value.Length1 == image.Length1
                && Some(Cells(result.value)) == FittedBackground(Cells(image), Cells(mask), image.Length0,
                                                                  image.Length1, maxOrder, samplingStep, solve)
      ensures result.Some? ==> coeffs[..] == FittedCoefficients(Cells(image), Cells(mask), image.Length0,
                                                                 image.Length1, PowerTable(maxOrder),
                                                                 samplingStep, solve).value
    {
      var ok := FitCoefficients(image, mask, samplingStep, solve);
      if !ok {
        return None;
      }
      var background := new real[image.Length0, image.Length1];
      FillImage(background);
      return Some(background);
    }
  }
}
