/** The average plaquette and the Wilson gauge action (modules/obs/plaquette.c).

    The plaquettes are visited as the C loops visit them: site by site, and at
    each site every direction pair (mu, nu) with mu < nu.  A sum over the
    plaquettes is written as the three running sums of those loops
    (`RowSum`, `SiteSum`, `LatticeSum`), taken over real numbers in the same
    order as the C accumulation; the lemmas show that this order meets every
    plaquette of the lattice exactly once and nothing else. */
module Plaquette {

  import opened CArith
  import opened Geometry
  import opened LinkAlgebra
  import opened Init

  /** The plaquette at `site` in the plane (mu, nu). */
  datatype Plaq = Plaq(site: int, mu: int, nu: int)

  /** A plaquette of the lattice: a site of it and two directions mu < nu. */
  predicate IsPlaq(ext: seq<int>, p: Plaq)
    requires ValidExtents(ext)
  {
    0 <= p.site < Volume(ext) && 0 <= p.mu < p.nu < |ext|
  }

  // ---------------------------------------------------------------------------
  // The running sums of the three loops

  /** The innermost loop's sum: the plaquettes (site, mu, kk), mu < kk < kEnd. */
  function RowSum(f: Plaq -> real, site: int, mu: int, kEnd: int): real
    decreases kEnd - mu
  {
    if kEnd <= mu + 1 then 0.0 else RowSum(f, site, mu, kEnd - 1) + f(Plaq(site, mu, kEnd - 1))
  }

  /** The middle loop's sum: the rows mu = 0 .. jEnd-1 at one site. */
  function SiteSum(f: Plaq -> real, site: int, jEnd: int, dim: int): real
    decreases jEnd
  {
    if jEnd <= 0 then 0.0 else SiteSum(f, site, jEnd - 1, dim) + RowSum(f, site, jEnd - 1, dim)
  }

  /** The outer loop's sum: the sites 0 .. iEnd-1, each with mu < DIM-1. */
  function LatticeSum(f: Plaq -> real, iEnd: int, dim: int): real
    decreases iEnd
  {
    if iEnd <= 0 then 0.0 else LatticeSum(f, iEnd - 1, dim) + SiteSum(f, iEnd - 1, dim - 1, dim)
  }

  /** One more pass of each loop adds one more term to its sum. */
  lemma RowStep(f: Plaq -> real, site: int, mu: int, kk: int)
    requires kk >= mu + 1
    ensures RowSum(f, site, mu, kk + 1) == RowSum(f, site, mu, kk) + f(Plaq(site, mu, kk))
  {
  }

  lemma SiteStep(f: Plaq -> real, site: int, jj: int, dim: int)
    requires jj >= 0
    ensures SiteSum(f, site, jj + 1, dim) == SiteSum(f, site, jj, dim) + RowSum(f, site, jj, dim)
  {
  }

  lemma LatticeStep(f: Plaq -> real, ii: int, dim: int)
    requires ii >= 0
    ensures LatticeSum(f, ii + 1, dim) == LatticeSum(f, ii, dim) + SiteSum(f, ii, dim - 1, dim)
  {
  }

  // ---------------------------------------------------------------------------
  // Every plaquette exactly once

  /** 1 at the plaquette q and 0 elsewhere: its sum counts the visits to q. */
  function Indicator(q: Plaq): Plaq -> real
  {
    p => if p == q then 1.0 else 0.0
  }

  /** The innermost loop visits (site, mu, kk) once for each mu < kk < kEnd. */
  lemma {:induction false} RowOnce(q: Plaq, site: int, mu: int, kEnd: int)
    ensures RowSum(Indicator(q), site, mu, kEnd)
         == if q.site == site && q.mu == mu && mu < q.nu < kEnd then 1.0 else 0.0
    decreases kEnd - mu
  {
    if kEnd > mu + 1 {
      RowOnce(q, site, mu, kEnd - 1);
    }
  }

  /** The middle loop visits (site, mu, nu) once for each mu < jEnd, mu < nu < dim. */
  lemma {:induction false} SiteOnce(q: Plaq, site: int, jEnd: int, dim: int)
    requires jEnd >= 0
    ensures SiteSum(Indicator(q), site, jEnd, dim)
         == if q.site == site && 0 <= q.mu < jEnd && q.mu < q.nu < dim then 1.0 else 0.0
    decreases jEnd
  {
    if jEnd > 0 {
      SiteOnce(q, site, jEnd - 1, dim);
      RowOnce(q, site, jEnd - 1, dim);
    }
  }

  /** The outer loop visits every pair mu < nu < dim at every site below iEnd
      once. */
  lemma {:induction false} LatticeOnce(q: Plaq, iEnd: int, dim: int)
    requires iEnd >= 0 && dim >= 1
    ensures LatticeSum(Indicator(q), iEnd, dim)
         == if 0 <= q.site < iEnd && 0 <= q.mu < q.nu < dim then 1.0 else 0.0
    decreases iEnd
  {
    if iEnd > 0 {
      LatticeOnce(q, iEnd - 1, dim);
      SiteOnce(q, iEnd - 1, dim - 1, dim);
    }
  }

  /** plaquette() visits every plaquette of the lattice exactly once and
      nothing else. */
  lemma PlaquettesExactlyOnce(ext: seq<int>, q: Plaq)
    requires ValidExtents(ext)
    ensures LatticeSum(Indicator(q), Volume(ext), |ext|) == if IsPlaq(ext, q) then 1.0 else 0.0
  {
    ProdFromPositive(ext, 0);
    LatticeOnce(q, Volume(ext), |ext|);
  }

  // ---------------------------------------------------------------------------
  // Counting the terms

  /** The number of passes of each loop, as the real numbers the sums are
      taken in. */
  function RowCount(mu: int, kEnd: int): real
  {
    if kEnd <= mu + 1 then 0.0 else (kEnd - mu - 1) as real
  }

  function SiteCount(jEnd: int, dim: int): real
    decreases jEnd
  {
    if jEnd <= 0 then 0.0 else SiteCount(jEnd - 1, dim) + RowCount(jEnd - 1, dim)
  }

  function LatticeCount(iEnd: int, dim: int): real
    decreases iEnd
  {
    if iEnd <= 0 then 0.0 else LatticeCount(iEnd - 1, dim) + SiteCount(dim - 1, dim)
  }

  /** At one site the pairs jj < kk < dim with jj < jEnd number
      jEnd*(2*dim-jEnd-1)/2. */
  lemma {:induction false} SiteCountFormula(jEnd: int, dim: int)
    requires 0 <= jEnd <= dim
    ensures 2.0 * SiteCount(jEnd, dim) == (jEnd * (2 * dim - jEnd - 1)) as real
    decreases jEnd
  {
    if jEnd > 0 {
      SiteCountFormula(jEnd - 1, dim);
      assert jEnd * (2 * dim - jEnd - 1) == (jEnd - 1) * (2 * dim - (jEnd - 1) - 1) + 2 * (dim - jEnd);
    }
  }

  lemma {:induction false} NPlaqHalf(dim: nat)
    ensures 2 * NPlaq(dim) == dim * (dim - 1)
  {
    if dim > 0 {
      NPlaqHalf(dim - 1);
      assert (dim - 1) * (dim - 2) + 2 * (dim - 1) == dim * (dim - 1);
    }
  }

  /** NPlaq is the macro NPLAQ = DIM*(DIM-1)/2. */
  lemma NPlaqMacro(dim: nat)
    ensures NPlaq(dim) == dim * (dim - 1) / 2
  {
    NPlaqHalf(dim);
    DivModUnique(dim * (dim - 1), 2, NPlaq(dim), 0);
  }

  /** The two inner loops make NPLAQ passes at every site ... */
  lemma SitePairs(dim: int)
    requires dim >= 1
    ensures SiteCount(dim - 1, dim) == NPlaq(dim) as real
  {
    SiteCountFormula(dim - 1, dim);
    NPlaqHalf(dim);
  }

  /** ... and the outer loop iEnd*NPLAQ in all. */
  lemma {:induction false} LatticeCountFormula(iEnd: int, dim: int)
    requires iEnd >= 0 && dim >= 1
    ensures LatticeCount(iEnd, dim) == (NPlaq(dim) * iEnd) as real
    decreases iEnd
  {
    if iEnd > 0 {
      LatticeCountFormula(iEnd - 1, dim);
      SitePairs(dim);
      assert NPlaq(dim) * (iEnd - 1) + NPlaq(dim) == NPlaq(dim) * iEnd;
    }
  }

  // ---------------------------------------------------------------------------
  // Sums of terms that are an affine function of other terms

  /** The terms a + b*f(p). */
  function Affine(f: Plaq -> real, a: real, b: real): Plaq -> real
  {
    p => a + b * f(p)
  }

  /** Summing a + b*f over a loop gives a times its passes plus b times the
      sum of f. */
  lemma {:induction false} RowAffine(f: Plaq -> real, a: real, b: real, site: int, mu: int, kEnd: int)
    ensures RowSum(Affine(f, a, b), site, mu, kEnd) == a * RowCount(mu, kEnd) + b * RowSum(f, site, mu, kEnd)
    decreases kEnd - mu
  {
    if kEnd > mu + 1 {
      RowAffine(f, a, b, site, mu, kEnd - 1);
      AffineAdd(a, b, RowCount(mu, kEnd - 1), RowSum(f, site, mu, kEnd - 1), 1.0, f(Plaq(site, mu, kEnd - 1)),
                RowCount(mu, kEnd), RowSum(f, site, mu, kEnd));
    }
  }

  lemma {:induction false} SiteAffine(f: Plaq -> real, a: real, b: real, site: int, jEnd: int, dim: int)
    ensures SiteSum(Affine(f, a, b), site, jEnd, dim) == a * SiteCount(jEnd, dim) + b * SiteSum(f, site, jEnd, dim)
    decreases jEnd
  {
    if jEnd > 0 {
      SiteAffine(f, a, b, site, jEnd - 1, dim);
      RowAffine(f, a, b, site, jEnd - 1, dim);
      AffineAdd(a, b, SiteCount(jEnd - 1, dim), SiteSum(f, site, jEnd - 1, dim),
                RowCount(jEnd - 1, dim), RowSum(f, site, jEnd - 1, dim),
                SiteCount(jEnd, dim), SiteSum(f, site, jEnd, dim));
    }
  }

  lemma {:induction false} LatticeAffine(f: Plaq -> real, a: real, b: real, iEnd: int, dim: int)
    ensures LatticeSum(Affine(f, a, b), iEnd, dim) == a * LatticeCount(iEnd, dim) + b * LatticeSum(f, iEnd, dim)
    decreases iEnd
  {
    if iEnd > 0 {
      LatticeAffine(f, a, b, iEnd - 1, dim);
      SiteAffine(f, a, b, iEnd - 1, dim - 1, dim);
      AffineAdd(a, b, LatticeCount(iEnd - 1, dim), LatticeSum(f, iEnd - 1, dim),
                SiteCount(dim - 1, dim), SiteSum(f, iEnd - 1, dim - 1, dim),
                LatticeCount(iEnd, dim), LatticeSum(f, iEnd, dim));
    }
  }

  /** Terms that agree on the plaquettes a loop visits have the same sum. */
  lemma {:induction false} RowSame(f: Plaq -> real, h: Plaq -> real, site: int, mu: int, kEnd: int)
    requires forall p: Plaq :: p.site == site && p.mu == mu && mu < p.nu < kEnd ==> h(p) == f(p)
    ensures RowSum(h, site, mu, kEnd) == RowSum(f, site, mu, kEnd)
    decreases kEnd - mu
  {
    if kEnd > mu + 1 {
      RowSame(f, h, site, mu, kEnd - 1);
    }
  }

  lemma {:induction false} SiteSame(f: Plaq -> real, h: Plaq -> real, site: int, jEnd: int, dim: int)
    requires forall p: Plaq :: p.site == site && 0 <= p.mu < jEnd && p.mu < p.nu < dim ==> h(p) == f(p)
    ensures SiteSum(h, site, jEnd, dim) == SiteSum(f, site, jEnd, dim)
    decreases jEnd
  {
    if jEnd > 0 {
      SiteSame(f, h, site, jEnd - 1, dim);
      RowSame(f, h, site, jEnd - 1, dim);
    }
  }

  lemma {:induction false} LatticeSame(f: Plaq -> real, h: Plaq -> real, iEnd: int, dim: int)
    requires forall p: Plaq :: 0 <= p.site < iEnd && 0 <= p.mu < p.nu < dim ==> h(p) == f(p)
    ensures LatticeSum(h, iEnd, dim) == LatticeSum(f, iEnd, dim)
    decreases iEnd
  {
    if iEnd > 0 {
      LatticeSame(f, h, iEnd - 1, dim);
      SiteSame(f, h, iEnd - 1, dim - 1, dim);
    }
  }

  /** Terms that agree on every plaquette of the lattice have the same sum. */
  lemma PlaquetteSame(ext: seq<int>, f: Plaq -> real, h: Plaq -> real)
    requires ValidExtents(ext)
    requires forall p: Plaq :: IsPlaq(ext, p) ==> h(p) == f(p)
    ensures LatticeSum(h, Volume(ext), |ext|) == LatticeSum(f, Volume(ext), |ext|)
  {
    LatticeSame(f, h, Volume(ext), |ext|);
  }

  /** 1 at every plaquette: its sum counts the terms. */
  function Ones(): Plaq -> real
  {
    p => 1.0
  }

  /** The loops of plaquette() add NPLAQ*VOL terms, NPLAQ = DIM*(DIM-1)/2. */
  lemma PlaquetteCount(ext: seq<int>)
    requires ValidExtents(ext)
    ensures LatticeSum(Ones(), Volume(ext), |ext|) == LatticeCount(Volume(ext), |ext|)
    ensures LatticeCount(Volume(ext), |ext|) == (NPlaq(|ext|) * Volume(ext)) as real
    ensures NPlaq(|ext|) == |ext| * (|ext| - 1) / 2
  {
    ProdFromPositive(ext, 0);
    PlaquetteSame(ext, Affine(Ones(), 1.0, 0.0), Ones());
    LatticeAffine(Ones(), 1.0, 0.0, Volume(ext), |ext|);
    LatticeCountFormula(Volume(ext), |ext|);
    NPlaqMacro(|ext|);
  }

  /** Terms that equal c on every plaquette sum to c times their number. */
  lemma PlaquetteConstant(ext: seq<int>, f: Plaq -> real, c: real)
    requires ValidExtents(ext)
    requires forall p: Plaq :: IsPlaq(ext, p) ==> f(p) == c
    ensures LatticeSum(f, Volume(ext), |ext|) == c * LatticeCount(Volume(ext), |ext|)
  {
    LatticeConstantOn(f, c, Volume(ext), |ext|);
  }

  lemma LatticeConstantOn(f: Plaq -> real, c: real, iEnd: int, dim: int)
    requires forall p: Plaq :: 0 <= p.site < iEnd && 0 <= p.mu < p.nu < dim ==> f(p) == c
    ensures LatticeSum(f, iEnd, dim) == c * LatticeCount(iEnd, dim)
  {
    LatticeSame(Const(c), f, iEnd, dim);
    LatticeConstant(c, iEnd, dim);
  }

  /** c at every plaquette. */
  function Const(c: real): Plaq -> real
  {
    p => c
  }

  /** Summing the constant c over a loop gives c times its passes. */
  lemma {:induction false} RowConstant(c: real, site: int, mu: int, kEnd: int)
    ensures RowSum(Const(c), site, mu, kEnd) == c * RowCount(mu, kEnd)
    decreases kEnd - mu
  {
    if kEnd > mu + 1 {
      RowConstant(c, site, mu, kEnd - 1);
      ScaleAdd(c, RowCount(mu, kEnd - 1), 1.0, RowCount(mu, kEnd),
               RowSum(Const(c), site, mu, kEnd - 1), Const(c)(Plaq(site, mu, kEnd - 1)));
    }
  }

  lemma {:induction false} SiteConstant(c: real, site: int, jEnd: int, dim: int)
    ensures SiteSum(Const(c), site, jEnd, dim) == c * SiteCount(jEnd, dim)
    decreases jEnd
  {
    if jEnd > 0 {
      SiteConstant(c, site, jEnd - 1, dim);
      RowConstant(c, site, jEnd - 1, dim);
      ScaleAdd(c, SiteCount(jEnd - 1, dim), RowCount(jEnd - 1, dim), SiteCount(jEnd, dim),
               SiteSum(Const(c), site, jEnd - 1, dim), RowSum(Const(c), site, jEnd - 1, dim));
    }
  }

  lemma {:induction false} LatticeConstant(c: real, iEnd: int, dim: int)
    ensures LatticeSum(Const(c), iEnd, dim) == c * LatticeCount(iEnd, dim)
    decreases iEnd
  {
    if iEnd > 0 {
      LatticeConstant(c, iEnd - 1, dim);
      SiteConstant(c, iEnd - 1, dim - 1, dim);
      ScaleAdd(c, LatticeCount(iEnd - 1, dim), SiteCount(dim - 1, dim), LatticeCount(iEnd, dim),
               LatticeSum(Const(c), iEnd - 1, dim), SiteSum(Const(c), iEnd - 1, dim - 1, dim));
    }
  }

  // ---------------------------------------------------------------------------
  // The plaquette terms

  /** The table initArrayOfNeighbours fills, as a function of site and
      signed direction (k < DIM forward, k >= DIM backward). */
  function NeighbourTable(ext: seq<int>): (int, int) -> int
    requires ValidExtents(ext)
  {
    (i, k) => if 0 <= i < Volume(ext) && 0 <= k < 2 * |ext| then Neighbour(ext, i, k) else 0
  }

  /** The real trace of U_mu(x) U_nu(x+mu) U_mu(x+nu)^dagger U_nu(x)^dagger,
      the product formed left to right as the code forms it, with x+mu and
      x+nu read from the neighbour table as nb(x, mu) and nb(x, nu), and the
      links read from the field U(site, dir). */
  function Term<M>(g: Algebra<M>, nb: (int, int) -> int, U: (int, int) -> M, p: Plaq): real
  {
    var xmu := nb(p.site, p.mu);
    var xnu := nb(p.site, p.nu);
    g.trace(g.mul(g.mul(g.mul(U(p.site, p.mu), U(xmu, p.nu)), g.dag(U(xnu, p.mu))), g.dag(U(p.site, p.nu))))
  }

  /** The plaquette terms of one field. */
  function Terms<M>(g: Algebra<M>, nb: (int, int) -> int, U: (int, int) -> M): Plaq -> real
  {
    p => Term(g, nb, U, p)
  }

  // ---------------------------------------------------------------------------
  // The plaquette and the action of a field

  /** The sum of f over every plaquette of the lattice, in the code's order. */
  function PlaquetteSum(f: Plaq -> real, ext: seq<int>): real
    requires ValidExtents(ext)
  {
    LatticeSum(f, Volume(ext), |ext|)
  }

  /** The number of terms plaquette() adds. */
  function TermCount(ext: seq<int>): real
    requires ValidExtents(ext)
  {
    LatticeCount(Volume(ext), |ext|)
  }

  /** NPLAQ*VOL */
  function NPlaqVol(ext: seq<int>): int
  {
    NPlaq(|ext|) * Volume(ext)
  }

  /** SUN*NPLAQ*VOL */
  function Normalisation(n: nat, ext: seq<int>): real
    requires ValidExtents(ext)
  {
    (n * NPlaq(|ext|) * Volume(ext)) as real
  }

  /** plaquette() adds NPLAQ*VOL terms. */
  lemma TermCountFormula(ext: seq<int>)
    requires ValidExtents(ext)
    ensures TermCount(ext) == NPlaqVol(ext) as real
  {
    ProdFromPositive(ext, 0);
    LatticeCountFormula(Volume(ext), |ext|);
    assert TermCount(ext) == LatticeCount(Volume(ext), |ext|);
  }

  /** The normalisation is SUN times the number of plaquette terms, and
      positive. */
  lemma NormalisationCountsTerms(n: nat, ext: seq<int>)
    requires ValidExtents(ext) && n >= 1
    ensures Normalisation(n, ext) == (n as real) * TermCount(ext)
    ensures TermCount(ext) >= 1.0
    ensures Normalisation(n, ext) > 0.0
  {
    ProdFromPositive(ext, 0);
    var c := NPlaq(|ext|) * Volume(ext);
    assert NPlaq(|ext|) >= 1;
    MulPositive(NPlaq(|ext|), Volume(ext));
    MulPositive(n, c);
    assert n * NPlaq(|ext|) * Volume(ext) == n * c;
    CastProduct(n, c);
    TermCountFormula(ext);
    MulEq(n as real, TermCount(ext), c as real);
  }

  /** The plaquette sum is linear: a + b*f(p) summed over the lattice is
      a times the number of plaquettes plus b times the sum of f. */
  lemma PlaquetteAffine(ext: seq<int>, f: Plaq -> real, a: real, b: real)
    requires ValidExtents(ext)
    ensures PlaquetteSum(Affine(f, a, b), ext) == a * TermCount(ext) + b * PlaquetteSum(f, ext)
  {
    LatticeAffineAt(ext, f, a, b);
    SumsAtExtents(ext, Affine(f, a, b), f, a, b);
  }

  lemma LatticeAffineAt(ext: seq<int>, f: Plaq -> real, a: real, b: real)
    requires ValidExtents(ext)
    ensures LatticeSum(Affine(f, a, b), Volume(ext), |ext|)
         == a * LatticeCount(Volume(ext), |ext|) + b * LatticeSum(f, Volume(ext), |ext|)
  {
    LatticeAffine(f, a, b, Volume(ext), |ext|);
  }

  /** A relation between the lattice sums is one between the plaquette sums. */
  lemma SumsAtExtents(ext: seq<int>, h: Plaq -> real, f: Plaq -> real, a: real, b: real)
    requires ValidExtents(ext)
    requires LatticeSum(h, Volume(ext), |ext|) == a * LatticeCount(Volume(ext), |ext|) + b * LatticeSum(f, Volume(ext), |ext|)
    ensures PlaquetteSum(h, ext) == a * TermCount(ext) + b * PlaquetteSum(f, ext)
  {
    assert PlaquetteSum(h, ext) == LatticeSum(h, Volume(ext), |ext|);
    assert PlaquetteSum(f, ext) == LatticeSum(f, Volume(ext), |ext|);
    assert TermCount(ext) == LatticeCount(Volume(ext), |ext|);
  }

  /** The average plaquette of a field: the sum of its plaquette terms over
      SUN*NPLAQ*VOL. */
  function PlaquetteValue<M>(g: Algebra<M>, ext: seq<int>, nb: (int, int) -> int, U: (int, int) -> M): real
    requires ValidExtents(ext) && g.n >= 1
  {
    NormalisationCountsTerms(g.n, ext);
    PlaquetteSum(Terms(g, nb, U), ext) / Normalisation(g.n, ext)
  }

  /** The Wilson action's term of a plaquette whose trace is t(p), with
      m = SUN: beta*(1 - t(p)/m), written as beta + (-beta/m)*t(p) (the
      lemma WilsonTerm). */
  function WilsonTerms(t: Plaq -> real, beta: real, m: real): Plaq -> real
    requires m > 0.0
  {
    Affine(t, beta, -beta / m)
  }

  lemma WilsonTerm(t: Plaq -> real, beta: real, m: real, p: Plaq)
    requires m > 0.0
    ensures WilsonTerms(t, beta, m)(p) == beta * (1.0 - t(p) / m)
  {
    assert (-beta / m) * t(p) == -(beta * (t(p) / m));
  }

  /** The Wilson action of a field, summed plaquette by plaquette. */
  function WilsonAction<M>(g: Algebra<M>, ext: seq<int>, nb: (int, int) -> int, U: (int, int) -> M, beta: real): real
    requires ValidExtents(ext) && g.n >= 1
  {
    PlaquetteSum(WilsonTerms(Terms(g, nb, U), beta, g.n as real), ext)
  }

  /** gaugeAction's formula: beta*NPLAQ*VOL*(1 - plaq) for count = NPLAQ*VOL. */
  function ActionFromPlaquette(beta: real, count: int, plaq: real): real
  {
    beta * (count as real) * (1.0 - plaq)
  }

  /** beta*k*(1 - s/(m*k)) is beta*k - beta*s/m: the action from the average
      is the action summed term by term. */
  lemma ActionOfAverage(beta: real, count: int, c: real, s: real, m: real, b: real, norm: real, action: real)
    requires c == count as real && c > 0.0 && m > 0.0 && b * m == -beta && norm == m * c
    requires action == beta * c + b * s
    ensures ActionFromPlaquette(beta, count, s / norm) == action
  {
    assert c * (s / (m * c)) == s / m;
    assert b == -beta / m;
  }

  /** The same, for the plaquette sums of traces t and terms h. */
  lemma ActionOfSums(ext: seq<int>, t: Plaq -> real, h: Plaq -> real, beta: real, n: nat, b: real)
    requires ValidExtents(ext) && n >= 1 && b * (n as real) == -beta
    requires PlaquetteSum(h, ext) == beta * TermCount(ext) + b * PlaquetteSum(t, ext)
    ensures Normalisation(n, ext) > 0.0
    ensures ActionFromPlaquette(beta, NPlaqVol(ext), PlaquetteSum(t, ext) / Normalisation(n, ext)) == PlaquetteSum(h, ext)
  {
    ActionOfTotals(ext, beta, n, b, PlaquetteSum(t, ext), PlaquetteSum(h, ext));
  }

  lemma ActionOfTotals(ext: seq<int>, beta: real, n: nat, b: real, s: real, action: real)
    requires ValidExtents(ext) && n >= 1 && b * (n as real) == -beta
    requires action == beta * TermCount(ext) + b * s
    ensures Normalisation(n, ext) > 0.0
    ensures ActionFromPlaquette(beta, NPlaqVol(ext), s / Normalisation(n, ext)) == action
  {
    TermCountFormula(ext);
    NormalisationCountsTerms(n, ext);
    ActionOfAverage(beta, NPlaqVol(ext), TermCount(ext), s, n as real, b, Normalisation(n, ext), action);
  }

  /** gaugeAction's formula applied to the average of the traces t is the
      sum of the Wilson terms. */
  lemma AverageAction(ext: seq<int>, t: Plaq -> real, beta: real, n: nat)
    requires ValidExtents(ext) && n >= 1
    ensures Normalisation(n, ext) > 0.0
    ensures ActionFromPlaquette(beta, NPlaqVol(ext), PlaquetteSum(t, ext) / Normalisation(n, ext))
         == PlaquetteSum(WilsonTerms(t, beta, n as real), ext)
  {
    PlaquetteAffine(ext, t, beta, -beta / (n as real));
    NegQuotient(beta, n as real);
    ActionOfSums(ext, t, Affine(t, beta, -beta / (n as real)), beta, n, -beta / (n as real));
  }

  /** gaugeAction's formula applied to the plaquette is the Wilson action. */
  lemma GaugeActionIsWilsonAction<M>(g: Algebra<M>, ext: seq<int>, nb: (int, int) -> int, U: (int, int) -> M, beta: real)
    requires ValidExtents(ext) && g.n >= 1
    ensures ActionFromPlaquette(beta, NPlaqVol(ext), PlaquetteValue(g, ext, nb, U))
         == WilsonAction(g, ext, nb, U, beta)
  {
    AverageAction(ext, Terms(g, nb, U), beta, g.n);
  }

  // ---------------------------------------------------------------------------
  // plaquette() and gaugeAction()

  /** The lattice and the field plaquette() works on: a filled neighbour
      table and a field allocated for the same lattice. */
  ghost predicate Ready<M(0)>(lat: Lattice, u: GaugeField<M>)
    reads lat, lat.neib, u, u.pu
  {
    lat.TableFilled() && u.Valid() && u.vol == Volume(lat.ext) && u.dim == |lat.ext|
  }

  /** plaquette(): the sum of the traces of all plaquettes, divided by
      SUN*NPLAQ*VOL.  The field and the table are only read. */
  method ComputePlaquette<M(0)>(g: Algebra<M>, lat: Lattice, u: GaugeField<M>) returns (plaq: real)
    requires Ready(lat, u) && g.n >= 1
    ensures ValidExtents(lat.ext)
    ensures plaq == PlaquetteValue(g, lat.ext, NeighbourTable(lat.ext), FieldLinks(g, |lat.ext|, u.Links()))
  {
    plaq := SumPlaquettes(g, lat, u);
    NormalisationCountsTerms(g.n, lat.ext);
    plaq := plaq / Normalisation(g.n, lat.ext);
  }

  /** The three loops of plaquette(), accumulating the traces in `plaq`. */
  method SumPlaquettes<M(0)>(g: Algebra<M>, lat: Lattice, u: GaugeField<M>) returns (plaq: real)
    requires Ready(lat, u)
    ensures ValidExtents(lat.ext)
    ensures plaq == PlaquetteSum(Terms(g, NeighbourTable(lat.ext), FieldLinks(g, |lat.ext|, u.Links())), lat.ext)
  {
    plaq := SumSites(g, lat, u, u.Links(), Terms(g, NeighbourTable(lat.ext), FieldLinks(g, |lat.ext|, u.Links())));
  }

  /** The outer loop of plaquette(): the sites ii = 0 .. VOL-1, adding the
      terms f of the plaquettes at each. */
  method SumSites<M(0)>(g: Algebra<M>, lat: Lattice, u: GaugeField<M>, ghost links: seq<M>, ghost f: Plaq -> real)
    returns (plaq: real)
    requires Ready(lat, u) && u.Links() == links
    requires ValidExtents(lat.ext) && TermTable(f, g, NeighbourTable(lat.ext), FieldLinks(g, |lat.ext|, links))
    ensures plaq == LatticeSum(f, u.vol, u.dim)
  {
    plaq := 0.0;
    var ii := 0;
    while ii < u.vol
      invariant 0 <= ii <= u.vol
      invariant plaq == LatticeSum(f, ii, u.dim)
    {
      plaq := AddSite(g, lat, u, links, f, ii, plaq);
      LatticeStep(f, ii, u.dim);
      ii := ii + 1;
    }
  }

  /** The two inner loops of plaquette() at site ii add the terms of the
      plaquettes at ii to `plaq`. */
  method AddSite<M(0)>(g: Algebra<M>, lat: Lattice, u: GaugeField<M>, ghost links: seq<M>, ghost f: Plaq -> real,
                       ii: int, plaq: real)
    returns (plaq': real)
    requires Ready(lat, u) && 0 <= ii < u.vol && u.Links() == links
    requires ValidExtents(lat.ext) && TermTable(f, g, NeighbourTable(lat.ext), FieldLinks(g, |lat.ext|, links))
    ensures plaq' == plaq + SiteSum(f, ii, u.dim - 1, u.dim)
  {
    plaq' := plaq;
    var jj := 0;
    while jj < u.dim - 1
      invariant 0 <= jj <= u.dim - 1
      invariant plaq' == plaq + SiteSum(f, ii, jj, u.dim)
    {
      plaq' := AddRow(g, lat, u, links, f, ii, jj, plaq');
      SiteStep(f, ii, jj, u.dim);
      jj := jj + 1;
    }
  }

  /** f holds the term of every plaquette; stated on the Term term, so that
      sums over f stay folded. */
  ghost predicate TermTable<M>(f: Plaq -> real, g: Algebra<M>, nb: (int, int) -> int, U: (int, int) -> M)
  {
    forall p {:trigger Term(g, nb, U, p)} :: f(p) == Term(g, nb, U, p)
  }

  /** The innermost loop of plaquette(): kk = jj+1 .. DIM-1 at site ii adds
      the terms f of the plaquettes (ii, jj, kk). */
  method AddRow<M(0)>(g: Algebra<M>, lat: Lattice, u: GaugeField<M>, ghost links: seq<M>, ghost f: Plaq -> real,
                      ii: int, jj: int, plaq: real)
    returns (plaq': real)
    requires Ready(lat, u) && 0 <= ii < u.vol && 0 <= jj < u.dim && u.Links() == links
    requires ValidExtents(lat.ext) && TermTable(f, g, NeighbourTable(lat.ext), FieldLinks(g, |lat.ext|, links))
    ensures plaq' == plaq + RowSum(f, ii, jj, u.dim)
  {
    plaq' := plaq;
    var kk := jj + 1;
    while kk < u.dim
      invariant jj + 1 <= kk <= u.dim
      invariant plaq' == plaq + RowSum(f, ii, jj, kk)
    {
      plaq' := AddPlaquette(g, lat, u, ii, jj, kk, plaq');
      RowStep(f, ii, jj, kk);
      kk := kk + 1;
    }
  }

  /** The body of the innermost loop: the four links of one plaquette, read
      through the neighbour table, multiplied and traced; the trace is added
      to `plaq`. */
  method AddPlaquette<M(0)>(g: Algebra<M>, lat: Lattice, u: GaugeField<M>, ii: int, jj: int, kk: int, plaq: real)
    returns (plaq': real)
    requires Ready(lat, u) && IsPlaq(lat.ext, Plaq(ii, jj, kk))
    ensures plaq' == plaq + Term(g, NeighbourTable(lat.ext), FieldLinks(g, |lat.ext|, u.Links()), Plaq(ii, jj, kk))
  {
    var ext := lat.ext;
    NeighbourInRange(ext, ii, jj);
    NeighbourInRange(ext, ii, kk);
    ghost var xmu, xnu := NeighbourTable(ext)(ii, jj), NeighbourTable(ext)(ii, kk);
    var u0 := u.Link(ii, jj);
    var n := lat.neib[ii, jj];
    assert n == xmu;
    var u1 := u.Link(n, kk);
    var u2 := g.mul(u0, u1);
    n := lat.neib[ii, kk];
    assert n == xnu;
    u0 := g.dag(u.Link(n, jj));
    u1 := g.mul(u2, u0);
    u2 := g.dag(u.Link(ii, kk));
    u0 := g.mul(u1, u2);
    var tr := g.trace(u0);
    LinkOfField(g, lat, u, ii, jj);
    LinkOfField(g, lat, u, xmu, kk);
    LinkOfField(g, lat, u, xnu, jj);
    LinkOfField(g, lat, u, ii, kk);
    plaq' := plaq + tr;
  }

  /** Reading *pu[site][dir] gives the link the field's value holds there. */
  lemma LinkOfField<M(0)>(g: Algebra<M>, lat: Lattice, u: GaugeField<M>, site: int, dir: int)
    requires Ready(lat, u) && 0 <= site < u.vol && 0 <= dir < u.dim
    ensures u.Link(site, dir) == FieldLinks(g, |lat.ext|, u.Links())(site, dir)
  {
    SlotLayout(u.vol, u.dim, site, dir, site, dir);
  }

  /** gaugeAction(): beta*NPLAQ*VOL*(1 - plaquette()), the Wilson action of
      the field. */
  method GaugeAction<M(0)>(g: Algebra<M>, lat: Lattice, u: GaugeField<M>, beta: real) returns (action: real)
    requires Ready(lat, u) && g.n >= 1
    ensures ValidExtents(lat.ext)
    ensures action == ActionFromPlaquette(beta, NPlaqVol(lat.ext), PlaquetteValue(g, lat.ext, NeighbourTable(lat.ext), FieldLinks(g, |lat.ext|, u.Links())))
    ensures action == WilsonAction(g, lat.ext, NeighbourTable(lat.ext), FieldLinks(g, |lat.ext|, u.Links()), beta)
  {
    var plaq := ComputePlaquette(g, lat, u);
    action := ActionFromPlaquette(beta, NPlaqVol(lat.ext), plaq);
    GaugeActionIsWilsonAction(g, lat.ext, NeighbourTable(lat.ext), FieldLinks(g, |lat.ext|, u.Links()), beta);
  }

  // ---------------------------------------------------------------------------
  // The cold field

  /** Every link is the unit matrix. */
  ghost predicate Cold<M>(g: Algebra<M>, U: (int, int) -> M)
  {
    forall site, dir :: U(site, dir) == g.unit
  }

  /** A field whose slots all hold the unit matrix (initGaugeField's flag 0)
      is cold. */
  lemma ColdField<M>(g: Algebra<M>, dim: nat, links: seq<M>)
    requires forall o :: 0 <= o < |links| ==> links[o] == g.unit
    ensures Cold(g, FieldLinks(g, dim, links))
  {
  }

  /** On a cold field every plaquette's product is the unit matrix, whose
      trace is SUN. */
  lemma ColdTerms<M(!new)>(g: Algebra<M>, nb: (int, int) -> int, U: (int, int) -> M)
    requires Lawful(g) && Cold(g, U)
    ensures forall p: Plaq :: Terms(g, nb, U)(p) == g.n as real
  {
    var e := g.unit;
    assert g.mul(e, e) == e;
  }

  /** Terms that equal c on every plaquette sum to c times their number. */
  lemma ConstantSum(ext: seq<int>, f: Plaq -> real, c: real)
    requires ValidExtents(ext)
    requires forall p: Plaq :: IsPlaq(ext, p) ==> f(p) == c
    ensures PlaquetteSum(f, ext) == c * TermCount(ext)
  {
    PlaquetteConstant(ext, f, c);
    SumsAtExtents(ext, f, f, c, 0.0);
  }

  /** Terms that are all SUN average to 1. */
  lemma ConstantAverage(ext: seq<int>, f: Plaq -> real, n: nat)
    requires ValidExtents(ext) && n >= 1
    requires forall p: Plaq :: IsPlaq(ext, p) ==> f(p) == n as real
    ensures Normalisation(n, ext) > 0.0
    ensures PlaquetteSum(f, ext) / Normalisation(n, ext) == 1.0
  {
    ConstantSum(ext, f, n as real);
    NormalisationCountsTerms(n, ext);
    PositiveQuotient(PlaquetteSum(f, ext), Normalisation(n, ext));
  }

  /** On a cold field the plaquette is 1: the value printed after a cold
      start. */
  lemma ColdPlaquette<M(!new)>(g: Algebra<M>, ext: seq<int>, nb: (int, int) -> int, U: (int, int) -> M)
    requires Lawful(g) && ValidExtents(ext) && Cold(g, U)
    ensures PlaquetteValue(g, ext, nb, U) == 1.0
  {
    ColdTerms(g, nb, U);
    ConstantAverage(ext, Terms(g, nb, U), g.n);
  }

  /** On a cold field the Wilson action, and so gaugeAction(), is 0. */
  lemma ColdAction<M(!new)>(g: Algebra<M>, ext: seq<int>, nb: (int, int) -> int, U: (int, int) -> M, beta: real)
    requires Lawful(g) && ValidExtents(ext) && Cold(g, U)
    ensures WilsonAction(g, ext, nb, U, beta) == 0.0
  {
    ColdPlaquette(g, ext, nb, U);
    GaugeActionIsWilsonAction(g, ext, nb, U, beta);
    ActionAtOne(beta, NPlaqVol(ext));
  }

  lemma ActionAtOne(beta: real, count: int)
    ensures ActionFromPlaquette(beta, count, 1.0) == 0.0
  {
    assert 1.0 - 1.0 == 0.0;
  }

  // ---------------------------------------------------------------------------
  // Proof helpers: steps of real and integer arithmetic the verifier needs
  // spelled out; they have no counterpart in the C source.

  lemma AffineAdd(a: real, b: real, c1: real, s1: real, c2: real, s2: real, c: real, s: real)
    requires c == c1 + c2 && s == s1 + s2
    ensures (a * c1 + b * s1) + (a * c2 + b * s2) == a * c + b * s
  {
  }

  lemma ScaleAdd(c: real, x: real, y: real, z: real, sx: real, sy: real)
    requires sx == c * x && sy == c * y && z == x + y
    ensures sx + sy == c * z
  {
  }

  lemma CastProduct(x: int, y: int)
    ensures (x * y) as real == (x as real) * (y as real)
  {
  }

  lemma MulEq(m: real, x: real, y: real)
    requires x == y
    ensures m * x == m * y
  {
  }

  lemma NegQuotient(beta: real, m: real)
    requires m > 0.0
    ensures (-beta / m) * m == -beta
  {
  }

  lemma PositiveQuotient(x: real, y: real)
    requires x == y && y > 0.0
    ensures x / y == 1.0
  {
  }
}
