/** Wilson loops (modules/obs/wilson.c).

    compute_wloop multiplies the links around an l1 x l2 rectangle spanned by
    directions d1 and d2, reading the way from the neighbour table, and returns
    the real trace of the product.  measureWilsonLoop averages these traces
    over all start sites in a time slice, all spatial directions and all time
    translations of the rectangle that fit into the lattice, for every
    requested temporal and spatial size.

    As in the plaquette module the specification functions work on an
    abstract neighbour function nb and abstract link functions U1 (the links
    read in direction d1) and U2 (those read in d2); the methods instantiate
    them with the filled neighbour table and the working copies of the field. */
module Wilson {

  import opened CArith
  import opened Geometry
  import opened LinkAlgebra
  import opened Init
  import opened Plaquette

  // ---------------------------------------------------------------------------
  // The walk around the rectangle

  /** The site reached from x after l steps in signed direction k. */
  function Walk(nb: (int, int) -> int, x: int, k: int, l: int): int
    decreases l
  {
    if l <= 0 then x else nb(Walk(nb, x, k, l - 1), k)
  }

  /** A forward leg: acc times the links U(x,d), U(x+d,d), ..., each read
      before the step, l of them. */
  function Leg<M>(g: Algebra<M>, nb: (int, int) -> int, U: (int, int) -> M, acc: M, x: int, d: int, l: int): M
    decreases l
  {
    if l <= 0 then acc else g.mul(Leg(g, nb, U, acc, x, d, l - 1), U(Walk(nb, x, d, l - 1), d))
  }

  /** A backward leg in signed direction k = d+DIM: acc times the daggered
      links U(x-d,d)^dagger, U(x-2d,d)^dagger, ..., each read after the step. */
  function BackLeg<M>(g: Algebra<M>, nb: (int, int) -> int, U: (int, int) -> M, acc: M, x: int, d: int, k: int, l: int): M
    decreases l
  {
    if l <= 0 then acc else MulDag(g, BackLeg(g, nb, U, acc, x, d, k, l - 1), U(Walk(nb, x, k, l), d))
  }

  /** compute_wloop(n, d1, d2, l1, l2): the trace of the product around the
      rectangle, walked l1 forward in d1, l2 forward in d2, l1 back in d1 and
      l2 back in d2, starting from the unit matrix. */
  function WLoop<M>(g: Algebra<M>, nb: (int, int) -> int, dim: int, U1: (int, int) -> M, U2: (int, int) -> M,
                    n: int, d1: int, d2: int, l1: int, l2: int): real
  {
    var s1 := Walk(nb, n, d1, l1);
    var s2 := Walk(nb, s1, d2, l2);
    var s3 := Walk(nb, s2, d1 + dim, l1);
    var a := Leg(g, nb, U1, g.unit, n, d1, l1);
    var b := Leg(g, nb, U2, a, s1, d2, l2);
    var c := BackLeg(g, nb, U1, b, s2, d1, d1 + dim, l1);
    g.trace(BackLeg(g, nb, U2, c, s3, d2, d2 + dim, l2))
  }

  /** The direction a signed direction k moves along, and by how much one
      step moves the coordinate (+1 forward, extent-1 backward, modulo the
      extent). */
  function Axis(ext: seq<int>, k: nat): nat
  {
    if k < |ext| then k else k - |ext|
  }

  function StepOf(ext: seq<int>, k: nat): int
    requires ValidExtents(ext) && k < 2 * |ext|
  {
    if k < |ext| then 1 else ext[k - |ext|] - 1
  }

  /** l steps in signed direction k shift the coordinate Axis(k) by
      l*StepOf(k), periodically, and stay on the lattice. */
  lemma {:induction false} WalkCoordinates(ext: seq<int>, x: int, k: nat, l: nat) returns (y: int)
    requires ValidExtents(ext) && 0 <= x < Volume(ext) && k < 2 * |ext|
    ensures y == Walk(NeighbourTable(ext), x, k, l)
    ensures 0 <= y < Volume(ext)
    ensures |Coordinates(ext, x)| == |ext|
    ensures Coordinates(ext, y) == Shift(ext, Coordinates(ext, x), Axis(ext, k), l * StepOf(ext, k))
  {
    var c := Coordinates(ext, x);
    var d, s := Axis(ext, k), StepOf(ext, k);
    CoordinatesInRange(ext, x);
    if l == 0 {
      ShiftByMultiple(ext, c, d, 0);
      y := x;
    } else {
      var z := WalkCoordinates(ext, x, k, l - 1);
      var cz := Coordinates(ext, z);
      CoordinatesInRange(ext, z);
      NeighbourInRange(ext, z, k);
      ShiftInRange(ext, cz, d, s);
      y := Neighbour(ext, z, k);
      assert y == SiteIndex(ext, Shift(ext, cz, d, s));
      DecodeEncode(ext, Shift(ext, cz, d, s));
      ShiftShift(ext, c, d, (l - 1) * s, d, s);
      assert (l - 1) * s + s == l * s;
    }
  }

  /** A shift differing by a multiple of the extent is the same shift. */
  lemma ShiftModulo(ext: seq<int>, c: seq<int>, d: nat, a: int, m: int)
    requires ValidExtents(ext) && InRange(ext, c) && d < |ext|
    ensures Shift(ext, c, d, a + m * ext[d]) == Shift(ext, c, d, a)
  {
    ShiftShift(ext, c, d, a, d, m * ext[d]);
    ShiftInRange(ext, c, d, a);
    ShiftByMultiple(ext, Shift(ext, c, d, a), d, m);
  }

  /** Coordinates determine the site. */
  lemma SameCoordinates(ext: seq<int>, x: int, y: int)
    requires ValidExtents(ext) && 0 <= x < Volume(ext) && 0 <= y < Volume(ext)
    requires Coordinates(ext, x) == Coordinates(ext, y)
    ensures x == y
  {
    EncodeDecode(ext, x);
    EncodeDecode(ext, y);
  }

  /** i+1 steps back from Shift(c, d, l) is l-1-i steps forward from c. */
  lemma BackSteps(ext: seq<int>, c: seq<int>, d: nat, l: int, i: int)
    requires ValidExtents(ext) && InRange(ext, c) && d < |ext|
    ensures Shift(ext, Shift(ext, c, d, l), d, (i + 1) * (ext[d] - 1)) == Shift(ext, c, d, l - 1 - i)
  {
    ShiftShift(ext, c, d, l, d, (i + 1) * (ext[d] - 1));
    assert l + (i + 1) * (ext[d] - 1) == (l - 1 - i) + (i + 1) * ext[d];
    ShiftModulo(ext, c, d, l - 1 - i, i + 1);
  }

  /** Through the neighbour table, i+1 steps back along d after l steps
      forward land where l-1-i steps forward do. */
  lemma BackWalk(ext: seq<int>, x: int, d: nat, l: nat, i: nat)
    requires ValidExtents(ext) && 0 <= x < Volume(ext) && d < |ext| && i < l
    ensures
      var nb := NeighbourTable(ext);
      Walk(nb, Walk(nb, x, d, l), d + |ext|, i + 1) == Walk(nb, x, d, l - 1 - i)
  {
    var y := WalkCoordinates(ext, x, d, l);
    var z := WalkCoordinates(ext, y, d + |ext|, i + 1);
    var w := WalkCoordinates(ext, x, d, l - 1 - i);
    CoordinatesInRange(ext, x);
    BackSteps(ext, Coordinates(ext, x), d, l, i);
    SameCoordinates(ext, z, w);
  }

  /** Forward walks along two axes commute. */
  lemma WalkCommute(ext: seq<int>, n: int, d1: nat, d2: nat, l1: nat, l2: nat)
    requires ValidExtents(ext) && 0 <= n < Volume(ext) && d1 < |ext| && d2 < |ext|
    ensures
      var nb := NeighbourTable(ext);
      Walk(nb, Walk(nb, n, d1, l1), d2, l2) == Walk(nb, Walk(nb, n, d2, l2), d1, l1)
  {
    var c := Coordinates(ext, n);
    var a := WalkCoordinates(ext, n, d1, l1);
    var b := WalkCoordinates(ext, a, d2, l2);
    var a' := WalkCoordinates(ext, n, d2, l2);
    var b' := WalkCoordinates(ext, a', d1, l1);
    CoordinatesInRange(ext, n);
    if d1 == d2 {
      ShiftShift(ext, c, d1, l1, d1, l2);
      ShiftShift(ext, c, d1, l2, d1, l1);
    } else {
      ShiftShift(ext, c, d1, l1, d2, l2);
    }
    SameCoordinates(ext, b, b');
  }

  /** After the first three legs the walk stands l2 steps along d2 from n. */
  lemma ThirdCorner(ext: seq<int>, n: int, d1: nat, d2: nat, l1: nat, l2: nat)
    requires ValidExtents(ext) && 0 <= n < Volume(ext) && d1 < |ext| && d2 < |ext|
    ensures
      var nb, D := NeighbourTable(ext), |ext|;
      Walk(nb, Walk(nb, Walk(nb, n, d1, l1), d2, l2), d1 + D, l1) == Walk(nb, n, d2, l2)
  {
    WalkCommute(ext, n, d1, d2, l1, l2);
    var t := WalkCoordinates(ext, n, d2, l2);
    if l1 > 0 {
      BackWalk(ext, t, d1, l1, l1 - 1);
    }
  }

  /** The walk of compute_wloop closes: after the four legs it is back at its
      start site n. */
  lemma LoopCloses(ext: seq<int>, n: int, d1: nat, d2: nat, l1: nat, l2: nat)
    requires ValidExtents(ext) && 0 <= n < Volume(ext) && d1 < |ext| && d2 < |ext|
    ensures
      var nb, D := NeighbourTable(ext), |ext|;
      Walk(nb, Walk(nb, Walk(nb, Walk(nb, n, d1, l1), d2, l2), d1 + D, l1), d2 + D, l2) == n
  {
    ThirdCorner(ext, n, d1, d2, l1, l2);
    if l2 > 0 {
      BackWalk(ext, n, d2, l2, l2 - 1);
    }
  }

  /** The third leg reads, at its i-th step, the link that a forward walk
      along the far d1-side (from n moved l2 along d2) reads at step l1-1-i:
      the far side is read once, backwards. */
  lemma ThirdLegReadsFarSide(ext: seq<int>, n: int, d1: nat, d2: nat, l1: nat, l2: nat, i: nat)
    requires ValidExtents(ext) && 0 <= n < Volume(ext) && d1 < |ext| && d2 < |ext| && i < l1
    ensures
      var nb, D := NeighbourTable(ext), |ext|;
      Walk(nb, Walk(nb, Walk(nb, n, d1, l1), d2, l2), d1 + D, i + 1) == Walk(nb, Walk(nb, n, d2, l2), d1, l1 - 1 - i)
  {
    WalkCommute(ext, n, d1, d2, l1, l2);
    var t := WalkCoordinates(ext, n, d2, l2);
    BackWalk(ext, t, d1, l1, i);
  }

  /** The fourth leg reads, at its i-th step, the link that the forward walk
      from n along d2 reads at step l2-1-i: the near d2-side, once, backwards. */
  lemma FourthLegReadsNearSide(ext: seq<int>, n: int, d1: nat, d2: nat, l1: nat, l2: nat, i: nat)
    requires ValidExtents(ext) && 0 <= n < Volume(ext) && d1 < |ext| && d2 < |ext| && i < l2
    ensures
      var nb, D := NeighbourTable(ext), |ext|;
      Walk(nb, Walk(nb, Walk(nb, Walk(nb, n, d1, l1), d2, l2), d1 + D, l1), d2 + D, i + 1) == Walk(nb, n, d2, l2 - 1 - i)
  {
    ThirdCorner(ext, n, d1, d2, l1, l2);
    BackWalk(ext, n, d2, l2, i);
  }

  // ---------------------------------------------------------------------------
  // The cold field

  lemma {:induction false} ColdLeg<M(!new)>(g: Algebra<M>, nb: (int, int) -> int, U: (int, int) -> M, x: int, d: int, l: int)
    requires Lawful(g) && Cold(g, U)
    ensures Leg(g, nb, U, g.unit, x, d, l) == g.unit
    decreases l
  {
    if l > 0 {
      ColdLeg(g, nb, U, x, d, l - 1);
      assert g.mul(g.unit, g.unit) == g.unit;
    }
  }

  lemma {:induction false} ColdBackLeg<M(!new)>(g: Algebra<M>, nb: (int, int) -> int, U: (int, int) -> M, x: int, d: int, k: int, l: int)
    requires Lawful(g) && Cold(g, U)
    ensures BackLeg(g, nb, U, g.unit, x, d, k, l) == g.unit
    decreases l
  {
    if l > 0 {
      ColdBackLeg(g, nb, U, x, d, k, l - 1);
      assert g.mul(g.unit, g.unit) == g.unit;
    }
  }

  /** On a cold field every Wilson loop is trace(unit) = SUN, whatever its
      size. */
  lemma ColdLoop<M(!new)>(g: Algebra<M>, nb: (int, int) -> int, dim: int, U1: (int, int) -> M, U2: (int, int) -> M,
                          n: int, d1: int, d2: int, l1: int, l2: int)
    requires Lawful(g) && Cold(g, U1) && Cold(g, U2)
    ensures WLoop(g, nb, dim, U1, U2, n, d1, d2, l1, l2) == g.n as real
  {
    var s1 := Walk(nb, n, d1, l1);
    var s2 := Walk(nb, s1, d2, l2);
    var s3 := Walk(nb, s2, d1 + dim, l1);
    ColdLeg(g, nb, U1, n, d1, l1);
    ColdLeg(g, nb, U2, s1, d2, l2);
    ColdBackLeg(g, nb, U1, s2, d1, d1 + dim, l1);
    ColdBackLeg(g, nb, U2, s3, d2, d2 + dim, l2);
  }

  // ---------------------------------------------------------------------------
  // compute_wloop

  /** One of compute_wloop's first two loops: l times, multiply the link of
      iu at the current site in direction d into the product, then step
      forward along d through the neighbour table. */
  method ForwardLeg<M(0)>(g: Algebra<M>, lat: Lattice, iu: GaugeField<M>, acc: M, x: int, d: int, l: int)
    returns (u: M, y: int)
    requires Ready(lat, iu) && 0 <= x < iu.vol && 0 <= d < iu.dim
    ensures ValidExtents(lat.ext) && 0 <= y < iu.vol
    ensures y == Walk(NeighbourTable(lat.ext), x, d, l)
    ensures u == Leg(g, NeighbourTable(lat.ext), FieldLinks(g, |lat.ext|, iu.Links()), acc, x, d, l)
  {
    u, y := acc, x;
    ghost var nb, U := NeighbourTable(lat.ext), FieldLinks(g, |lat.ext|, iu.Links());
    var ii := 0;
    while ii < l
      invariant 0 <= y < iu.vol && (0 <= ii <= l || (ii == 0 && l <= 0))
      invariant y == Walk(nb, x, d, ii)
      invariant u == Leg(g, nb, U, acc, x, d, ii)
    {
      LinkOfField(g, lat, iu, y, d);
      NeighbourInRange(lat.ext, y, d);
      u := g.mul(u, iu.Link(y, d));
      y := lat.neib[y, d];
      ii := ii + 1;
    }
  }

  /** One of compute_wloop's last two loops: l times, step backward through
      the neighbour table (signed direction d+DIM), then multiply the dagger
      of the link of iu in direction d at the new site into the product. */
  method BackwardLeg<M(0)>(g: Algebra<M>, lat: Lattice, iu: GaugeField<M>, acc: M, x: int, d: int, l: int)
    returns (u: M, y: int)
    requires Ready(lat, iu) && 0 <= x < iu.vol && 0 <= d < iu.dim
    ensures ValidExtents(lat.ext) && 0 <= y < iu.vol
    ensures y == Walk(NeighbourTable(lat.ext), x, d + |lat.ext|, l)
    ensures u == BackLeg(g, NeighbourTable(lat.ext), FieldLinks(g, |lat.ext|, iu.Links()), acc, x, d, d + |lat.ext|, l)
  {
    u, y := acc, x;
    var k := d + iu.dim;
    ghost var nb, U := NeighbourTable(lat.ext), FieldLinks(g, |lat.ext|, iu.Links());
    var ii := 0;
    while ii < l
      invariant 0 <= y < iu.vol && (0 <= ii <= l || (ii == 0 && l <= 0))
      invariant y == Walk(nb, x, k, ii)
      invariant u == BackLeg(g, nb, U, acc, x, d, k, ii)
    {
      NeighbourInRange(lat.ext, y, k);
      y := lat.neib[y, k];
      LinkOfField(g, lat, iu, y, d);
      u := MulDag(g, u, iu.Link(y, d));
      ii := ii + 1;
    }
  }

  /** compute_wloop: the four loops walk the rectangle through the neighbour
      table, multiplying the links of iu1 along d1 and of iu2 along d2 into
      u[0], and the trace of the product is returned; the fields and the table
      are only read. */
  method ComputeWLoop<M(0)>(g: Algebra<M>, lat: Lattice, iu1: GaugeField<M>, iu2: GaugeField<M>,
                            n: int, d1: int, d2: int, l1: int, l2: int) returns (tr: real)
    requires Ready(lat, iu1) && Ready(lat, iu2)
    requires 0 <= n < iu1.vol && 0 <= d1 < iu1.dim && 0 <= d2 < iu1.dim
    ensures ValidExtents(lat.ext)
    ensures tr == WLoop(g, NeighbourTable(lat.ext), |lat.ext|, FieldLinks(g, |lat.ext|, iu1.Links()), FieldLinks(g, |lat.ext|, iu2.Links()),
                        n, d1, d2, l1, l2)
  {
    var u0, nn := ForwardLeg(g, lat, iu1, g.unit, n, d1, l1);
    u0, nn := ForwardLeg(g, lat, iu2, u0, nn, d2, l2);
    u0, nn := BackwardLeg(g, lat, iu1, u0, nn, d1, l1);
    u0, nn := BackwardLeg(g, lat, iu2, u0, nn, d2, l2);
    tr := g.trace(u0);
  }

  // ---------------------------------------------------------------------------
  // measureWilsonLoop: what is measured

  /** The requested loop sizes (measParams): temporal sizes ts, ts+dt, ...
      up to tf, spatial sizes rs, rs+dr, ... up to rf. */
  datatype MeasParams = MeasParams(ts: int, tf: int, dt: int, rs: int, rf: int, dr: int)

  /** What measureWilsonLoop needs of its parameters: non-zero steps for the
      divisions, and loops over the sizes and the translations that end. */
  predicate Steps(mp: MeasParams)
  {
    && mp.dt != 0 && mp.dr != 0
    && (mp.ts <= mp.tf ==> mp.dt > 0 && mp.ts >= 1)
    && (mp.rs <= mp.rf ==> mp.dr > 0)
  }

  /** nt = (tf-ts)/dt + 1 and nr = (rf-rs)/dr + 1, in C's truncating division. */
  function NT(mp: MeasParams): int
    requires mp.dt != 0
  {
    CDiv(mp.tf - mp.ts, mp.dt) + 1
  }

  function NR(mp: MeasParams): int
    requires mp.dr != 0
  {
    CDiv(mp.rf - mp.rs, mp.dr) + 1
  }

  /** nlin: the number of translations ilin = 0, it, 2*it, ... <= lbord. */
  function NLin(lbord: int, it: int): int
    requires lbord >= 0 && it > 0
  {
    CDiv(lbord, it) + 1
  }

  /** j steps of size s stay within a >= 0 exactly for j <= a/s. */
  lemma StepsWithin(a: int, s: int, j: int)
    requires a >= 0 && s > 0 && j >= 0
    ensures j * s <= a <==> j < CDiv(a, s) + 1
  {
    CDivNonNegative(a, s);
    var q := a / s;
    assert a == q * s + a % s;
    if j <= q {
      MulLe(j, q, s);
    } else {
      MulLe(q + 1, j, s);
    }
  }

  /** The sizes loops: with ts <= tf, the temporal size ts+nn*dt is requested
      exactly for nn < nt, and likewise the spatial sizes for r < nr. */
  lemma TemporalSizes(mp: MeasParams, nn: int)
    requires Steps(mp) && mp.ts <= mp.tf && nn >= 0
    ensures NT(mp) >= 1
    ensures mp.ts + nn * mp.dt <= mp.tf <==> nn < NT(mp)
  {
    StepsWithin(mp.tf - mp.ts, mp.dt, nn);
    CDivNonNegative(mp.tf - mp.ts, mp.dt);
  }

  lemma SpatialSizes(mp: MeasParams, r: int)
    requires Steps(mp) && mp.rs <= mp.rf && r >= 0
    ensures NR(mp) >= 1
    ensures mp.rs + r * mp.dr <= mp.rf <==> r < NR(mp)
  {
    StepsWithin(mp.rf - mp.rs, mp.dr, r);
    CDivNonNegative(mp.rf - mp.rs, mp.dr);
  }

  /** The translations ilin = j*it <= lbord are exactly those with j < nlin. */
  lemma Translations(lbord: int, it: int, j: int)
    requires lbord >= 0 && it > 0 && j >= 0
    ensures NLin(lbord, it) >= 1
    ensures j * it <= lbord <==> j < NLin(lbord, it)
  {
    StepsWithin(lbord, it, j);
    CDivNonNegative(lbord, it);
  }

  /** The time slices ilin .. ilin+it-1 of a translation that fits
      (ilin <= linearExtent[0] - it, it >= 1) lie on the lattice: the start
      sites in + ilin*volumeOtherDirs[0], in < volumeOtherDirs[0], are sites. */
  lemma SliceInRange(ext: seq<int>, it: int, ilin: int)
    requires ValidExtents(ext) && 1 <= it && 0 <= ilin <= ext[0] - it
    ensures VolumeOtherDirs(ext, 0) >= 1
    ensures 0 <= ilin * VolumeOtherDirs(ext, 0)
    ensures ilin * VolumeOtherDirs(ext, 0) + VolumeOtherDirs(ext, 0) <= Volume(ext)
  {
    var v := VolumeOtherDirs(ext, 0);
    VolumeOtherDirsFacts(ext, 0);
    MulLe(ilin, ext[0] - 1, v);
    MulLe(0, ilin, v);
    assert (ext[0] - 1) * v + v == ext[0] * v;
  }

  /** The loops that go into one entry: L(n, id) is the loop of temporal
      size it and spatial size ir at start site n in the plane (0, id). */
  function Loops<M>(g: Algebra<M>, nb: (int, int) -> int, dim: int, U1: (int, int) -> M, U2: (int, int) -> M,
                    it: int, ir: int): (int, int) -> real
  {
    (n, id) => WLoop(g, nb, dim, U1, U2, n, 0, id, it, ir)
  }

  /** The innermost loop: L(n, 1) + ... + L(n, k), added in that order. */
  function DirSum(L: (int, int) -> real, n: int, k: int): real
    decreases k
  {
    if k <= 0 then 0.0 else DirSum(L, n, k - 1) + L(n, k)
  }

  /** The loop over the sites of a time slice: start, start+1, ...,
      start+m-1, each with the spatial directions 1..dim-1. */
  function SiteSum(L: (int, int) -> real, start: int, m: int, dim: int): real
    decreases m
  {
    if m <= 0 then 0.0 else SiteSum(L, start, m - 1, dim) + DirSum(L, (m - 1) + start, dim - 1)
  }

  /** The translations: line j (of j lines so far) starts at time slice
      (j-1)*it, i.e. at site (j-1)*it*vod. */
  function LineSum(L: (int, int) -> real, vod: int, it: int, j: int, dim: int): real
    decreases j
  {
    if j <= 0 then 0.0 else LineSum(L, vod, it, j - 1, dim) + SiteSum(L, (j - 1) * it * vod, vod, dim)
  }

  /** What an output entry has accumulated after j translations: the loops
      of sizes it and ir over j time slices, all sites of each, all spatial
      directions. */
  function Accum<M>(g: Algebra<M>, ext: seq<int>, U1: (int, int) -> M, U2: (int, int) -> M, it: int, ir: int, j: int): real
    requires ValidExtents(ext)
  {
    LineSum(Loops(g, NeighbourTable(ext), |ext|, U1, U2, it, ir), VolumeOtherDirs(ext, 0), it, j, |ext|)
  }

  /** The divisor SUN*volumeOtherDirs[0]*nlin*(DIM-1). */
  function Norm(n: int, ext: seq<int>, nlin: int): real
  {
    (n * VolumeOtherDirs(ext, 0) * nlin * (|ext| - 1)) as real
  }

  lemma NormPositive(n: int, ext: seq<int>, nlin: int)
    requires ValidExtents(ext) && n >= 1 && nlin >= 1
    ensures Norm(n, ext, nlin) > 0.0
  {
    VolumeOtherDirsFacts(ext, 0);
    MulPositive(n, VolumeOtherDirs(ext, 0));
    MulPositive(n * VolumeOtherDirs(ext, 0), nlin);
    MulPositive(n * VolumeOtherDirs(ext, 0) * nlin, |ext| - 1);
  }

  /** The temporal size of row nn, ts + nn*dt, is at least 1. */
  lemma RowSize(mp: MeasParams, nn: int)
    requires Steps(mp) && mp.ts <= mp.tf && nn >= 0
    ensures mp.ts + nn * mp.dt >= 1
  {
    MulLe(0, nn, mp.dt);
  }

  /** Entry (nn, r) of w once its row is done: the sum of the loops of
      temporal size it = ts+nn*dt and spatial size rs+r*dr over all
      translations that fit, divided by SUN*volumeOtherDirs[0]*nlin*(DIM-1);
      when no spatial size is requested the entry stays zero.  A row whose
      it exceeds linearExtent[0] is never reached (the measurement stops
      with an error first); its entries are 0 here. */
  function Entry<M>(g: Algebra<M>, ext: seq<int>, U1: (int, int) -> M, U2: (int, int) -> M, mp: MeasParams, nn: int, r: int): real
    requires ValidExtents(ext) && g.n >= 1 && Steps(mp) && mp.ts <= mp.tf && nn >= 0
  {
    RowSize(mp, nn);
    var it := mp.ts + nn * mp.dt;
    if it > ext[0] then 0.0
    else
      var nlin := NLin(ext[0] - it, it);
      Translations(ext[0] - it, it, 0);
      NormPositive(g.n, ext, nlin);
      (if mp.rs <= mp.rf then Accum(g, ext, U1, U2, it, mp.rs + r * mp.dr, nlin) else 0.0) / Norm(g.n, ext, nlin)
  }

  /** The sizes end past linearExtent[0]: the condition under which
      measureWilsonLoop stops with "Lattice too small". */
  predicate TooLong(ext: seq<int>, mp: MeasParams)
    requires |ext| >= 1 && mp.dt != 0
  {
    mp.ts <= mp.tf && mp.ts + (NT(mp) - 1) * mp.dt > ext[0]
  }

  /** w[o] at the end: entry (o / nr, o % nr), i.e. w[nn*nr + r] holds
      entry (nn, r). */
  function Table<M>(g: Algebra<M>, ext: seq<int>, U1: (int, int) -> M, U2: (int, int) -> M, mp: MeasParams, o: int): real
    requires ValidExtents(ext) && g.n >= 1 && Steps(mp) && mp.ts <= mp.tf && NR(mp) >= 1 && o >= 0
  {
    DivNonNegative(o, NR(mp));
    Entry(g, ext, U1, U2, mp, o / NR(mp), o % NR(mp))
  }

  /** The layout of w: entry (nn, r) sits at nn*nr + r. */
  lemma TableIndex<M>(g: Algebra<M>, ext: seq<int>, U1: (int, int) -> M, U2: (int, int) -> M, mp: MeasParams, nn: int, r: int)
    requires ValidExtents(ext) && g.n >= 1 && Steps(mp) && mp.ts <= mp.tf && NR(mp) >= 1
    requires nn >= 0 && 0 <= r < NR(mp)
    ensures nn * NR(mp) + r >= 0
    ensures Table(g, ext, U1, U2, mp, nn * NR(mp) + r) == Entry(g, ext, U1, U2, mp, nn, r)
  {
    MulLe(0, nn, NR(mp));
    DivModUnique(nn * NR(mp) + r, NR(mp), nn, r);
  }

  // ---------------------------------------------------------------------------
  // The normalisation counts the loops

  /** c added k times. */
  function Times(c: real, k: int): real
    decreases k
  {
    if k <= 0 then 0.0 else Times(c, k - 1) + c
  }

  lemma {:induction false} TimesAdd(c: real, a: nat, b: nat)
    ensures Times(c, a) + Times(c, b) == Times(c, a + b)
    decreases b
  {
    if b > 0 {
      TimesAdd(c, a, b - 1);
    }
  }

  /** n added k times is the integer n*k. */
  lemma {:induction false} TimesCast(n: int, k: nat)
    ensures Times(n as real, k) == (n * k) as real
  {
    if k > 0 {
      TimesCast(n, k - 1);
      assert n * k == n * (k - 1) + n;
    }
  }

  lemma {:induction false} ConstantDirSum(L: (int, int) -> real, c: real, n: int, k: nat)
    requires forall x, id :: L(x, id) == c
    ensures DirSum(L, n, k) == Times(c, k)
  {
    if k > 0 {
      ConstantDirSum(L, c, n, k - 1);
    }
  }

  lemma {:induction false} ConstantSiteSum(L: (int, int) -> real, c: real, start: int, m: nat, dim: nat)
    requires forall x, id :: L(x, id) == c
    requires dim >= 1
    ensures SiteSum(L, start, m, dim) == Times(c, m * (dim - 1))
  {
    if m > 0 {
      ConstantSiteSum(L, c, start, m - 1, dim);
      ConstantDirSum(L, c, (m - 1) + start, dim - 1);
      Count2(m, dim - 1);
      MulLe(0, m - 1, dim - 1);
      TimesAdd(c, (m - 1) * (dim - 1), dim - 1);
    }
  }

  lemma {:induction false} ConstantLineSum(L: (int, int) -> real, c: real, vod: nat, it: int, j: nat, dim: nat)
    requires forall x, id :: L(x, id) == c
    requires dim >= 1
    ensures LineSum(L, vod, it, j, dim) == Times(c, vod * j * (dim - 1))
  {
    if j > 0 {
      ConstantLineSum(L, c, vod, it, j - 1, dim);
      ConstantSiteSum(L, c, (j - 1) * it * vod, vod, dim);
      Count3(vod, j, dim - 1);
      TimesAdd(c, vod * (j - 1) * (dim - 1), vod * (dim - 1));
    }
  }

  lemma Count2(m: int, e: int)
    ensures (m - 1) * e + e == m * e
  {
  }

  lemma Count3(vod: nat, j: nat, e: nat)
    requires j >= 1
    ensures vod * (j - 1) * e + vod * e == vod * j * e
    ensures vod * (j - 1) * e >= 0 && vod * e >= 0
  {
  }

  /** The same value c for every loop. */
  function Constant(c: real): (int, int) -> real
  {
    (n, id) => c
  }

  /** The divisor is SUN added once for every loop accumulated into the
      entry: volumeOtherDirs[0] start sites times nlin translations times
      DIM-1 spatial directions. */
  lemma NormCountsLoops(n: int, ext: seq<int>, it: int, nlin: nat)
    requires ValidExtents(ext)
    ensures Norm(n, ext, nlin) == LineSum(Constant(n as real), VolumeOtherDirs(ext, 0), it, nlin, |ext|)
  {
    VolumeOtherDirsFacts(ext, 0);
    ColdAccum(n, VolumeOtherDirs(ext, 0), Constant(n as real), it, nlin, |ext|);
  }

  /** On a cold field every entry for a requested size is exactly 1. */
  lemma ColdEntry<M(!new)>(g: Algebra<M>, ext: seq<int>, U1: (int, int) -> M, U2: (int, int) -> M, mp: MeasParams, nn: int, r: int)
    requires ValidExtents(ext) && Lawful(g) && Cold(g, U1) && Cold(g, U2)
    requires Steps(mp) && mp.ts <= mp.tf && nn >= 0 && mp.ts + nn * mp.dt <= ext[0]
    requires mp.rs <= mp.rf
    ensures Entry(g, ext, U1, U2, mp, nn, r) == 1.0
  {
    var it, nlin := EntryParts(g, ext, U1, U2, mp, nn, r);
    var ir := mp.rs + r * mp.dr;
    ColdAccumIsNorm(g, ext, U1, U2, it, ir, nlin);
    QuotientOne(Entry(g, ext, U1, U2, mp, nn, r), Accum(g, ext, U1, U2, it, ir, nlin), Norm(g.n, ext, nlin));
  }

  /** On a cold field the sum of the loops of one size is the divisor. */
  lemma ColdAccumIsNorm<M(!new)>(g: Algebra<M>, ext: seq<int>, U1: (int, int) -> M, U2: (int, int) -> M, it: int, ir: int, nlin: nat)
    requires ValidExtents(ext) && Lawful(g) && Cold(g, U1) && Cold(g, U2)
    ensures Accum(g, ext, U1, U2, it, ir, nlin) == Norm(g.n, ext, nlin)
  {
    ColdLoops(g, NeighbourTable(ext), |ext|, U1, U2, it, ir);
    VolumeOtherDirsFacts(ext, 0);
    ColdAccum(g.n, VolumeOtherDirs(ext, 0), Loops(g, NeighbourTable(ext), |ext|, U1, U2, it, ir), it, nlin, |ext|);
  }

  /** The entry's temporal size and translation count. */
  lemma EntryParts<M>(g: Algebra<M>, ext: seq<int>, U1: (int, int) -> M, U2: (int, int) -> M, mp: MeasParams, nn: int, r: int)
    returns (it: int, nlin: int)
    requires ValidExtents(ext) && g.n >= 1 && Steps(mp) && mp.ts <= mp.tf && nn >= 0
    requires mp.ts + nn * mp.dt <= ext[0]
    ensures it == mp.ts + nn * mp.dt && 1 <= it <= ext[0]
    ensures nlin == NLin(ext[0] - it, it) && nlin >= 1
    ensures Norm(g.n, ext, nlin) > 0.0
    ensures Entry(g, ext, U1, U2, mp, nn, r)
         == (if mp.rs <= mp.rf then Accum(g, ext, U1, U2, it, mp.rs + r * mp.dr, nlin) else 0.0) / Norm(g.n, ext, nlin)
  {
    it, nlin := RowParts(g.n, ext, mp, nn);
    EntryValue(g, ext, U1, U2, mp, nn, r, it, nlin);
  }

  lemma EntryValue<M>(g: Algebra<M>, ext: seq<int>, U1: (int, int) -> M, U2: (int, int) -> M, mp: MeasParams, nn: int, r: int,
                      it: int, nlin: int)
    requires ValidExtents(ext) && g.n >= 1 && Steps(mp) && mp.ts <= mp.tf && nn >= 0
    requires it == mp.ts + nn * mp.dt && 1 <= it <= ext[0] && nlin == NLin(ext[0] - it, it)
    requires Norm(g.n, ext, nlin) > 0.0
    ensures Entry(g, ext, U1, U2, mp, nn, r)
         == (if mp.rs <= mp.rf then Accum(g, ext, U1, U2, it, mp.rs + r * mp.dr, nlin) else 0.0) / Norm(g.n, ext, nlin)
  {
    assert !(mp.ts + nn * mp.dt > ext[0]);
  }

  lemma RowParts(n: int, ext: seq<int>, mp: MeasParams, nn: int) returns (it: int, nlin: int)
    requires ValidExtents(ext) && n >= 1 && Steps(mp) && mp.ts <= mp.tf && nn >= 0
    requires mp.ts + nn * mp.dt <= ext[0]
    ensures it == mp.ts + nn * mp.dt && 1 <= it <= ext[0]
    ensures nlin == NLin(ext[0] - it, it) && nlin >= 1
    ensures Norm(n, ext, nlin) > 0.0
  {
    RowSize(mp, nn);
    it := mp.ts + nn * mp.dt;
    nlin := NLin(ext[0] - it, it);
    Translations(ext[0] - it, it, 0);
    NormPositive(n, ext, nlin);
  }

  /** On a cold field every loop of the measurement is SUN. */
  lemma ColdLoops<M(!new)>(g: Algebra<M>, nb: (int, int) -> int, dim: int, U1: (int, int) -> M, U2: (int, int) -> M, it: int, ir: int)
    requires Lawful(g) && Cold(g, U1) && Cold(g, U2)
    ensures forall x, id :: Loops(g, nb, dim, U1, U2, it, ir)(x, id) == g.n as real
  {
    forall x, id
      ensures Loops(g, nb, dim, U1, U2, it, ir)(x, id) == g.n as real
    {
      ColdLoop(g, nb, dim, U1, U2, x, 0, id, it, ir);
    }
  }

  /** Loops that are all SUN add up to the divisor. */
  lemma ColdAccum(n: int, v: nat, L: (int, int) -> real, it: int, nlin: nat, dim: nat)
    requires dim >= 1
    requires forall x, id :: L(x, id) == n as real
    ensures LineSum(L, v, it, nlin, dim) == (n * v * nlin * (dim - 1)) as real
  {
    var k := Count(v, nlin, dim - 1);
    ConstantLineSum(L, n as real, v, it, nlin, dim);
    TimesCast(n, k);
    MulAssoc(n, v * nlin, dim - 1);
    MulAssoc(n, v, nlin);
  }

  /** The number of loops, vod*nlin*e, as a nat. */
  lemma Count(v: nat, nlin: nat, e: nat) returns (k: nat)
    ensures k == v * nlin * e
  {
    MulLe(0, v, nlin);
    MulLe(0, v * nlin, e);
    k := v * nlin * e;
  }


  // ---------------------------------------------------------------------------
  // measureWilsonLoop: the loops

  /** L holds the value of every loop compute_wloop(n, 0, id, it, ir)
      returns; stated on the WLoop term, so that sums over L stay folded. */
  ghost predicate Tabulates<M>(L: (int, int) -> real, g: Algebra<M>, nb: (int, int) -> int, dim: int,
                               U1: (int, int) -> M, U2: (int, int) -> M, it: int, ir: int)
  {
    forall n, id {:trigger WLoop(g, nb, dim, U1, U2, n, 0, id, it, ir)} :: L(n, id) == WLoop(g, nb, dim, U1, U2, n, 0, id, it, ir)
  }

  /** The loops of one temporal and spatial size, as an abstract table. */
  lemma LoopsOf<M>(g: Algebra<M>, nb: (int, int) -> int, dim: int, U1: (int, int) -> M, U2: (int, int) -> M, it: int, ir: int)
    returns (L: (int, int) -> real)
    ensures Tabulates(L, g, nb, dim, U1, U2, it, ir)
  {
    L := Loops(g, nb, dim, U1, U2, it, ir);
  }

  /** A(ir, j) holds Accum for temporal size it, every spatial size ir and
      every number j of translations. */
  ghost predicate AccumTable<M>(A: (int, int) -> real, g: Algebra<M>, ext: seq<int>, U1: (int, int) -> M, U2: (int, int) -> M, it: int)
  {
    && ValidExtents(ext)
    && forall ir, j {:trigger Accum(g, ext, U1, U2, it, ir, j)} :: A(ir, j) == Accum(g, ext, U1, U2, it, ir, j)
  }

  lemma AccumOf<M>(g: Algebra<M>, ext: seq<int>, U1: (int, int) -> M, U2: (int, int) -> M, it: int)
    returns (A: (int, int) -> real)
    requires ValidExtents(ext)
    ensures AccumTable(A, g, ext, U1, U2, it)
  {
    A := (ir, j) => if ValidExtents(ext) then Accum(g, ext, U1, U2, it, ir, j) else 0.0;
  }

  /** Two tables of the same loops have the same sums. */
  lemma {:induction false} SameDirSum(L: (int, int) -> real, K: (int, int) -> real, n: int, k: int)
    requires forall id :: 1 <= id <= k ==> L(n, id) == K(n, id)
    ensures DirSum(L, n, k) == DirSum(K, n, k)
    decreases k
  {
    if k > 0 {
      SameDirSum(L, K, n, k - 1);
    }
  }

  lemma {:induction false} SameSiteSum<M>(L: (int, int) -> real, g: Algebra<M>, nb: (int, int) -> int, dim: int,
                                          U1: (int, int) -> M, U2: (int, int) -> M, it: int, ir: int, start: int, m: int)
    requires Tabulates(L, g, nb, dim, U1, U2, it, ir)
    ensures SiteSum(L, start, m, dim) == SiteSum(Loops(g, nb, dim, U1, U2, it, ir), start, m, dim)
    decreases m
  {
    if m > 0 {
      SameSiteSum(L, g, nb, dim, U1, U2, it, ir, start, m - 1);
      var K := Loops(g, nb, dim, U1, U2, it, ir);
      var n := (m - 1) + start;
      forall id | 1 <= id <= dim - 1
        ensures L(n, id) == K(n, id)
      {
        assert K(n, id) == WLoop(g, nb, dim, U1, U2, n, 0, id, it, ir);
      }
      SameDirSum(L, K, n, dim - 1);
    }
  }

  /** for (id=1; id<=DIM-1; id++) w[inn] += compute_wloop(n, 0, id, it, ir);
      the running value of w[inn] is carried in acc. */
  method AddDirs<M(0)>(g: Algebra<M>, lat: Lattice, iu1: GaugeField<M>, iu2: GaugeField<M>,
                       ghost s1: seq<M>, ghost s2: seq<M>, ghost L: (int, int) -> real,
                       n: int, it: int, ir: int, acc: real) returns (acc': real)
    requires Ready(lat, iu1) && Ready(lat, iu2) && 0 <= n < iu1.vol
    requires iu1.Links() == s1 && iu2.Links() == s2
    requires Tabulates(L, g, NeighbourTable(lat.ext), |lat.ext|, FieldLinks(g, |lat.ext|, s1), FieldLinks(g, |lat.ext|, s2), it, ir)
    ensures acc' == acc + DirSum(L, n, |lat.ext| - 1)
  {
    acc' := acc;
    var id := 1;
    while id <= iu1.dim - 1
      invariant 1 <= id <= iu1.dim
      invariant acc' == acc + DirSum(L, n, id - 1)
    {
      var tr := ComputeWLoop(g, lat, iu1, iu2, n, 0, id, it, ir);
      acc' := acc' + tr;
      id := id + 1;
    }
  }

  /** for (in=0; in<volumeOtherDirs[0]; in++): the loops of every spatial
      direction from every start site in + ilin*volumeOtherDirs[0] of the
      translated slice. */
  method AddSites<M(0)>(g: Algebra<M>, lat: Lattice, iu1: GaugeField<M>, iu2: GaugeField<M>,
                        ghost s1: seq<M>, ghost s2: seq<M>, ghost L: (int, int) -> real,
                        vod: int, ilin: int, it: int, ir: int, acc: real) returns (acc': real)
    requires Ready(lat, iu1) && Ready(lat, iu2) && vod == VolumeOtherDirs(lat.ext, 0)
    requires iu1.Links() == s1 && iu2.Links() == s2
    requires Tabulates(L, g, NeighbourTable(lat.ext), |lat.ext|, FieldLinks(g, |lat.ext|, s1), FieldLinks(g, |lat.ext|, s2), it, ir)
    requires 1 <= it && 0 <= ilin <= lat.ext[0] - it
    ensures acc' == acc + SiteSum(L, ilin * vod, vod, |lat.ext|)
  {
    SliceInRange(lat.ext, it, ilin);
    var start := ilin * vod;
    acc' := acc;
    var n := 0;
    while n < vod
      invariant 0 <= n <= vod
      invariant acc' == acc + SiteSum(L, start, n, |lat.ext|)
    {
      acc' := AddDirs(g, lat, iu1, iu2, s1, s2, L, n + start, it, ir, acc');
      n := n + 1;
    }
  }

  /** A after translation j + 1: the loops of the slice starting at time
      j*it added to those of the first j translations. */
  lemma LineStep<M>(A: (int, int) -> real, L: (int, int) -> real, g: Algebra<M>, ext: seq<int>,
                    U1: (int, int) -> M, U2: (int, int) -> M, it: int, ir: int, j: nat,
                    start: int, before: real, after: real)
    requires AccumTable(A, g, ext, U1, U2, it)
    requires Tabulates(L, g, NeighbourTable(ext), |ext|, U1, U2, it, ir)
    requires start == j * it * VolumeOtherDirs(ext, 0)
    requires before == A(ir, j)
    requires after == before + SiteSum(L, start, VolumeOtherDirs(ext, 0), |ext|)
    ensures after == A(ir, j + 1)
  {
    SameSiteSum(L, g, NeighbourTable(ext), |ext|, U1, U2, it, ir, start, VolumeOtherDirs(ext, 0));
    assert A(ir, j) == Accum(g, ext, U1, U2, it, ir, j);
    assert A(ir, j + 1) == Accum(g, ext, U1, U2, it, ir, j + 1);
  }

  /** One translation ilin = j*it of the loops of temporal size it: the ir
      loop adds, for every requested spatial size ir = rs + r*dr, the loops
      of the translated slice to entry rowStart + r (A as in AccumTable). */
  method AddLine<M(0)>(g: Algebra<M>, lat: Lattice, iu1: GaugeField<M>, iu2: GaugeField<M>,
                       ghost s1: seq<M>, ghost s2: seq<M>, ghost A: (int, int) -> real,
                       vod: int, mp: MeasParams, nr: int,
                       it: int, ilin: int, ghost j: nat, rowStart: int, w: array<real>)
    requires Ready(lat, iu1) && Ready(lat, iu2) && vod == VolumeOtherDirs(lat.ext, 0)
    requires iu1.Links() == s1 && iu2.Links() == s2
    requires AccumTable(A, g, lat.ext, FieldLinks(g, |lat.ext|, s1), FieldLinks(g, |lat.ext|, s2), it)
    requires w as object != iu1.block && w as object != iu2.block
    requires Steps(mp) && nr == NR(mp)
    requires 1 <= it && 0 <= ilin <= lat.ext[0] - it && ilin == j * it
    requires mp.rs <= mp.rf ==> 0 <= rowStart && rowStart + nr <= w.Length
    requires mp.rs <= mp.rf ==> forall o :: rowStart <= o < rowStart + nr ==> w[o] == A(mp.rs + (o - rowStart) * mp.dr, j)
    modifies w
    ensures mp.rs <= mp.rf ==> forall o :: rowStart <= o < rowStart + nr ==> w[o] == A(mp.rs + (o - rowStart) * mp.dr, j + 1)
    ensures forall o :: 0 <= o < w.Length && !(mp.rs <= mp.rf && rowStart <= o < rowStart + nr) ==> w[o] == old(w[o])
  {
    ghost var U1, U2 := FieldLinks(g, |lat.ext|, s1), FieldLinks(g, |lat.ext|, s2);
    var ir := mp.rs;
    var inn := rowStart;
    ghost var r := 0;
    while ir <= mp.rf
      invariant r >= 0 && ir == mp.rs + r * mp.dr && inn == rowStart + r
      invariant mp.rs <= mp.rf ==> r <= nr && 0 <= rowStart <= inn <= rowStart + nr <= w.Length
      invariant mp.rs > mp.rf ==> r == 0
      invariant iu1.Links() == s1 && iu2.Links() == s2
      invariant forall o :: rowStart <= o < inn ==> w[o] == A(mp.rs + (o - rowStart) * mp.dr, j + 1)
      invariant forall o :: 0 <= o < w.Length && !(rowStart <= o < inn) ==> w[o] == old(w[o])
    {
      SpatialSizes(mp, r);
      ghost var L := LoopsOf(g, NeighbourTable(lat.ext), |lat.ext|, U1, U2, it, ir);
      var acc := AddSites(g, lat, iu1, iu2, s1, s2, L, vod, ilin, it, ir, w[inn]);
      LineStep(A, L, g, lat.ext, U1, U2, it, ir, j, ilin * vod, w[inn], acc);
      w[inn] := acc;
      ir, inn, r := ir + mp.dr, inn + 1, r + 1;
    }
    if mp.rs <= mp.rf {
      SpatialSizes(mp, r);
    }
  }

  /** Before any translation nothing is accumulated. */
  lemma AccumStart<M>(A: (int, int) -> real, g: Algebra<M>, ext: seq<int>, U1: (int, int) -> M, U2: (int, int) -> M, it: int, ir: int)
    requires AccumTable(A, g, ext, U1, U2, it)
    ensures A(ir, 0) == 0.0
  {
    assert A(ir, 0) == Accum(g, ext, U1, U2, it, ir, 0);
  }

  /** E(r) holds entry (nn, r) for every r. */
  ghost predicate EntryTable<M>(E: int -> real, g: Algebra<M>, ext: seq<int>, U1: (int, int) -> M, U2: (int, int) -> M,
                                mp: MeasParams, nn: int)
  {
    && ValidExtents(ext) && g.n >= 1 && Steps(mp) && mp.ts <= mp.tf && nn >= 0
    && forall r {:trigger Entry(g, ext, U1, U2, mp, nn, r)} :: E(r) == Entry(g, ext, U1, U2, mp, nn, r)
  }

  lemma EntryOf<M>(g: Algebra<M>, ext: seq<int>, U1: (int, int) -> M, U2: (int, int) -> M, mp: MeasParams, nn: int)
    returns (E: int -> real)
    requires ValidExtents(ext) && g.n >= 1 && Steps(mp) && mp.ts <= mp.tf && nn >= 0
    ensures EntryTable(E, g, ext, U1, U2, mp, nn)
  {
    E := r => if ValidExtents(ext) && g.n >= 1 && Steps(mp) && mp.ts <= mp.tf && nn >= 0 then Entry(g, ext, U1, U2, mp, nn, r) else 0.0;
  }

  /** Entry (nn, r) of a row that fits, through the tables A and E. */
  lemma RowEntry<M>(A: (int, int) -> real, E: int -> real, g: Algebra<M>, ext: seq<int>, U1: (int, int) -> M, U2: (int, int) -> M,
                    mp: MeasParams, nn: int, r: int, it: int, nlin: int)
    requires AccumTable(A, g, ext, U1, U2, it) && EntryTable(E, g, ext, U1, U2, mp, nn)
    requires it == mp.ts + nn * mp.dt && 1 <= it <= ext[0] && nlin == NLin(ext[0] - it, it)
    ensures Norm(g.n, ext, nlin) > 0.0
    ensures E(r) == (if mp.rs <= mp.rf then A(mp.rs + r * mp.dr, nlin) else 0.0) / Norm(g.n, ext, nlin)
  {
    var it', nlin' := RowParts(g.n, ext, mp, nn);
    EntryValue(g, ext, U1, U2, mp, nn, r, it, nlin);
    assert E(r) == Entry(g, ext, U1, U2, mp, nn, r);
    if mp.rs <= mp.rf {
      assert A(mp.rs + r * mp.dr, nlin) == Accum(g, ext, U1, U2, it, mp.rs + r * mp.dr, nlin);
    }
  }

  /** for (ilin=0; ilin<=lbord; ilin+=it, nlin++): every translation of
      the loops of temporal size it, counted in nlin. */
  method AddTranslations<M(0)>(g: Algebra<M>, lat: Lattice, iu1: GaugeField<M>, iu2: GaugeField<M>,
                               ghost s1: seq<M>, ghost s2: seq<M>, ghost A: (int, int) -> real,
                               vod: int, mp: MeasParams, nr: int, it: int, lbord: int, rowStart: int, w: array<real>)
    returns (nlin: int)
    requires Ready(lat, iu1) && Ready(lat, iu2) && vod == VolumeOtherDirs(lat.ext, 0)
    requires iu1.Links() == s1 && iu2.Links() == s2
    requires AccumTable(A, g, lat.ext, FieldLinks(g, |lat.ext|, s1), FieldLinks(g, |lat.ext|, s2), it)
    requires w as object != iu1.block && w as object != iu2.block
    requires Steps(mp) && nr == NR(mp)
    requires 1 <= it && lbord == lat.ext[0] - it && lbord >= 0
    requires mp.rs <= mp.rf ==> 0 <= rowStart && rowStart + nr <= w.Length
    requires mp.rs <= mp.rf ==> forall o :: rowStart <= o < rowStart + nr ==> w[o] == 0.0
    modifies w
    ensures nlin == NLin(lbord, it)
    ensures mp.rs <= mp.rf ==> forall o :: rowStart <= o < rowStart + nr ==> w[o] == A(mp.rs + (o - rowStart) * mp.dr, nlin)
    ensures forall o :: 0 <= o < w.Length && !(mp.rs <= mp.rf && rowStart <= o < rowStart + nr) ==> w[o] == old(w[o])
  {
    if mp.rs <= mp.rf {
      forall o | rowStart <= o < rowStart + nr
        ensures w[o] == A(mp.rs + (o - rowStart) * mp.dr, 0)
      {
        AccumStart(A, g, lat.ext, FieldLinks(g, |lat.ext|, s1), FieldLinks(g, |lat.ext|, s2), it, mp.rs + (o - rowStart) * mp.dr);
      }
    }
    nlin := 0;
    var ilin := 0;
    while ilin <= lbord
      invariant 0 <= nlin <= NLin(lbord, it) && ilin == nlin * it
      invariant iu1.Links() == s1 && iu2.Links() == s2
      invariant mp.rs <= mp.rf ==> forall o :: rowStart <= o < rowStart + nr ==> w[o] == A(mp.rs + (o - rowStart) * mp.dr, nlin)
      invariant forall o :: 0 <= o < w.Length && !(mp.rs <= mp.rf && rowStart <= o < rowStart + nr) ==> w[o] == old(w[o])
    {
      Translations(lbord, it, nlin);
      AddLine(g, lat, iu1, iu2, s1, s2, A, vod, mp, nr, it, ilin, nlin, rowStart, w);
      ilin, nlin := ilin + it, nlin + 1;
    }
    Translations(lbord, it, nlin);
  }

  /** for (ir=0, inn=nn*nr; ir<nr; ir++, inn++) w[inn] /= norm: the row's
      entries become the averages E(ir), E as in EntryTable. */
  method Normalise<M(0)>(g: Algebra<M>, ext: seq<int>, ghost U1: (int, int) -> M, ghost U2: (int, int) -> M,
                         ghost A: (int, int) -> real, ghost E: int -> real, mp: MeasParams, nr: int, nn: int, it: int, nlin: int,
                         norm: real, rowStart: int, w: array<real>)
    requires AccumTable(A, g, ext, U1, U2, it) && EntryTable(E, g, ext, U1, U2, mp, nn)
    requires it == mp.ts + nn * mp.dt && 1 <= it <= ext[0] && nlin == NLin(ext[0] - it, it)
    requires norm == Norm(g.n, ext, nlin)
    requires nr >= 1 ==> 0 <= rowStart && rowStart + nr <= w.Length
    requires forall o :: rowStart <= o < rowStart + nr ==> w[o] == (if mp.rs <= mp.rf then A(mp.rs + (o - rowStart) * mp.dr, nlin) else 0.0)
    modifies w
    ensures forall o :: rowStart <= o < rowStart + nr ==> w[o] == E(o - rowStart)
    ensures forall o :: 0 <= o < w.Length && !(rowStart <= o < rowStart + nr) ==> w[o] == old(w[o])
  {
    var ir := 0;
    var inn := rowStart;
    while ir < nr
      invariant 0 <= ir && inn == rowStart + ir
      invariant nr >= 1 ==> ir <= nr
      invariant nr < 1 ==> ir == 0
      invariant forall o :: rowStart <= o < inn ==> w[o] == E(o - rowStart)
      invariant forall o :: inn <= o < rowStart + nr ==> w[o] == old(w[o])
      invariant forall o :: 0 <= o < w.Length && !(rowStart <= o < rowStart + nr) ==> w[o] == old(w[o])
    {
      RowEntry(A, E, g, ext, U1, U2, mp, nn, ir, it, nlin);
      w[inn] := w[inn] / norm;
      ir, inn := ir + 1, inn + 1;
    }
  }

  /** One row nn of measureWilsonLoop, temporal size it = ts + nn*dt: stops
      with "Lattice too small" when lbord = linearExtent[0] - it < 0;
      otherwise adds the loops of the nlin translations to entries
      nn*nr .. nn*nr+nr-1 and divides each by
      SUN*volumeOtherDirs[0]*nlin*(DIM-1). */
  method MeasureRow<M(0)>(g: Algebra<M>, lat: Lattice, iu1: GaugeField<M>, iu2: GaugeField<M>,
                          ghost s1: seq<M>, ghost s2: seq<M>, vod: int, ext0: int, mp: MeasParams, nr: int,
                          nn: int, it: int, rowStart: int, w: array<real>) returns (err: bool)
    requires Ready(lat, iu1) && Ready(lat, iu2) && vod == VolumeOtherDirs(lat.ext, 0) && ext0 == lat.ext[0]
    requires iu1.Links() == s1 && iu2.Links() == s2
    requires w as object != iu1.block && w as object != iu2.block
    requires g.n >= 1 && Steps(mp) && mp.ts <= mp.tf && nr == NR(mp)
    requires nn >= 0 && it == mp.ts + nn * mp.dt && rowStart == nn * nr
    requires nr >= 1 ==> 0 <= rowStart && rowStart + nr <= w.Length
    requires forall o :: rowStart <= o < rowStart + nr ==> w[o] == 0.0
    modifies w
    ensures err <==> it > ext0
    ensures err ==> forall o :: 0 <= o < w.Length ==> w[o] == old(w[o])
    ensures !err ==> forall o :: rowStart <= o < rowStart + nr ==>
              w[o] == Entry(g, lat.ext, FieldLinks(g, |lat.ext|, s1), FieldLinks(g, |lat.ext|, s2), mp, nn, o - rowStart)
    ensures forall o :: 0 <= o < w.Length && !(rowStart <= o < rowStart + nr) ==> w[o] == old(w[o])
  {
    var lbord := ext0 - it;
    if lbord < 0 {
      return true;
    }
    err := false;
    ghost var U1, U2 := FieldLinks(g, |lat.ext|, s1), FieldLinks(g, |lat.ext|, s2);
    ghost var A := AccumOf(g, lat.ext, U1, U2, it);
    RowSize(mp, nn);
    if mp.rs <= mp.rf {
      SpatialSizes(mp, 0);
    }
    var nlin := AddTranslations(g, lat, iu1, iu2, s1, s2, A, vod, mp, nr, it, lbord, rowStart, w);
    var norm := (g.n * vod * nlin * (|lat.ext| - 1)) as real;
    ghost var E := EntryOf(g, lat.ext, U1, U2, mp, nn);
    Normalise(g, lat.ext, U1, U2, A, E, mp, nr, nn, it, nlin, norm, rowStart, w);
  }

  /** A row that does not fit makes the last requested size not fit. */
  lemma TooLongAt(ext: seq<int>, mp: MeasParams, nn: int)
    requires |ext| >= 1 && Steps(mp) && mp.ts <= mp.tf && 0 <= nn < NT(mp)
    requires mp.ts + nn * mp.dt > ext[0]
    ensures TooLong(ext, mp)
  {
    MulLe(nn, NT(mp) - 1, mp.dt);
  }

  /** The entries of row nn sit at nn*nr .. nn*nr+nr-1. */
  lemma RowTable<M>(g: Algebra<M>, ext: seq<int>, U1: (int, int) -> M, U2: (int, int) -> M, mp: MeasParams, nn: int, rowStart: int)
    requires ValidExtents(ext) && g.n >= 1 && Steps(mp) && mp.ts <= mp.tf && NR(mp) >= 1
    requires nn >= 0 && rowStart == nn * NR(mp)
    ensures rowStart >= 0
    ensures forall o :: rowStart <= o < rowStart + NR(mp) ==> Table(g, ext, U1, U2, mp, o) == Entry(g, ext, U1, U2, mp, nn, o - rowStart)
  {
    MulLe(0, nn, NR(mp));
    forall o | rowStart <= o < rowStart + NR(mp)
      ensures Table(g, ext, U1, U2, mp, o) == Entry(g, ext, U1, U2, mp, nn, o - rowStart)
    {
      TableIndex(g, ext, U1, U2, mp, nn, o - rowStart);
    }
  }

  /** for (it=ts; it<=tf; it+=dt, nn++): the rows of w, one per temporal
      size, until one does not fit on the lattice. */
  method MeasureRows<M(0)>(g: Algebra<M>, lat: Lattice, iu1: GaugeField<M>, iu2: GaugeField<M>,
                           ghost s1: seq<M>, ghost s2: seq<M>, vod: int, ext0: int, mp: MeasParams, nr: int,
                           w: array<real>) returns (err: bool)
    requires Ready(lat, iu1) && Ready(lat, iu2) && vod == VolumeOtherDirs(lat.ext, 0) && ext0 == lat.ext[0]
    requires iu1.Links() == s1 && iu2.Links() == s2
    requires w as object != iu1.block && w as object != iu2.block
    requires g.n >= 1 && Steps(mp) && nr == NR(mp)
    requires NT(mp) * nr <= w.Length
    requires forall o :: 0 <= o < NT(mp) * nr ==> w[o] == 0.0
    modifies w
    ensures err <==> TooLong(lat.ext, mp)
    ensures !err && mp.ts <= mp.tf && nr >= 1 ==> forall o :: 0 <= o < NT(mp) * nr ==>
              w[o] == Table(g, lat.ext, FieldLinks(g, |lat.ext|, s1), FieldLinks(g, |lat.ext|, s2), mp, o)
    ensures mp.ts > mp.tf ==> forall o :: 0 <= o < w.Length ==> w[o] == old(w[o])
    ensures forall o :: 0 <= o < w.Length && !(0 <= o < NT(mp) * nr) ==> w[o] == old(w[o])
  {
    ghost var U1, U2 := FieldLinks(g, |lat.ext|, s1), FieldLinks(g, |lat.ext|, s2);
    err := false;
    var nn := 0;
    var it := mp.ts;
    var rowStart := 0;
    while it <= mp.tf
      invariant nn >= 0 && it == mp.ts + nn * mp.dt && rowStart == nn * nr
      invariant mp.ts <= mp.tf ==> nn <= NT(mp)
      invariant mp.ts > mp.tf ==> nn == 0
      invariant nn >= 1 ==> mp.ts + (nn - 1) * mp.dt <= ext0
      invariant iu1.Links() == s1 && iu2.Links() == s2
      invariant nr >= 1 ==> 0 <= rowStart <= w.Length
      invariant mp.ts <= mp.tf && nr >= 1 ==> forall o :: 0 <= o < rowStart ==> w[o] == Table(g, lat.ext, U1, U2, mp, o)
      invariant forall o :: 0 <= o < w.Length && !(0 <= o < rowStart) ==> w[o] == old(w[o])
    {
      TemporalSizes(mp, nn);
      if nr >= 1 {
        MulLe(0, nn, nr);
        MulLe(nn + 1, NT(mp), nr);
        assert rowStart + nr == (nn + 1) * nr;
      }
      err := MeasureRow(g, lat, iu1, iu2, s1, s2, vod, ext0, mp, nr, nn, it, rowStart, w);
      if err {
        TooLongAt(lat.ext, mp, nn);
        return;
      }
      if nr >= 1 {
        RowTable(g, lat.ext, U1, U2, mp, nn, rowStart);
      }
      assert it + mp.dt == mp.ts + (nn + 1) * mp.dt;
      nn, it, rowStart := nn + 1, it + mp.dt, rowStart + nr;
    }
    if mp.ts <= mp.tf {
      TemporalSizes(mp, nn);
    }
  }

  /** for (nn=0; nn<nloop; nn++) w[nn] = 0. */
  method ZeroEntries(w: array<real>, nloop: int)
    requires nloop <= w.Length
    modifies w
    ensures forall o :: 0 <= o < nloop ==> w[o] == 0.0
    ensures forall o :: 0 <= o < w.Length && !(0 <= o < nloop) ==> w[o] == old(w[o])
  {
    var nn := 0;
    while nn < nloop
      invariant 0 <= nn && (nloop >= 0 ==> nn <= nloop) && (nloop < 0 ==> nn == 0)
      invariant forall o :: 0 <= o < nn ==> w[o] == 0.0
      invariant forall o :: 0 <= o < w.Length && !(0 <= o < nn) ==> w[o] == old(w[o])
    {
      w[nn] := 0.0;
      nn := nn + 1;
    }
  }

  /** smearing_APE_temporal / smearing_APE_spatial on a working copy: the
      smearing routines are not part of this model; each is the function
      f of the field's links, which keeps their number. */
  method Smear<M(0)>(u: GaugeField<M>, f: seq<M> -> seq<M>)
    requires u.Valid() && |f(u.Links())| == u.block.Length
    modifies u.block
    ensures u.Valid()
    ensures u.Links() == f(old(u.Links()))
  {
    var v := f(u.block[..]);
    forall o | 0 <= o < u.block.Length {
      u.block[o] := v[o];
    }
  }

  /** The static state of measureWilsonLoop: the flag init and the two
      working fields, iu1 (smeared in time) and iu2 (smeared in space),
      allocated on the first call and reused afterwards. */
  class WilsonWorkspace<M(0)> {
    const vol: nat
    const dim: nat
    var init: bool
    var iu1: GaugeField?<M>
    var iu2: GaugeField?<M>
    ghost var Repr: set<object>

    ghost predicate Valid()
      reads this, Repr
    {
      && (!init ==> Repr == {})
      && (init ==>
            && iu1 != null && iu2 != null
            && Repr == {iu1, iu2, iu1.block, iu2.block, iu1.pu, iu2.pu}
            && iu1.Valid() && iu2.Valid() && iu1.block != iu2.block
            && iu1.vol == vol && iu2.vol == vol && iu1.dim == dim && iu2.dim == dim)
    }

    /** Program start: init == 0, nothing allocated yet. */
    constructor (v: nat, d: nat)
      ensures Valid() && !init && vol == v && dim == d
    {
      vol, dim := v, d;
      init := false;
      iu1, iu2 := null, null;
      Repr := {};
    }

    /** if (init==0) { allocateGaugeField(iu1); allocateGaugeField(iu2); init=1; } */
    method AllocateOnce()
      requires Valid()
      modifies this
      ensures Valid() && init && fresh(Repr - old(Repr))
      ensures old(init) ==> Repr == old(Repr) && iu1 == old(iu1) && iu2 == old(iu2)
    {
      if !init {
        iu1 := new GaugeField.Allocate(vol, dim);
        iu2 := new GaugeField.Allocate(vol, dim);
        init := true;
        Repr := {iu1, iu2, iu1.block, iu2.block, iu1.pu, iu2.pu};
      }
    }

    /** copyGaugeField(pu, iu1); copyGaugeField(pu, iu2); then the temporal
        smearing of iu1 and the spatial smearing of iu2. */
    method LoadSmeared(pu: GaugeField<M>, smearT: seq<M> -> seq<M>, smearS: seq<M> -> seq<M>)
      requires Valid() && init && pu.Valid() && vol == pu.vol && dim == pu.dim && pu.block !in Repr
      requires |smearT(pu.Links())| == |pu.Links()| && |smearS(pu.Links())| == |pu.Links()|
      modifies iu1.block, iu2.block
      ensures Valid()
      ensures pu.Links() == old(pu.Links())
      ensures iu1.Links() == smearT(pu.Links()) && iu2.Links() == smearS(pu.Links())
    {
      CopyGaugeField(pu, iu1);
      CopyGaugeField(pu, iu2);
      Smear(iu1, smearT);
      Smear(iu2, smearS);
    }

    /** measureWilsonLoop(w): the Wilson loops W(it, ir) for the requested
        sizes, averaged over the lattice, on copies of the field pu smeared
        by smearT (iu1, the temporal links) and smearS (iu2, the spatial
        links); w[nn*nr + r] gets the loop of temporal size ts + nn*dt and
        spatial size rs + r*dr.  The measurement stops with an error when a
        requested temporal size exceeds linearExtent[0]. */
    method MeasureWilsonLoop(g: Algebra<M>, lat: Lattice, pu: GaugeField<M>, mp: MeasParams,
                             smearT: seq<M> -> seq<M>, smearS: seq<M> -> seq<M>, w: array<real>)
      returns (err: bool)
      requires Valid() && lat.Valid()
      requires pu.Valid() && pu.vol == Volume(lat.ext) && pu.dim == |lat.ext| && vol == pu.vol && dim == pu.dim
      requires pu.block !in Repr && w !in Repr && w as object != pu.block
      requires g.n >= 1 && Steps(mp)
      requires |smearT(pu.Links())| == |pu.Links()| && |smearS(pu.Links())| == |pu.Links()|
      requires NT(mp) * NR(mp) <= w.Length
      modifies this, Repr, w
      ensures Valid() && init && fresh(Repr - old(Repr))
      ensures pu.Links() == old(pu.Links())
      ensures err <==> TooLong(lat.ext, mp)
      ensures !err && mp.ts <= mp.tf && NR(mp) >= 1 ==> forall o :: 0 <= o < NT(mp) * NR(mp) ==>
                w[o] == Table(g, lat.ext, FieldLinks(g, |lat.ext|, smearT(pu.Links())), FieldLinks(g, |lat.ext|, smearS(pu.Links())), mp, o)
      ensures mp.ts > mp.tf ==> forall o :: 0 <= o < NT(mp) * NR(mp) ==> w[o] == 0.0
      ensures forall o :: 0 <= o < w.Length && !(0 <= o < NT(mp) * NR(mp)) ==> w[o] == old(w[o])
    {
      AllocateOnce();
      var nt := CDiv(mp.tf - mp.ts, mp.dt) + 1;
      var nr := CDiv(mp.rf - mp.rs, mp.dr) + 1;
      var nloop := nt * nr;
      ZeroEntries(w, nloop);

      LoadSmeared(pu, smearT, smearS);
      var vod := lat.volumeOtherDirs[0];
      var ext0 := lat.linearExtent[0];
      err := MeasureRows(g, lat, iu1, iu2, iu1.Links(), iu2.Links(), vod, ext0, mp, nr, w);
    }
  }

  // ---------------------------------------------------------------------------
  // Proof helpers: steps of real and integer arithmetic the verifier needs
  // spelled out; they have no counterpart in the C source.

  lemma DivNonNegative(o: int, m: int)
    requires o >= 0 && m >= 1
    ensures o / m >= 0
  {
  }

  lemma QuotientOne(e: real, a: real, m: real)
    requires m > 0.0 && a == m && e == a / m
    ensures e == 1.0
  {
  }

  lemma MulAssoc(a: int, b: int, c: int)
    ensures a * (b * c) == a * b * c
  {
  }
}
