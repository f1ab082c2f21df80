/** Program initialisation (modules/admin/init.c): the run-parameter check,
    the neighbour table with the lattice parameters, and the gauge field's
    storage, its cold start and its copy.

    The C program keeps the neighbour table `neib[VOL][2*DIM]` and the struct
    `latParams` as globals; here they are the fields of a `Lattice` object.
    A gauge field is one contiguous block of VOL*DIM link matrices addressed
    through a table of pointers `pu[site][dir]`; here the block is an array
    and the pointer table an array of offsets into it. */
module Init {

  import opened CArith
  import opened Geometry
  import opened LinkAlgebra

  // ---------------------------------------------------------------------------
  // initProgram

  datatype RunParams = RunParams(
    numConfs: int,        // number of sweeps
    decorSteps: int,      // decorrelation steps
    numThermConfs: int,   // thermalisation sweeps
    writeConfsFreq: int,  // write every writeConfsFreq sweeps (<= 0: never)
    beta: real
  )

  /** initProgram's test as written: the four conditions left to right, the
      last one computing `%` before it looks at the sign of writeConfsFreq.
      Some(true) when error() is called, Some(false) when the run goes on,
      None when the `%` is reached with writeConfsFreq == 0, a division by
      zero. */
  function RejectedAsWritten(p: RunParams): Option<bool>
  {
    if p.numConfs <= 0 || p.decorSteps < 0 || p.numThermConfs < 0 then Some(true)
    else if p.writeConfsFreq == 0 then None
    else Some(CRem(p.numConfs - p.numThermConfs, p.writeConfsFreq) != 0 && p.writeConfsFreq > 0)
  }

  /** initProgram's check with the sign of writeConfsFreq tested before the
      `%`, so that writeConfsFreq <= 0 means "never write" for every input:
      the parameters are accepted exactly when there is at least one sweep,
      no count is negative and, when configurations are written, the
      post-thermalisation sweep count is a multiple of the write frequency. */
  function InitProgram(p: RunParams): (ok: bool)
    ensures ok <==>
      && p.numConfs > 0 && p.decorSteps >= 0 && p.numThermConfs >= 0
      && (p.writeConfsFreq > 0 ==> (p.numConfs - p.numThermConfs) % p.writeConfsFreq == 0)
  {
    if p.writeConfsFreq > 0 then
      CRemZero(p.numConfs - p.numThermConfs, p.writeConfsFreq);
      !(p.numConfs <= 0 || p.decorSteps < 0 || p.numThermConfs < 0
        || CRem(p.numConfs - p.numThermConfs, p.writeConfsFreq) != 0)
    else
      !(p.numConfs <= 0 || p.decorSteps < 0 || p.numThermConfs < 0)
  }

  /** Wherever the test as written is defined, it calls error() exactly for
      the parameters InitProgram refuses. */
  lemma InitProgramAgrees(p: RunParams)
    ensures RejectedAsWritten(p).Some? ==> (RejectedAsWritten(p).value <==> !InitProgram(p))
  {
    if p.writeConfsFreq != 0 {
      CRemZero(p.numConfs - p.numThermConfs, p.writeConfsFreq);
    }
  }

  /** One sweep, no thermalisation and no writes: the corrected check
      accepts these parameters, the test as written divides by zero. */
  lemma InitDividesByZero()
    ensures RejectedAsWritten(RunParams(1, 0, 0, 0, 1.0)) == None
    ensures InitProgram(RunParams(1, 0, 0, 0, 1.0))
  {
  }

  // ---------------------------------------------------------------------------
  // initArrayOfNeighbours

  /** The lattice parameters and the neighbour table. */
  class Lattice {
    const ext: seq<int>                 // LENGT, LENGS1, ... (compile-time constants)
    var linearExtent: seq<int>          // latParams.linearExtent
    var volumeFactor: seq<int>          // latParams.volumeFactor
    var volumeOtherDirs: seq<int>       // latParams.volumeOtherDirs
    const neib: array2<int>             // neib[VOL][2*DIM]

    /** The static storage of the table, before initArrayOfNeighbours fills it. */
    constructor (extents: seq<int>)
      requires ValidExtents(extents)
      ensures ext == extents && fresh(neib)
      ensures neib.Length0 == Volume(ext) && neib.Length1 == 2 * |ext|
    {
      ext := extents;
      VolumeFactorFacts(extents, 0);
      neib := new int[Volume(extents), 2 * |extents|];
    }

    /** The lattice parameters hold their values and every entry of the table
        is the periodic neighbour of its site in its signed direction. */
    ghost predicate Valid()
      reads this, neib
    {
      ParamsHeld() && TableFilled()
    }

    /** latParams holds the extents and their mixed-radix place values. */
    ghost predicate ParamsHeld()
      reads this
    {
      && linearExtent == ext
      && volumeFactor == seq(|ext|, d requires 0 <= d => VolumeFactor(ext, d))
      && volumeOtherDirs == seq(|ext|, d requires 0 <= d => VolumeOtherDirs(ext, d))
    }

    /** neib[i][k] is the neighbour of site i in signed direction k. */
    ghost predicate TableFilled()
      reads this, neib
    {
      && ValidExtents(ext)
      && neib.Length0 == Volume(ext) && neib.Length1 == 2 * |ext|
      && forall i, k :: 0 <= i < Volume(ext) && 0 <= k < 2 * |ext| ==> neib[i, k] == Neighbour(ext, i, k)
    }

    /** initArrayOfNeighbours: record the lattice parameters and fill the table. */
    method InitArrayOfNeighbours()
      requires ValidExtents(ext)
      requires neib.Length0 == Volume(ext) && neib.Length1 == 2 * |ext|
      modifies this, neib
      ensures Valid()
    {
      var dim := |ext|;
      linearExtent := ext;
      volumeFactor := seq(dim, d requires 0 <= d => VolumeFactor(ext, d));
      volumeOtherDirs := seq(dim, d requires 0 <= d => VolumeOtherDirs(ext, d));
      var vol := Volume(ext);
      var i := 0;
      while i < vol
        modifies neib
        invariant 0 <= i <= vol
        invariant forall i', k :: 0 <= i' < i && 0 <= k < 2 * dim ==> neib[i', k] == Neighbour(ext, i', k)
      {
        var coord := CoordinatesOf(i);
        FillRow(i, coord);
        i := i + 1;
      }
    }

    /** The loop over dir1 of initArrayOfNeighbours: row i of the table, the
        neighbours of site i in the directions +dir1 and -dir1; the other
        rows keep their entries. */
    method FillRow(i: int, coord: seq<int>)
      requires ValidExtents(ext) && 0 <= i < Volume(ext)
      requires neib.Length0 == Volume(ext) && neib.Length1 == 2 * |ext|
      requires volumeFactor == seq(|ext|, d requires 0 <= d => VolumeFactor(ext, d))
      requires coord == Coordinates(ext, i)
      modifies neib
      ensures forall k :: 0 <= k < 2 * |ext| ==> neib[i, k] == Neighbour(ext, i, k)
      ensures forall i', k :: 0 <= i' < neib.Length0 && i' != i && 0 <= k < neib.Length1 ==> neib[i', k] == old(neib[i', k])
    {
      var dim := |ext|;
      CoordinatesInRange(ext, i);
      var dir1 := 0;
      while dir1 < dim
        invariant 0 <= dir1 <= dim
        invariant forall i', k :: 0 <= i' < neib.Length0 && i' != i && 0 <= k < neib.Length1 ==> neib[i', k] == old(neib[i', k])
        invariant forall k :: 0 <= k < dir1 ==> neib[i, k] == Neighbour(ext, i, k)
        invariant forall k :: dim <= k < dim + dir1 ==> neib[i, k] == Neighbour(ext, i, k)
      {
        // positive direction
        var newCoord := coord[dir1 := (coord[dir1] + 1) % ext[dir1]];
        var n := IndexOf(newCoord);
        assert n == Neighbour(ext, i, dir1);
        neib[i, dir1] := n;
        // negative direction
        newCoord := newCoord[dir1 := (coord[dir1] + ext[dir1] - 1) % ext[dir1]];
        assert newCoord == Shift(ext, coord, dir1, ext[dir1] - 1);
        n := IndexOf(newCoord);
        assert n == Neighbour(ext, i, dir1 + dim);
        neib[i, dir1 + dim] := n;
        dir1 := dir1 + 1;
      }
    }

    /** The coordinate loop of initArrayOfNeighbours for one site. */
    method CoordinatesOf(i: int) returns (coord: seq<int>)
      requires ValidExtents(ext)
      requires volumeFactor == seq(|ext|, d requires 0 <= d => VolumeFactor(ext, d))
      ensures coord == Coordinates(ext, i)
    {
      coord := [];
      var index := i;
      var dir1 := 0;
      while dir1 < |ext|
        invariant 0 <= dir1 <= |ext|
        invariant coord + DecodeFrom(ext, index, dir1) == Coordinates(ext, i)
      {
        VolumeFactorFacts(ext, dir1);
        coord := coord + [index / volumeFactor[dir1]];
        index := index % volumeFactor[dir1];
        dir1 := dir1 + 1;
      }
    }

    /** The accumulation `neib[i][k] += newCoord[dir2]*volumeFactor[dir2]`. */
    method IndexOf(newCoord: seq<int>) returns (n: int)
      requires ValidExtents(ext) && |newCoord| == |ext|
      requires volumeFactor == seq(|ext|, d requires 0 <= d => VolumeFactor(ext, d))
      ensures n == SiteIndex(ext, newCoord)
    {
      n := 0;
      var dir2 := 0;
      while dir2 < |ext|
        invariant 0 <= dir2 <= |ext|
        invariant n + EncodeFrom(ext, newCoord, dir2) == SiteIndex(ext, newCoord)
      {
        n := n + newCoord[dir2] * volumeFactor[dir2];
        dir2 := dir2 + 1;
      }
    }
  }

  // ---------------------------------------------------------------------------
  // The gauge field's storage

  /** The offset of pu[ind][dir] in the contiguous block. */
  function Slot(dim: nat, ind: int, dir: int): int
  {
    ind * dim + dir
  }

  /** The VOL*DIM pointers address pairwise distinct slots inside the block. */
  lemma SlotLayout(vol: nat, dim: nat, ind: int, dir: int, ind': int, dir': int)
    requires 0 <= ind < vol && 0 <= dir < dim && 0 <= ind' < vol && 0 <= dir' < dim
    ensures 0 <= Slot(dim, ind, dir) < vol * dim
    ensures Slot(dim, ind, dir) == Slot(dim, ind', dir') ==> ind == ind' && dir == dir'
  {
    MulLe(ind, vol - 1, dim);
    MulLe(0, ind, dim);
    if Slot(dim, ind, dir) == Slot(dim, ind', dir') {
      DivModUnique(Slot(dim, ind, dir), dim, ind, dir);
      DivModUnique(Slot(dim, ind', dir'), dim, ind', dir');
    }
  }

  /** Every slot of the block is addressed by some pointer. */
  lemma SlotCovers(vol: nat, dim: nat, o: int)
    requires 0 <= o < vol * dim
    ensures dim > 0 && 0 <= o / dim < vol && 0 <= o % dim < dim
    ensures Slot(dim, o / dim, o % dim) == o
  {
    DivLess(o, dim, vol);
  }

  /** The running offset of the fill loops stays inside the block. */
  lemma OffsetBound(vol: nat, dim: nat, ind: int, dir: int)
    requires 0 <= ind < vol && 0 <= dir <= dim
    ensures 0 <= ind * dim + dir <= vol * dim
    ensures (ind + 1) * dim == ind * dim + dim
  {
    MulLe(ind + 1, vol, dim);
    MulLe(0, ind, dim);
  }

  /** A field as a function of site and direction, *pu[site][dir], read from
      its links in block order; off the lattice it is the unit matrix. */
  function FieldLinks<M>(g: Algebra<M>, dim: nat, links: seq<M>): (int, int) -> M
  {
    (site, dir) => if 0 <= dir < dim && 0 <= Slot(dim, site, dir) < |links| then links[Slot(dim, site, dir)] else g.unit
  }

  /** A gauge field: sun_mat *pu[VOL][DIM] pointing into one block. */
  class GaugeField<M(0)> {
    const vol: nat
    const dim: nat
    const block: array<M>        // the malloc'ed DIM*VOL matrices
    const pu: array2<int>        // pu[ind][dir], as an offset into block

    ghost predicate Valid()
      reads this, pu
    {
      && block.Length == vol * dim
      && pu.Length0 == vol && pu.Length1 == dim
      && forall ind, dir :: 0 <= ind < vol && 0 <= dir < dim ==> pu[ind, dir] == Slot(dim, ind, dir)
    }

    /** *pu[ind][dir] */
    function Link(ind: int, dir: int): M
      requires Valid() && 0 <= ind < vol && 0 <= dir < dim
      reads this, pu, block
    {
      SlotLayout(vol, dim, ind, dir, ind, dir);
      block[pu[ind, dir]]
    }

    /** The field's value: the links in block order, site-major. */
    ghost function Links(): seq<M>
      reads this, block
    {
      block[..]
    }

    /** allocateGaugeField: one block, pointers at consecutive offsets. */
    constructor Allocate(v: nat, d: nat)
      ensures vol == v && dim == d
      ensures Valid() && fresh(block) && fresh(pu)
    {
      vol, dim := v, d;
      var iu := new M[d * v];
      var p := new int[v, d];
      var ind, zu := 0, 0;
      while ind < v
        invariant 0 <= ind <= v && zu == ind * d
        invariant forall i, j :: 0 <= i < ind && 0 <= j < d ==> p[i, j] == Slot(d, i, j)
      {
        var dir := 0;
        while dir < d
          invariant 0 <= dir <= d && zu == ind * d + dir
          invariant forall i, j :: 0 <= i < ind && 0 <= j < d ==> p[i, j] == Slot(d, i, j)
          invariant forall j :: 0 <= j < dir ==> p[ind, j] == Slot(d, ind, j)
        {
          p[ind, dir] := zu;
          dir, zu := dir + 1, zu + 1;
        }
        OffsetBound(v, d, ind, d);
        ind := ind + 1;
      }
      block, pu := iu, p;
    }

    /** The flag-0 branch of initGaugeField: every slot gets the unit matrix. */
    method SetCold(g: Algebra<M>)
      requires Valid()
      modifies block
      ensures Valid()
      ensures forall ind, dir :: 0 <= ind < vol && 0 <= dir < dim ==> Link(ind, dir) == g.unit
      ensures forall o :: 0 <= o < |Links()| ==> Links()[o] == g.unit
    {
      var ini := g.unit;
      var ind := 0;
      ghost var zu := 0;
      while ind < vol
        invariant 0 <= ind <= vol && zu == ind * dim && zu <= block.Length
        invariant forall o :: 0 <= o < zu ==> block[o] == g.unit
      {
        var dir := 0;
        while dir < dim
          invariant 0 <= dir <= dim && zu == ind * dim + dir && zu <= block.Length
          invariant forall o :: 0 <= o < zu ==> block[o] == g.unit
        {
          SlotLayout(vol, dim, ind, dir, ind, dir);
          OffsetBound(vol, dim, ind, dir + 1);
          block[pu[ind, dir]] := ini;
          dir, zu := dir + 1, zu + 1;
        }
        assert (ind + 1) * dim == ind * dim + dim;
        ind := ind + 1;
      }
      forall ind, dir | 0 <= ind < vol && 0 <= dir < dim
        ensures Link(ind, dir) == g.unit
      {
        SlotLayout(vol, dim, ind, dir, ind, dir);
      }
    }

    /** The flag-1 branch of initGaugeField: the random matrices drawn in turn
        (su2RandomMatrix/su3RandomMatrix are not part of this model; their
        successive results are the parameter `draws`). */
    method SetHot(draws: seq<M>)
      requires Valid() && |draws| == vol * dim
      modifies block
      ensures Valid()
      ensures Links() == draws
      ensures forall ind, dir :: 0 <= ind < vol && 0 <= dir < dim ==>
        0 <= Slot(dim, ind, dir) < |draws| && Link(ind, dir) == draws[Slot(dim, ind, dir)]
    {
      var ind := 0;
      ghost var zu := 0;
      while ind < vol
        invariant 0 <= ind <= vol && zu == ind * dim && zu <= block.Length
        invariant forall o :: 0 <= o < zu ==> block[o] == draws[o]
      {
        var dir := 0;
        while dir < dim
          invariant 0 <= dir <= dim && zu == ind * dim + dir && zu <= block.Length
          invariant forall o :: 0 <= o < zu ==> block[o] == draws[o]
        {
          SlotLayout(vol, dim, ind, dir, ind, dir);
          OffsetBound(vol, dim, ind, dir + 1);
          block[pu[ind, dir]] := draws[pu[ind, dir]];
          dir, zu := dir + 1, zu + 1;
        }
        assert (ind + 1) * dim == ind * dim + dim;
        ind := ind + 1;
      }
      forall ind, dir | 0 <= ind < vol && 0 <= dir < dim
        ensures 0 <= Slot(dim, ind, dir) < |draws| && Link(ind, dir) == draws[Slot(dim, ind, dir)]
      {
        SlotLayout(vol, dim, ind, dir, ind, dir);
      }
    }
  }

  datatype InitError = WrongFlag

  /** initGaugeField(flag): anything but 0 (cold) or 1 (hot) is an error;
      otherwise a fresh field whose links are all unit, or the random draws. */
  method InitGaugeField<M(0)>(g: Algebra<M>, vol: nat, dim: nat, flag: int, draws: seq<M>)
    returns (u: GaugeField?<M>, err: Option<InitError>)
    requires flag == 1 ==> |draws| == vol * dim
    ensures err.Some? <==> flag != 0 && flag != 1
    ensures err.None? ==> u != null && fresh(u) && fresh(u.block) && u.Valid()
    ensures err.None? ==> u.vol == vol && u.dim == dim
    ensures err.None? && flag == 0 ==>
      forall ind, dir :: 0 <= ind < vol && 0 <= dir < dim ==> u.Link(ind, dir) == g.unit
    ensures err.None? && flag == 1 ==>
      forall ind, dir :: 0 <= ind < vol && 0 <= dir < dim ==>
        0 <= Slot(dim, ind, dir) < |draws| && u.Link(ind, dir) == draws[Slot(dim, ind, dir)]
  {
    if flag != 0 && flag != 1 {
      return null, Some(WrongFlag);
    }
    u := new GaugeField.Allocate(vol, dim);
    if flag == 0 {
      u.SetCold(g);
    } else {
      u.SetHot(draws);
    }
    err := None;
  }

  datatype Option<T> = None | Some(value: T)

  /** copyGaugeField(u1, u2): every slot of u2 takes the value of the same slot
      of u1; u1 is left as it was (the two may even share their block). */
  method CopyGaugeField<M(0)>(u1: GaugeField<M>, u2: GaugeField<M>)
    requires u1.Valid() && u2.Valid() && u1.vol == u2.vol && u1.dim == u2.dim
    modifies u2.block
    ensures u1.Valid() && u2.Valid()
    ensures u2.Links() == old(u1.Links())
    ensures u1.Links() == old(u1.Links())
  {
    var vol, dim := u1.vol, u1.dim;
    ghost var src := u1.block[..];
    ghost var zu := 0;
    var ii := 0;
    while ii < vol
      invariant 0 <= ii <= vol && zu == ii * dim && zu <= u2.block.Length
      invariant u1.block[..] == src
      invariant forall o :: 0 <= o < zu ==> u2.block[o] == src[o]
    {
      var jj := 0;
      while jj < dim
        invariant 0 <= jj <= dim && zu == ii * dim + jj && zu <= u2.block.Length
        invariant u1.block[..] == src
        invariant forall o :: 0 <= o < zu ==> u2.block[o] == src[o]
      {
        SlotLayout(vol, dim, ii, jj, ii, jj);
        OffsetBound(vol, dim, ii, jj + 1);
        u2.block[u2.pu[ii, jj]] := u1.block[u1.pu[ii, jj]];
        jj, zu := jj + 1, zu + 1;
      }
      OffsetBound(vol, dim, ii, dim);
      ii := ii + 1;
    }
    assert u2.block[..] == src;
  }
}
