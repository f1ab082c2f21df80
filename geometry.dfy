/** Lattice geometry: the mixed-radix numbering of sites and the periodic
    nearest-neighbour relation (modules/admin/init.c, initArrayOfNeighbours).

    A site index i in [0, VOL) stands for the coordinate vector whose
    direction 0 (time) has the largest stride VOL/extent[0] and whose last
    direction has stride 1.  Everything here is a specification function;
    the loops that fill the neighbour table live in module Init. */
module Geometry {

  import opened CArith

  /** The lattices the program is compiled for: DIM in {2,3,4}, every extent positive. */
  predicate ValidExtents(ext: seq<int>)
  {
    2 <= |ext| <= 4 && forall d :: 0 <= d < |ext| ==> ext[d] >= 1
  }

  /** The product of the extents of directions k, k+1, ... */
  function ProdFrom(ext: seq<int>, k: nat): int
    decreases |ext| - k
  {
    if k >= |ext| then 1 else ext[k] * ProdFrom(ext, k + 1)
  }

  /** The product of the extents of directions k, k+1, ... except direction d. */
  function ProdExcept(ext: seq<int>, d: nat, k: nat): int
    decreases |ext| - k
  {
    if k >= |ext| then 1
    else (if k == d then 1 else ext[k]) * ProdExcept(ext, d, k + 1)
  }

  /** VOL */
  function Volume(ext: seq<int>): int
  {
    ProdFrom(ext, 0)
  }

  /** volumeFactor[d]: the stride of direction d. */
  function VolumeFactor(ext: seq<int>, d: nat): int
  {
    ProdFrom(ext, d + 1)
  }

  /** volumeOtherDirs[d]: the number of sites of a slice at fixed coordinate d. */
  function VolumeOtherDirs(ext: seq<int>, d: nat): int
  {
    ProdExcept(ext, d, 0)
  }

  lemma {:induction false} ProdFromPositive(ext: seq<int>, k: nat)
    requires ValidExtents(ext)
    ensures ProdFrom(ext, k) >= 1
    decreases |ext| - k
  {
    if k < |ext| {
      ProdFromPositive(ext, k + 1);
      MulPositive(ext[k], ProdFrom(ext, k + 1));
    }
  }

  /** The stride of a direction times its extent is the stride of the previous one;
      volumeFactor[DIM-1] == 1 and volumeFactor[0] * extent[0] == VOL. */
  lemma VolumeFactorFacts(ext: seq<int>, d: nat)
    requires ValidExtents(ext) && d < |ext|
    ensures VolumeFactor(ext, d) >= 1
    ensures d == |ext| - 1 ==> VolumeFactor(ext, d) == 1
    ensures d > 0 ==> VolumeFactor(ext, d - 1) == ext[d] * VolumeFactor(ext, d)
    ensures Volume(ext) == ext[0] * VolumeFactor(ext, 0)
    ensures Volume(ext) >= 1
  {
    ProdFromPositive(ext, d + 1);
    ProdFromPositive(ext, 0);
  }

  /** ProdExcept agrees with ProdFrom once the excluded direction is passed. */
  lemma {:induction false} ProdExceptPast(ext: seq<int>, d: nat, k: nat)
    requires d < k
    ensures ProdExcept(ext, d, k) == ProdFrom(ext, k)
    decreases |ext| - k
  {
    if k < |ext| {
      ProdExceptPast(ext, d, k + 1);
    }
  }

  /** Multiplying the slice volume back by the extent of its direction gives VOL. */
  lemma {:induction false} ProdExceptTimesExtent(ext: seq<int>, d: nat, k: nat)
    requires k <= d < |ext|
    ensures ext[d] * ProdExcept(ext, d, k) == ProdFrom(ext, k)
    decreases |ext| - k
  {
    if k == d {
      ProdExceptPast(ext, d, k + 1);
    } else {
      ProdExceptTimesExtent(ext, d, k + 1);
      calc {
        ext[d] * ProdExcept(ext, d, k);
        ext[d] * (ext[k] * ProdExcept(ext, d, k + 1));
        ext[k] * (ext[d] * ProdExcept(ext, d, k + 1));
        ext[k] * ProdFrom(ext, k + 1);
      }
    }
  }

  /** volumeOtherDirs[d] * extent[d] == VOL, and volumeOtherDirs[0] is the stride of time. */
  lemma VolumeOtherDirsFacts(ext: seq<int>, d: nat)
    requires ValidExtents(ext) && d < |ext|
    ensures ext[d] * VolumeOtherDirs(ext, d) == Volume(ext)
    ensures VolumeOtherDirs(ext, 0) == VolumeFactor(ext, 0)
    ensures VolumeOtherDirs(ext, d) >= 1
  {
    ProdExceptTimesExtent(ext, d, 0);
    ProdExceptPast(ext, 0, 1);
    ProdFromPositive(ext, 0);
    MulLe(VolumeOtherDirs(ext, d), 0, ext[d]);
  }

  // ---------------------------------------------------------------------------
  // Coordinates

  /** Coordinates that lie inside the lattice. */
  predicate InRange(ext: seq<int>, c: seq<int>)
  {
    |c| == |ext| && forall d :: 0 <= d < |c| ==> 0 <= c[d] < ext[d]
  }

  /** The coordinates k, k+1, ... of the remaining index, as computed by the
      loop `coord[d] = index / volumeFactor[d]; index %= volumeFactor[d]`. */
  function DecodeFrom(ext: seq<int>, index: int, k: nat): seq<int>
    requires ValidExtents(ext) && k <= |ext|
    decreases |ext| - k
  {
    if k == |ext| then []
    else
      ProdFromPositive(ext, k + 1);
      [index / ProdFrom(ext, k + 1)] + DecodeFrom(ext, index % ProdFrom(ext, k + 1), k + 1)
  }

  /** The coordinate vector of site i. */
  function Coordinates(ext: seq<int>, i: int): seq<int>
    requires ValidExtents(ext)
  {
    DecodeFrom(ext, i, 0)
  }

  /** sum over d >= k of c[d] * volumeFactor[d] */
  function EncodeFrom(ext: seq<int>, c: seq<int>, k: nat): int
    requires |c| == |ext| && k <= |ext|
    decreases |ext| - k
  {
    if k == |ext| then 0 else c[k] * ProdFrom(ext, k + 1) + EncodeFrom(ext, c, k + 1)
  }

  /** The site index of a coordinate vector. */
  function SiteIndex(ext: seq<int>, c: seq<int>): int
    requires |c| == |ext|
  {
    EncodeFrom(ext, c, 0)
  }

  lemma {:induction false} DecodeFromInRange(ext: seq<int>, index: int, k: nat)
    requires ValidExtents(ext) && k <= |ext|
    requires 0 <= index < ProdFrom(ext, k)
    ensures |DecodeFrom(ext, index, k)| == |ext| - k
    ensures forall j :: 0 <= j < |ext| - k ==> 0 <= DecodeFrom(ext, index, k)[j] < ext[k + j]
    decreases |ext| - k
  {
    if k < |ext| {
      var p := ProdFrom(ext, k + 1);
      ProdFromPositive(ext, k + 1);
      DecodeFromInRange(ext, index % p, k + 1);
      DivLess(index, p, ext[k]);
    }
  }

  /** Every site index decodes to coordinates inside the lattice. */
  lemma CoordinatesInRange(ext: seq<int>, i: int)
    requires ValidExtents(ext) && 0 <= i < Volume(ext)
    ensures InRange(ext, Coordinates(ext, i))
  {
    DecodeFromInRange(ext, i, 0);
  }

  lemma {:induction false} EncodeFromDecode(ext: seq<int>, c: seq<int>, index: int, k: nat)
    requires ValidExtents(ext) && k <= |ext| && |c| == |ext|
    requires 0 <= index < ProdFrom(ext, k)
    requires c[k..] == DecodeFrom(ext, index, k)
    ensures EncodeFrom(ext, c, k) == index
    decreases |ext| - k
  {
    if k < |ext| {
      var p := ProdFrom(ext, k + 1);
      ProdFromPositive(ext, k + 1);
      assert c[k] == DecodeFrom(ext, index, k)[0] == index / p;
      assert c[k + 1..] == c[k..][1..];
      EncodeFromDecode(ext, c, index % p, k + 1);
    }
  }

  /** Decoding a site and encoding the coordinates again gives the site back. */
  lemma EncodeDecode(ext: seq<int>, i: int)
    requires ValidExtents(ext) && 0 <= i < Volume(ext)
    ensures |Coordinates(ext, i)| == |ext|
    ensures SiteIndex(ext, Coordinates(ext, i)) == i
  {
    DecodeFromInRange(ext, i, 0);
    EncodeFromDecode(ext, Coordinates(ext, i), i, 0);
  }

  lemma {:induction false} EncodeFromBounds(ext: seq<int>, c: seq<int>, k: nat)
    requires ValidExtents(ext) && k <= |ext| && InRange(ext, c)
    ensures 0 <= EncodeFrom(ext, c, k) < ProdFrom(ext, k)
    decreases |ext| - k
  {
    if k < |ext| {
      var p := ProdFrom(ext, k + 1);
      var e := EncodeFrom(ext, c, k + 1);
      EncodeFromBounds(ext, c, k + 1);
      ProdFromPositive(ext, k + 1);
      MulLe(c[k], ext[k] - 1, p);
      MulLe(0, c[k], p);
    }
  }

  /** Coordinates inside the lattice encode to a site index in [0, VOL). */
  lemma SiteIndexInRange(ext: seq<int>, c: seq<int>)
    requires ValidExtents(ext) && InRange(ext, c)
    ensures 0 <= SiteIndex(ext, c) < Volume(ext)
  {
    EncodeFromBounds(ext, c, 0);
  }

  lemma {:induction false} DecodeFromEncode(ext: seq<int>, c: seq<int>, k: nat)
    requires ValidExtents(ext) && k <= |ext| && InRange(ext, c)
    ensures DecodeFrom(ext, EncodeFrom(ext, c, k), k) == c[k..]
    decreases |ext| - k
  {
    if k < |ext| {
      var p := ProdFrom(ext, k + 1);
      var e := EncodeFrom(ext, c, k + 1);
      EncodeFromBounds(ext, c, k + 1);
      ProdFromPositive(ext, k + 1);
      DivModUnique(c[k] * p + e, p, c[k], e);
      DecodeFromEncode(ext, c, k + 1);
      assert c[k..] == [c[k]] + c[k + 1..];
    }
  }

  /** Encoding coordinates and decoding the index gives the coordinates back. */
  lemma DecodeEncode(ext: seq<int>, c: seq<int>)
    requires ValidExtents(ext) && InRange(ext, c)
    ensures Coordinates(ext, SiteIndex(ext, c)) == c
  {
    DecodeFromEncode(ext, c, 0);
  }

  // ---------------------------------------------------------------------------
  // Nearest neighbours

  /** Coordinates c moved by delta steps in direction d, periodically. */
  function Shift(ext: seq<int>, c: seq<int>, d: nat, delta: int): seq<int>
    requires ValidExtents(ext) && |c| == |ext| && d < |ext|
  {
    c[d := (c[d] + delta) % ext[d]]
  }

  /** neib[i][d]: the forward neighbour, (coord[d]+1) % extent[d]. */
  function Forward(ext: seq<int>, i: int, d: nat): int
    requires ValidExtents(ext) && 0 <= i < Volume(ext) && d < |ext|
  {
    CoordinatesInRange(ext, i);
    SiteIndex(ext, Shift(ext, Coordinates(ext, i), d, 1))
  }

  /** neib[i][d+DIM]: the backward neighbour, (coord[d]+extent[d]-1) % extent[d]. */
  function Backward(ext: seq<int>, i: int, d: nat): int
    requires ValidExtents(ext) && 0 <= i < Volume(ext) && d < |ext|
  {
    CoordinatesInRange(ext, i);
    SiteIndex(ext, Shift(ext, Coordinates(ext, i), d, ext[d] - 1))
  }

  /** neib[i][k] for the 2*DIM signed directions. */
  function Neighbour(ext: seq<int>, i: int, k: nat): int
    requires ValidExtents(ext) && 0 <= i < Volume(ext) && k < 2 * |ext|
  {
    if k < |ext| then Forward(ext, i, k) else Backward(ext, i, k - |ext|)
  }

  /** Shifting coordinates inside the lattice keeps them inside. */
  lemma ShiftInRange(ext: seq<int>, c: seq<int>, d: nat, delta: int)
    requires ValidExtents(ext) && InRange(ext, c) && d < |ext|
    ensures InRange(ext, Shift(ext, c, d, delta))
  {
  }

  /** Moving to a neighbour changes only coordinate d, by +1 or -1 modulo the extent. */
  lemma NeighbourCoordinates(ext: seq<int>, i: int, d: nat)
    requires ValidExtents(ext) && 0 <= i < Volume(ext) && d < |ext|
    ensures 0 <= Forward(ext, i, d) < Volume(ext)
    ensures 0 <= Backward(ext, i, d) < Volume(ext)
    ensures InRange(ext, Coordinates(ext, i))
    ensures Coordinates(ext, Forward(ext, i, d)) == Shift(ext, Coordinates(ext, i), d, 1)
    ensures Coordinates(ext, Backward(ext, i, d)) == Shift(ext, Coordinates(ext, i), d, ext[d] - 1)
  {
    var c := Coordinates(ext, i);
    CoordinatesInRange(ext, i);
    ShiftInRange(ext, c, d, 1);
    ShiftInRange(ext, c, d, ext[d] - 1);
    SiteIndexInRange(ext, Shift(ext, c, d, 1));
    SiteIndexInRange(ext, Shift(ext, c, d, ext[d] - 1));
    DecodeEncode(ext, Shift(ext, c, d, 1));
    DecodeEncode(ext, Shift(ext, c, d, ext[d] - 1));
  }

  /** Every entry of the neighbour table is a site index. */
  lemma NeighbourInRange(ext: seq<int>, i: int, k: nat)
    requires ValidExtents(ext) && 0 <= i < Volume(ext) && k < 2 * |ext|
    ensures 0 <= Neighbour(ext, i, k) < Volume(ext)
  {
    NeighbourCoordinates(ext, i, if k < |ext| then k else k - |ext|);
  }

  /** Two shifts in the same direction add up; shifts in different directions commute. */
  lemma ShiftShift(ext: seq<int>, c: seq<int>, d: nat, a: int, d': nat, b: int)
    requires ValidExtents(ext) && |c| == |ext| && d < |ext| && d' < |ext|
    ensures d == d' ==> Shift(ext, Shift(ext, c, d, a), d', b) == Shift(ext, c, d, a + b)
    ensures d != d' ==> Shift(ext, Shift(ext, c, d, a), d', b) == Shift(ext, Shift(ext, c, d', b), d, a)
  {
    var x := (c[d] + a) % ext[d];
    if d == d' {
      ModAddMod(c[d] + a, b, ext[d]);
      assert c[d := x][d := (x + b) % ext[d]] == c[d := (c[d] + (a + b)) % ext[d]];
    } else {
      var y := (c[d'] + b) % ext[d'];
      assert c[d := x][d' := y] == c[d' := y][d := x];
    }
  }

  /** A shift by a multiple of the extent (in particular by 0) changes nothing. */
  lemma ShiftByMultiple(ext: seq<int>, c: seq<int>, d: nat, k: int)
    requires ValidExtents(ext) && InRange(ext, c) && d < |ext|
    ensures Shift(ext, c, d, k * ext[d]) == c
  {
    ModAddMultiple(c[d], k, ext[d]);
    DivModUnique(c[d], ext[d], 0, c[d]);
    assert c[d := c[d]] == c;
  }

  /** Stepping forward and then backward in the same direction returns to the start:
      neib[neib[i][d]][d+DIM] == i. */
  lemma BackwardForward(ext: seq<int>, i: int, d: nat)
    requires ValidExtents(ext) && 0 <= i < Volume(ext) && d < |ext|
    ensures 0 <= Forward(ext, i, d) < Volume(ext)
    ensures Backward(ext, Forward(ext, i, d), d) == i
  {
    var c := Coordinates(ext, i);
    NeighbourCoordinates(ext, i, d);
    NeighbourCoordinates(ext, Forward(ext, i, d), d);
    ShiftShift(ext, c, d, 1, d, ext[d] - 1);
    ShiftByMultiple(ext, c, d, 1);
    EncodeDecode(ext, i);
  }

  /** neib[neib[i][d+DIM]][d] == i. */
  lemma ForwardBackward(ext: seq<int>, i: int, d: nat)
    requires ValidExtents(ext) && 0 <= i < Volume(ext) && d < |ext|
    ensures 0 <= Backward(ext, i, d) < Volume(ext)
    ensures Forward(ext, Backward(ext, i, d), d) == i
  {
    var c := Coordinates(ext, i);
    NeighbourCoordinates(ext, i, d);
    NeighbourCoordinates(ext, Backward(ext, i, d), d);
    ShiftShift(ext, c, d, ext[d] - 1, d, 1);
    ShiftByMultiple(ext, c, d, 1);
    EncodeDecode(ext, i);
  }

  /** For fixed d, the forward step is a permutation of the sites. */
  lemma ForwardIsPermutation(ext: seq<int>, d: nat)
    requires ValidExtents(ext) && d < |ext|
    ensures forall i, j :: 0 <= i < Volume(ext) && 0 <= j < Volume(ext) && Forward(ext, i, d) == Forward(ext, j, d) ==> i == j
    ensures forall j :: 0 <= j < Volume(ext) ==>
      0 <= Backward(ext, j, d) < Volume(ext) && Forward(ext, Backward(ext, j, d), d) == j
  {
    forall i, j | 0 <= i < Volume(ext) && 0 <= j < Volume(ext) && Forward(ext, i, d) == Forward(ext, j, d)
      ensures i == j
    {
      BackwardForward(ext, i, d);
      BackwardForward(ext, j, d);
    }
    forall j | 0 <= j < Volume(ext)
      ensures 0 <= Backward(ext, j, d) < Volume(ext) && Forward(ext, Backward(ext, j, d), d) == j
    {
      ForwardBackward(ext, j, d);
    }
  }
}
