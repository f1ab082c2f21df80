/** Binary configuration files (config_IO.c): the standard layout, a header
    [DIM, SUN, extents, plaquette] followed by the links of every site in
    site-major order, and the master-field layout, whose header has no
    plaquette and whose site blocks are written at offsets given by
    index_mf.

    A file is a sequence of items (stdint_t or double), each with the byte
    order its bytes are in.  A host keeps items in its own order; before
    fwrite and after fread a big-endian host swaps every item (bswap_int,
    bswap_double), a little-endian host leaves it.  The bytes themselves are
    not modelled. */
module ConfigIO {
  import opened CArith
  import opened LinkAlgebra
  import opened Geometry
  import opened Init
  import opened Plaquette

  // ---------------------------------------------------------------------------
  // Items and byte order

  /** endianness(): the byte order of a host, and of a stored item. */
  datatype Order = LittleEndian | BigEndian

  /** What an item holds: a stdint_t or a double. */
  datatype Value = IntVal(i: int) | RealVal(r: real)

  /** One item of a file or of a buffer. */
  datatype Word = Word(v: Value, order: Order)

  /** bswap_int / bswap_double on one item: same value, bytes reversed. */
  function Swap(w: Word): (s: Word)
    ensures s.v == w.v && s.order != w.order
  {
    Word(w.v, if w.order == LittleEndian then BigEndian else LittleEndian)
  }

  /** The fix-up both the writer and the reader apply to every item:
      swapped on a big-endian host, left alone on a little-endian one. */
  function FixOrder(w: Word, host: Order): Word
  {
    if host == BigEndian then Swap(w) else w
  }

  /** The fix-up undoes itself, so the reader's swap undoes the writer's. */
  lemma FixOrderInvolution(w: Word, host: Order)
    ensures FixOrder(FixOrder(w, host), host) == w
  {
  }

  /** An item as every host stores it: a value held in host order becomes,
      after the fix-up, the little-endian item, whatever the host; reading
      the little-endian item back gives the host's own item. */
  lemma StoredIsHostIndependent(v: Value, host: Order)
    ensures FixOrder(Word(v, host), host) == Word(v, LittleEndian)
    ensures FixOrder(Word(v, LittleEndian), host) == Word(v, host)
  {
  }

  /** The items of a list of values, all in byte order o. */
  function Words(vs: seq<Value>, o: Order): seq<Word>
  {
    seq(|vs|, k requires 0 <= k < |vs| => Word(vs[k], o))
  }

  /** The double a host reads from an item of its memory: an item that is
      not a double in the host's order is not given a value here and reads
      as 0.0. */
  function AsDouble(w: Word, host: Order): real
  {
    if w.order == host && w.v.RealVal? then w.v.r else 0.0
  }

  /** The doubles a host reads from a run of items after its fix-up equal
      the doubles the stored items hold: reading does not depend on the host. */
  lemma ReadIsHostIndependent(w: Word, host: Order)
    ensures AsDouble(FixOrder(w, host), host) == AsDouble(w, LittleEndian)
  {
  }

  /** The doubles stored in a run of items. */
  function StoredDoubles(ws: seq<Word>): seq<real>
  {
    seq(|ws|, k requires 0 <= k < |ws| => AsDouble(ws[k], LittleEndian))
  }

  function IntVals(xs: seq<int>): seq<Value>
  {
    seq(|xs|, k requires 0 <= k < |xs| => IntVal(xs[k]))
  }

  function Reals(xs: seq<real>): seq<Value>
  {
    seq(|xs|, k requires 0 <= k < |xs| => RealVal(xs[k]))
  }

  lemma WordsAppend(a: seq<Value>, b: seq<Value>, o: Order)
    ensures Words(a + b, o) == Words(a, o) + Words(b, o)
  {
  }

  /** Stored doubles read back as written. */
  lemma StoredReals(xs: seq<real>)
    ensures StoredDoubles(Words(Reals(xs), LittleEndian)) == xs
  {
  }

  // ---------------------------------------------------------------------------
  // The standard layout

  /** The header values both layouts begin with: DIM, SUN and the extents
      in the order T, S1, S2, S3. */
  function HeaderInfo(ext: seq<int>, sun: int): (vs: seq<Value>)
    ensures |vs| == |ext| + 2
  {
    [IntVal(|ext|), IntVal(sun)] + IntVals(ext)
  }

  /** The header values of the standard layout: the common header, then the
      plaquette of the written field. */
  function HeaderValues(ext: seq<int>, sun: int, plaq: real): (vs: seq<Value>)
    ensures |vs| == |ext| + 3
  {
    HeaderInfo(ext, sun) + [RealVal(plaq)]
  }

  /** The payload values: every matrix as its SUNVOL doubles
      (mk_sun_dble_array), one matrix after the other. */
  function PayloadValues<M>(g: Algebra<M>, links: seq<M>): seq<Value>
    decreases |links|
  {
    if |links| == 0 then [] else Reals(g.toDoubles(links[0])) + PayloadValues(g, links[1..])
  }

  /** mk_sun_dble_array makes SUNVOL doubles of every matrix. */
  ghost predicate Sized<M(!new)>(g: Algebra<M>)
  {
    forall a :: |g.toDoubles(a)| == g.sunvol
  }

  /** DIM*SUNVOL doubles per site, SUNVOL per link. */
  lemma {:induction false} PayloadLength<M(!new)>(g: Algebra<M>, links: seq<M>)
    requires Sized(g)
    ensures |PayloadValues(g, links)| == |links| * g.sunvol
    decreases |links|
  {
    if |links| > 0 {
      PayloadLength(g, links[1..]);
    }
  }

  /** The payload of a+b is the payload of a followed by that of b. */
  lemma {:induction false} PayloadAppend<M>(g: Algebra<M>, a: seq<M>, b: seq<M>)
    ensures PayloadValues(g, a + b) == PayloadValues(g, a) + PayloadValues(g, b)
    decreases |a|
  {
    if |a| > 0 {
      assert (a + b)[0] == a[0] && (a + b)[1..] == a[1..] + b;
      PayloadAppend(g, a[1..], b);
    } else {
      assert a + b == b;
    }
  }

  /** Matrix o of the payload is its doubles o*SUNVOL .. o*SUNVOL+SUNVOL-1:
      with links in block order, link (in, ii) sits at (in*DIM + ii)*SUNVOL. */
  lemma {:induction false} PayloadIndex<M(!new)>(g: Algebra<M>, links: seq<M>, o: int, j: int)
    requires Sized(g)
    requires 0 <= o < |links| && 0 <= j < g.sunvol
    ensures 0 <= o * g.sunvol + j < |PayloadValues(g, links)|
    ensures PayloadValues(g, links)[o * g.sunvol + j] == RealVal(g.toDoubles(links[o])[j])
    decreases o
  {
    PayloadLength(g, links);
    MulLe(o + 1, |links|, g.sunvol);
    MulLe(0, o, g.sunvol);
    if o > 0 {
      PayloadIndex(g, links[1..], o - 1, j);
      assert o * g.sunvol + j == g.sunvol + ((o - 1) * g.sunvol + j);
    }
  }

  /** writeConfig's file: the header, then the payload, every item stored
      little-endian. */
  function Encode<M>(g: Algebra<M>, ext: seq<int>, links: seq<M>, plaq: real): seq<Word>
  {
    Words(HeaderValues(ext, g.n, plaq) + PayloadValues(g, links), LittleEndian)
  }

  /** What readConfig can report (error() stops the program with it). */
  datatype ReadError =
    | NotAllocated            // "Fields are not allocated!"
    | ReadFailed              // "Read error!": fewer items than requested
    | IncompatibleParameters  // info differs from (DIM, SUN)
    | IncompatibleSize        // a stored extent differs from the lattice's
    | PlaquetteTestFailed     // the recomputed plaquette differs from the stored one

  datatype Outcome<T> = Ok(value: T) | Fail(err: ReadError)

  /** count matrices, each made by mk_dble_array_sun from the next SUNVOL
      doubles of xs (as many as xs holds in full). */
  function Matrices<M>(g: Algebra<M>, xs: seq<real>, count: nat): seq<M>
    decreases count
  {
    if count == 0 || |xs| < g.sunvol then []
    else [g.fromDoubles(xs[..g.sunvol])] + Matrices(g, xs[g.sunvol..], count - 1)
  }

  lemma {:induction false} MatricesLength<M>(g: Algebra<M>, xs: seq<real>, count: nat)
    requires |xs| >= count * g.sunvol
    ensures |Matrices(g, xs, count)| == count
    decreases count
  {
    if count > 0 {
      MulLe(1, count, g.sunvol);
      MatricesLength(g, xs[g.sunvol..], count - 1);
    }
  }

  /** The matrices of a+b chunks are those of the first a chunks followed by
      those of the rest. */
  lemma {:induction false} MatricesSplit<M>(g: Algebra<M>, xs: seq<real>, a: nat, b: nat)
    requires |xs| >= a * g.sunvol
    ensures 0 <= a * g.sunvol <= |xs|
    ensures Matrices(g, xs, a + b) == Matrices(g, xs, a) + Matrices(g, xs[a * g.sunvol..], b)
    decreases a
  {
    MulLe(0, a, g.sunvol);
    if a > 0 {
      MulLe(1, a, g.sunvol);
      MatricesSplit(g, xs[g.sunvol..], a - 1, b);
      assert xs[g.sunvol..][(a - 1) * g.sunvol..] == xs[a * g.sunvol..];
    }
  }

  /** Only the first count*SUNVOL doubles are read. */
  lemma {:induction false} MatricesPrefix<M>(g: Algebra<M>, xs: seq<real>, ys: seq<real>, count: nat)
    requires |xs| >= count * g.sunvol && |ys| >= count * g.sunvol
    requires xs[..count * g.sunvol] == ys[..count * g.sunvol]
    ensures Matrices(g, xs, count) == Matrices(g, ys, count)
    decreases count
  {
    if count > 0 {
      var n := count * g.sunvol;
      MulLe(1, count, g.sunvol);
      assert xs[..g.sunvol] == xs[..n][..g.sunvol];
      assert ys[..g.sunvol] == ys[..n][..g.sunvol];
      assert xs[g.sunvol..][..n - g.sunvol] == xs[..n][g.sunvol..];
      assert ys[g.sunvol..][..n - g.sunvol] == ys[..n][g.sunvol..];
      MatricesPrefix(g, xs[g.sunvol..], ys[g.sunvol..], count - 1);
    }
  }

  /** The matrices stored in the items ws. */
  function ReadSlots<M>(g: Algebra<M>, ws: seq<Word>, count: nat): seq<M>
  {
    Matrices(g, StoredDoubles(ws), count)
  }

  /** Reading the payload back gives the written matrices. */
  lemma {:induction false} ReadPayload<M(!new)>(g: Algebra<M>, links: seq<M>)
    requires Lawful(g) && g.sunvol >= 1
    ensures |PayloadValues(g, links)| == |links| * g.sunvol
    ensures ReadSlots(g, Words(PayloadValues(g, links), LittleEndian), |links|) == links
    decreases |links|
  {
    PayloadLength(g, links);
    if |links| > 0 {
      var xs := StoredDoubles(Words(PayloadValues(g, links), LittleEndian));
      var first := Reals(g.toDoubles(links[0]));
      WordsAppend(first, PayloadValues(g, links[1..]), LittleEndian);
      StoredReals(g.toDoubles(links[0]));
      assert xs[..g.sunvol] == g.toDoubles(links[0]);
      assert xs[g.sunvol..] == StoredDoubles(Words(PayloadValues(g, links[1..]), LittleEndian));
      ReadPayload(g, links[1..]);
      assert links == [links[0]] + links[1..];
    }
  }

  /** The header checks of both readers, stated on the stored items: hlen
      items are read first (DIM+3 with the plaquette, DIM+2 without); then
      info must be (DIM, SUN) and the stored extents must be ext. */
  function HeaderCheck<M>(g: Algebra<M>, ext: seq<int>, file: seq<Word>, hlen: int): Option<ReadError>
    requires |ext| + 2 <= hlen
  {
    var d := |ext|;
    if |file| < hlen then Some(ReadFailed)
    else if file[0] != Word(IntVal(d), LittleEndian) || file[1] != Word(IntVal(g.n), LittleEndian) then Some(IncompatibleParameters)
    else if file[2 .. 2 + d] != Words(IntVals(ext), LittleEndian) then Some(IncompatibleSize)
    else None
  }

  /** readConfig's reading of a file for a lattice with extents ext, stated
      on the stored items: the header checks, then the VOL*DIM matrices and
      the stored plaquette. */
  function DecodeStd<M>(g: Algebra<M>, ext: seq<int>, file: seq<Word>): Outcome<(seq<M>, real)>
    requires ValidExtents(ext) && g.sunvol >= 1
  {
    var d := |ext|;
    match HeaderCheck(g, ext, file, d + 3)
    case Some(e) => Fail(e)
    case None =>
      if |file| - (d + 3) < Volume(ext) * d * g.sunvol then Fail(ReadFailed)
      else
        VolumeFactorFacts(ext, 0);
        MulLe(0, Volume(ext), d);
        Ok((ReadSlots(g, file[d + 3..], Volume(ext) * d), AsDouble(file[d + 2], LittleEndian)))
  }

  /** readConfig after writeConfig on the same lattice restores every link
      and the stored plaquette, whatever the hosts of the two. */
  lemma DecodeEncode<M(!new)>(g: Algebra<M>, ext: seq<int>, links: seq<M>, plaq: real)
    requires Lawful(g) && g.sunvol >= 1 && ValidExtents(ext) && |links| == Volume(ext) * |ext|
    ensures DecodeStd(g, ext, Encode(g, ext, links, plaq)) == Ok((links, plaq))
  {
    var d := |ext|;
    var file := Encode(g, ext, links, plaq);
    ReadPayload(g, links);
    WordsAppend(HeaderValues(ext, g.n, plaq), PayloadValues(g, links), LittleEndian);
    assert file[d + 3..] == Words(PayloadValues(g, links), LittleEndian);
    assert file[2 .. 2 + d] == Words(IntVals(ext), LittleEndian);
    assert |file| - (d + 3) == Volume(ext) * d * g.sunvol;
  }

  /** A file written for a lattice with other extents is refused with
      "Incompatible size!". */
  lemma OtherExtentsRejected<M(!new)>(g: Algebra<M>, ext: seq<int>, ext': seq<int>, links: seq<M>, plaq: real)
    requires g.sunvol >= 1 && ValidExtents(ext) && |ext'| == |ext| && ext' != ext
    ensures DecodeStd(g, ext, Encode(g, ext', links, plaq)) == Fail(IncompatibleSize)
  {
    var d := |ext|;
    var file := Encode(g, ext', links, plaq);
    WordsAppend(HeaderValues(ext', g.n, plaq), PayloadValues(g, links), LittleEndian);
    assert file[2 .. 2 + d] == Words(IntVals(ext'), LittleEndian);
    var k :| 0 <= k < d && ext'[k] != ext[k];
    assert file[2 .. 2 + d][k] != Words(IntVals(ext), LittleEndian)[k];
  }

  /** A file written for another dimension or another gauge group is
      refused with "Incompatible parameters!". */
  lemma OtherGroupRejected<M>(g: Algebra<M>, g': Algebra<M>, ext: seq<int>, ext': seq<int>, links: seq<M>, plaq: real)
    requires g.sunvol >= 1 && ValidExtents(ext)
    requires |ext'| != |ext| || g'.n != g.n
    requires |ext'| + 3 + |PayloadValues(g', links)| >= |ext| + 3
    ensures DecodeStd(g, ext, Encode(g', ext', links, plaq)) == Fail(IncompatibleParameters)
  {
    var file := Encode(g', ext', links, plaq);
    assert file[0] == Word(IntVal(|ext'|), LittleEndian);
    assert file[1] == Word(IntVal(g'.n), LittleEndian);
  }

  /** A truncated file is refused with "Read error!". */
  lemma TruncatedRejected<M(!new)>(g: Algebra<M>, ext: seq<int>, links: seq<M>, plaq: real, n: int)
    requires Lawful(g) && g.sunvol >= 1 && ValidExtents(ext) && |links| == Volume(ext) * |ext|
    requires 0 <= n < |Encode(g, ext, links, plaq)|
    ensures DecodeStd(g, ext, Encode(g, ext, links, plaq)[..n]) == Fail(ReadFailed)
  {
    var d := |ext|;
    var file := Encode(g, ext, links, plaq);
    PayloadLength(g, links);
    if n >= d + 3 {
      assert file[..n][..d + 3] == file[..d + 3];
      DecodeEncode(g, ext, links, plaq);
      HeaderOfPrefix(g, ext, file[..n], file, d + 3);
    }
  }

  /** The header checks look at the first hlen items only. */
  lemma HeaderOfPrefix<M>(g: Algebra<M>, ext: seq<int>, a: seq<Word>, b: seq<Word>, hlen: int)
    requires |ext| + 2 <= hlen <= |a| && hlen <= |b| && a[..hlen] == b[..hlen]
    ensures HeaderCheck(g, ext, a, hlen) == HeaderCheck(g, ext, b, hlen)
  {
    var d := |ext|;
    assert forall k :: 0 <= k < hlen ==> a[k] == a[..hlen][k] == b[k];
    assert a[2 .. 2 + d] == b[2 .. 2 + d];
  }

  /** fabs(plaq - plaq0) */
  function Abs(x: real): real
  {
    if x < 0.0 then -x else x
  }

  /** After an exact round trip the plaquette test cannot fire: the stored
      plaquette is that of the restored links, for every tolerance eps >= 0. */
  lemma PlaquetteTestPasses<M(!new)>(g: Algebra<M>, ext: seq<int>, links: seq<M>, eps: real)
    requires Lawful(g) && g.sunvol >= 1 && ValidExtents(ext) && |links| == Volume(ext) * |ext| && eps >= 0.0
    ensures var plaq := PlaquetteValue(g, ext, NeighbourTable(ext), FieldLinks(g, |ext|, links));
            && DecodeStd(g, ext, Encode(g, ext, links, plaq)) == Ok((links, plaq))
            && !(Abs(plaq - plaq) > eps)
  {
    DecodeEncode(g, ext, links, PlaquetteValue(g, ext, NeighbourTable(ext), FieldLinks(g, |ext|, links)));
  }

  // ---------------------------------------------------------------------------
  // Buffers and file positions

  /** The fix-up applied to every item of a buffer. */
  function FixWords(ws: seq<Word>, host: Order): seq<Word>
  {
    seq(|ws|, k requires 0 <= k < |ws| => FixOrder(ws[k], host))
  }

  /** Values held in host order are stored little-endian after the fix-up. */
  lemma FixNative(vs: seq<Value>, host: Order)
    ensures FixWords(Words(vs, host), host) == Words(vs, LittleEndian)
  {
  }

  /** The doubles a host reads from a run of items in its memory. */
  function HostDoubles(ws: seq<Word>, host: Order): seq<real>
  {
    seq(|ws|, k requires 0 <= k < |ws| => AsDouble(ws[k], host))
  }

  /** A host reading a run of items after its fix-up gets the stored doubles. */
  lemma HostReadsStored(ws: seq<Word>, host: Order)
    ensures HostDoubles(FixWords(ws, host), host) == StoredDoubles(ws)
  {
    forall k | 0 <= k < |ws|
      ensures HostDoubles(FixWords(ws, host), host)[k] == StoredDoubles(ws)[k]
    {
      ReadIsHostIndependent(ws[k], host);
    }
  }

  /** The DIM matrices stored in the block of items starting at p. */
  function StoredBlock<M>(g: Algebra<M>, file: seq<Word>, p: int, dim: nat): seq<M>
    requires g.sunvol >= 1 && 0 <= p && p + g.sunvol * dim <= |file|
  {
    ReadSlots(g, file[p .. p + g.sunvol * dim], dim)
  }

  /** A block holds DIM matrices. */
  lemma StoredBlockLength<M>(g: Algebra<M>, file: seq<Word>, p: int, dim: nat)
    requires g.sunvol >= 1 && 0 <= p && p + g.sunvol * dim <= |file|
    ensures |StoredBlock(g, file, p, dim)| == dim
  {
    var xs := StoredDoubles(file[p .. p + g.sunvol * dim]);
    assert |xs| == dim * g.sunvol;
    MatricesLength(g, xs, dim);
  }

  /** The number of items fread delivers when n are asked for at position
      pos of a file of len items. */
  function FreadCount(len: int, pos: int, n: int): (c: int)
    requires 0 <= pos && 1 <= n
    ensures 0 <= c <= n
    ensures c == n <==> pos + n <= len
    ensures c > 0 ==> pos + c <= len
  {
    if len <= pos then 0 else if len - pos < n then len - pos else n
  }

  /** fread into a buffer: the items the file still has at pos. */
  method Fread(file: seq<Word>, pos: int, buff: array<Word>) returns (count: int)
    requires 0 <= pos && 1 <= buff.Length
    modifies buff
    ensures count == FreadCount(|file|, pos, buff.Length)
    ensures pos + count <= |file| ==> buff[..count] == file[pos .. pos + count]
    ensures buff[count..] == old(buff[count..])
  {
    count := FreadCount(|file|, pos, buff.Length);
    forall k | 0 <= k < count {
      buff[k] := file[pos + k];
    }
  }

  /** bswap_double over a whole buffer, on a big-endian host only. */
  method FixBuffer(buff: array<Word>, host: Order)
    modifies buff
    ensures buff[..] == FixWords(old(buff[..]), host)
  {
    if host == BigEndian {
      forall k | 0 <= k < buff.Length {
        buff[k] := Swap(buff[k]);
      }
    }
  }

  /** The DIM links of site s, in direction order. */
  function SiteLinks<M>(links: seq<M>, dim: nat, s: int): seq<M>
    requires 0 <= s * dim && s * dim + dim <= |links|
  {
    links[s * dim .. s * dim + dim]
  }

  /** mk_sun_dble_array writing the doubles xs, in host order, at buff + zw. */
  method PutDoubles(buff: array<Word>, zw: int, xs: seq<real>, host: Order)
    requires 0 <= zw && zw + |xs| <= buff.Length
    modifies buff
    ensures buff[..zw + |xs|] == old(buff[..zw]) + Words(Reals(xs), host)
  {
    forall k | zw <= k < zw + |xs| {
      buff[k] := Word(RealVal(xs[k - zw]), host);
    }
  }

  lemma PayloadOne<M>(g: Algebra<M>, x: M)
    ensures PayloadValues(g, [x]) == Reals(g.toDoubles(x))
  {
    assert [x][1..] == [];
  }

  /** Chunk ii of n chunks of sv items lies inside the n*sv items. */
  lemma ChunkBound(ii: int, n: int, sv: int)
    requires 0 <= ii < n && 0 <= sv
    ensures 0 <= ii * sv && ii * sv + sv <= sv * n && (ii + 1) * sv == ii * sv + sv
  {
    MulLe(ii + 1, n, sv);
    MulLe(0, ii, sv);
  }

  /** The payload of the first ii+1 links, in some order: that of the
      first ii, then the doubles of link ii. */
  lemma FillStep<M>(g: Algebra<M>, site: seq<M>, ii: int, host: Order)
    requires 0 <= ii < |site|
    ensures Words(PayloadValues(g, site[..ii + 1]), host)
            == Words(PayloadValues(g, site[..ii]), host) + Words(Reals(g.toDoubles(site[ii])), host)
  {
    assert site[..ii + 1] == site[..ii] + [site[ii]];
    PayloadAppend(g, site[..ii], [site[ii]]);
    PayloadOne(g, site[ii]);
    WordsAppend(PayloadValues(g, site[..ii]), Reals(g.toDoubles(site[ii])), host);
  }

  /** mk_sun_dble_array of link ii of a site at buff + zw, after the
      links before it. */
  method PutLink<M(!new)>(g: Algebra<M>, buff: array<Word>, zw: int, ghost site: seq<M>, ii: int, x: M, host: Order)
    requires Sized(g) && 0 <= ii < |site| && x == site[ii]
    requires 0 <= zw && zw + g.sunvol <= buff.Length
    requires buff[..zw] == Words(PayloadValues(g, site[..ii]), host)
    modifies buff
    ensures buff[..zw + g.sunvol] == Words(PayloadValues(g, site[..ii + 1]), host)
  {
    PutDoubles(buff, zw, g.toDoubles(x), host);
    FillStep(g, site, ii, host);
  }

  /** The loop over ii that fills buff with mk_sun_dble_array: the DIM links
      of site s, SUNVOL doubles each, in host order. */
  method FillSite<M(0,!new)>(g: Algebra<M>, u: GaugeField<M>, s: int, buff: array<Word>, host: Order)
    requires u.Valid() && 0 <= s < u.vol
    requires Sized(g)
    requires buff.Length == g.sunvol * u.dim && buff as object != u.block
    modifies buff
    ensures 0 <= s * u.dim && s * u.dim + u.dim <= |u.Links()|
    ensures buff[..] == Words(PayloadValues(g, SiteLinks(u.Links(), u.dim, s)), host)
  {
    OffsetBound(u.vol, u.dim, s, u.dim);
    ghost var site := SiteLinks(u.Links(), u.dim, s);
    ghost var total := u.dim * g.sunvol;
    var ii, zw := 0, 0;
    while ii < u.dim
      invariant 0 <= ii <= u.dim && zw == ii * g.sunvol && zw <= buff.Length
      invariant buff[..zw] == Words(PayloadValues(g, site[..ii]), host)
    {
      ChunkBound(ii, u.dim, g.sunvol);
      PutLink(g, buff, zw, site, ii, u.Link(s, ii), host);
      ii, zw := ii + 1, zw + g.sunvol;
    }
    assert zw == total == buff.Length;
    assert site[..ii] == site;
    assert buff[..] == buff[..zw];
  }

  /** A sequence that holds ms at start.. and agrees with b elsewhere. */
  lemma SlicesFromPoints<T>(a: seq<T>, b: seq<T>, start: int, n: int, ms: seq<T>)
    requires |a| == |b| && 0 <= start && start + n <= |a| && |ms| == n
    requires forall k :: 0 <= k < n ==> a[start + k] == ms[k]
    requires forall o :: 0 <= o < |a| && !(start <= o < start + n) ==> a[o] == b[o]
    ensures a[start .. start + n] == ms && a[..start] == b[..start] && a[start + n..] == b[start + n..]
  {
  }

  /** Matrix k is made from the doubles k*SUNVOL .. k*SUNVOL+SUNVOL-1. */
  lemma {:induction false} MatricesAt<M>(g: Algebra<M>, xs: seq<real>, count: nat, k: nat)
    requires |xs| >= count * g.sunvol && k < count
    ensures 0 <= k * g.sunvol && k * g.sunvol + g.sunvol <= |xs|
    ensures |Matrices(g, xs, count)| == count
    ensures Matrices(g, xs, count)[k] == g.fromDoubles(xs[k * g.sunvol .. k * g.sunvol + g.sunvol])
    decreases k
  {
    var s := g.sunvol;
    MatricesLength(g, xs, count);
    ChunkBound(k, count, s);
    MulLe(1, count, s);
    if k > 0 {
      var p := k * s;
      assert (k - 1) * s == p - s && (count - 1) * s == count * s - s;
      MatricesAt(g, xs[s..], count - 1, k - 1);
      assert xs[s..][p - s .. p] == xs[p .. p + s];
    }
  }

  /** The loop over ii that reads the matrices of site s from buff with
      mk_dble_array_sun into pu[s][ii]; the other slots keep their links. */
  method LoadSite<M(0)>(g: Algebra<M>, u: GaugeField<M>, s: int, buff: array<Word>, host: Order)
    requires u.Valid() && 0 <= s < u.vol
    requires buff.Length == g.sunvol * u.dim && buff as object != u.block
    modifies u.block
    ensures 0 <= s * u.dim && s * u.dim + u.dim <= |u.Links()|
    ensures SiteLinks(u.Links(), u.dim, s) == Matrices(g, HostDoubles(buff[..], host), u.dim)
    ensures u.Links()[..s * u.dim] == old(u.Links()[..s * u.dim])
    ensures u.Links()[s * u.dim + u.dim..] == old(u.Links()[s * u.dim + u.dim..])
  {
    OffsetBound(u.vol, u.dim, s, u.dim);
    ghost var xs := HostDoubles(buff[..], host);
    ghost var ms := Matrices(g, xs, u.dim);
    MatricesLength(g, xs, u.dim);
    var start := s * u.dim;
    var ii, zw := 0, 0;
    while ii < u.dim
      invariant 0 <= ii <= u.dim && zw == ii * g.sunvol
      invariant forall k :: 0 <= k < ii ==> u.block[start + k] == ms[k]
      invariant forall o :: 0 <= o < u.block.Length && !(start <= o < start + ii) ==> u.block[o] == old(u.block[o])
    {
      ChunkBound(ii, u.dim, g.sunvol);
      MatricesAt(g, xs, u.dim, ii);
      SlotLayout(u.vol, u.dim, s, ii, s, ii);
      u.block[u.pu[s, ii]] := g.fromDoubles(HostDoubles(buff[..], host)[zw .. zw + g.sunvol]);
      ii, zw := ii + 1, zw + g.sunvol;
    }
    SlicesFromPoints(u.block[..], old(u.block[..]), start, u.dim, ms);
  }

  // ---------------------------------------------------------------------------
  // writeConfig and readConfig, standard layout

  /** A host item compares equal to a value in host order exactly when the
      stored item it came from is that value stored little-endian. */
  lemma NativeMatch(w: Word, v: Value, host: Order)
    ensures FixOrder(w, host) == Word(v, host) <==> w == Word(v, LittleEndian)
  {
  }

  /** The header reads and checks of readConfig: hlen items, swapped on a
      big-endian host, then info against (DIM, SUN) and every stored extent
      against ext. */
  method CheckHeader<M>(g: Algebra<M>, ext: seq<int>, file: seq<Word>, host: Order, hlen: int) returns (err: Option<ReadError>)
    requires |ext| + 2 <= hlen
    ensures err == HeaderCheck(g, ext, file, hlen)
  {
    var icheck := FreadCount(|file|, 0, hlen);
    var hdr := FixWords(file[..icheck], host);
    if icheck != hlen {
      return Some(ReadFailed);
    }
    NativeMatch(file[0], IntVal(|ext|), host);
    NativeMatch(file[1], IntVal(g.n), host);
    if hdr[0] != Word(IntVal(|ext|), host) || hdr[1] != Word(IntVal(g.n), host) {
      return Some(IncompatibleParameters);
    }
    var ii := 0;
    while ii < |ext|
      invariant 0 <= ii <= |ext|
      invariant forall k :: 0 <= k < ii ==> file[2 + k] == Word(IntVal(ext[k]), LittleEndian)
    {
      NativeMatch(file[2 + ii], IntVal(ext[ii]), host);
      if hdr[2 + ii] != Word(IntVal(ext[ii]), host) {
        assert file[2 .. 2 + |ext|][ii] != Words(IntVals(ext), LittleEndian)[ii];
        return Some(IncompatibleSize);
      }
      ii := ii + 1;
    }
    assert file[2 .. 2 + |ext|] == Words(IntVals(ext), LittleEndian);
    return None;
  }

  /** The header items of writeConfig: info, lswrite and the plaquette,
      each swapped on a big-endian host. */
  method HeaderItems(ext: seq<int>, sun: int, plaq: real, host: Order) returns (items: seq<Word>)
    ensures items == Words(HeaderValues(ext, sun, plaq), LittleEndian)
  {
    var info := FixWords(Words([IntVal(|ext|), IntVal(sun)], host), host);
    var lswrite := FixWords(Words(IntVals(ext), host), host);
    var plaqItem := FixWords(Words([RealVal(plaq)], host), host);
    FixNative([IntVal(|ext|), IntVal(sun)], host);
    FixNative(IntVals(ext), host);
    FixNative([RealVal(plaq)], host);
    items := info + lswrite + plaqItem;
  }

  /** The payload of the first ind+1 sites: that of the first ind, then
      the DIM links of site ind. */
  lemma PayloadStep<M>(g: Algebra<M>, links: seq<M>, dim: nat, ind: int)
    requires 0 <= ind * dim && ind * dim + dim <= |links|
    ensures Words(PayloadValues(g, links[..ind * dim + dim]), LittleEndian)
            == Words(PayloadValues(g, links[..ind * dim]), LittleEndian) + Words(PayloadValues(g, SiteLinks(links, dim, ind)), LittleEndian)
  {
    assert links[..ind * dim + dim] == links[..ind * dim] + SiteLinks(links, dim, ind);
    PayloadAppend(g, links[..ind * dim], SiteLinks(links, dim, ind));
    WordsAppend(PayloadValues(g, links[..ind * dim]), PayloadValues(g, SiteLinks(links, dim, ind)), LittleEndian);
  }

  /** Appending the swapped buffer of site ind to the file written so far
      extends it by that site's little-endian payload. */
  lemma ExtendWrite<M>(g: Algebra<M>, links: seq<M>, dim: nat, ind: int, host: Order,
                       file: seq<Word>, acc: seq<Word>, chunk: seq<Word>)
    requires 0 <= ind * dim && ind * dim + dim <= |links|
    requires acc == file + Words(PayloadValues(g, links[..ind * dim]), LittleEndian)
    requires chunk == FixWords(Words(PayloadValues(g, SiteLinks(links, dim, ind)), host), host)
    ensures acc + chunk == file + Words(PayloadValues(g, links[..ind * dim + dim]), LittleEndian)
  {
    FixNative(PayloadValues(g, SiteLinks(links, dim, ind)), host);
    PayloadStep(g, links, dim, ind);
  }

  /** The site loop of writeConfig: every site's buffer, filled, swapped on
      a big-endian host and appended to the file. */
  method WriteSites<M(0,!new)>(g: Algebra<M>, u: GaugeField<M>, host: Order, file: seq<Word>) returns (file': seq<Word>)
    requires u.Valid()
    requires Sized(g)
    ensures file' == file + Words(PayloadValues(g, u.Links()), LittleEndian)
  {
    file' := file;
    ghost var links := u.Links();
    assert links[..0] == [];
    var buff := new Word[g.sunvol * u.dim];
    var ind := 0;
    while ind < u.vol
      invariant 0 <= ind <= u.vol
      invariant file' == file + Words(PayloadValues(g, links[..ind * u.dim]), LittleEndian)
    {
      FillSite(g, u, ind, buff, host);
      FixBuffer(buff, host);
      ChunkBound(ind, u.vol, u.dim);
      ExtendWrite(g, links, u.dim, ind, host, file, file', buff[..]);
      file' := file' + buff[..];
      ind := ind + 1;
    }
    assert links[..u.vol * u.dim] == links;
  }

  /** writeConfig (standard layout): the header with the field's plaquette,
      then the buffer of every site in turn; whatever the host, the file
      holds the little-endian items of Encode. */
  method WriteConfig<M(0,!new)>(g: Algebra<M>, lat: Lattice, u: GaugeField<M>, host: Order) returns (file: seq<Word>)
    requires Ready(lat, u) && g.n >= 1
    requires Sized(g)
    ensures file == Encode(g, lat.ext, u.Links(), PlaquetteValue(g, lat.ext, NeighbourTable(lat.ext), FieldLinks(g, |lat.ext|, u.Links())))
  {
    var plaq := ComputePlaquette(g, lat, u);
    file := HeaderItems(lat.ext, g.n, plaq, host);
    file := WriteSites(g, u, host, file);
    WordsAppend(HeaderValues(lat.ext, g.n, plaq), PayloadValues(g, u.Links()), LittleEndian);
  }

  /** One more block of DIM matrices read in sequence extends the matrices
      read so far. */
  lemma ReadStep<M>(g: Algebra<M>, file: seq<Word>, h: int, ind: nat, dim: nat, p: int)
    requires 0 <= h <= |file| && p == h + ind * (g.sunvol * dim) && p + g.sunvol * dim <= |file|
    ensures 0 <= ind * dim && |StoredDoubles(file[h..])| >= (ind * dim) * g.sunvol
    ensures Matrices(g, StoredDoubles(file[h..]), ind * dim + dim)
            == Matrices(g, StoredDoubles(file[h..]), ind * dim) + Matrices(g, StoredDoubles(file[p .. p + g.sunvol * dim]), dim)
  {
    var xs := StoredDoubles(file[h..]);
    var bs := g.sunvol * dim;
    assert (ind * dim) * g.sunvol == ind * bs;
    MulLe(0, ind, dim);
    MulLe(0, ind, bs);
    MatricesSplit(g, xs, ind * dim, dim);
    assert xs[ind * bs..][..bs] == StoredDoubles(file[p .. p + bs])[..bs];
    MatricesPrefix(g, xs[ind * bs..], StoredDoubles(file[p .. p + bs]), dim);
  }

  /** A block read in full and loaded into site ind extends the matrices
      read so far by the block's DIM matrices. */
  lemma ExtendRead<M>(g: Algebra<M>, file: seq<Word>, h: int, ind: nat, dim: nat, pos: int, host: Order,
                      b: seq<Word>, before: seq<M>, after: seq<M>)
    requires 0 <= h <= pos && pos == h + ind * (g.sunvol * dim) && pos + g.sunvol * dim <= |file|
    requires b == FixWords(file[pos .. pos + g.sunvol * dim], host)
    requires 0 <= ind * dim && ind * dim + dim <= |after| && |before| == |after|
    requires before[..ind * dim] == Matrices(g, StoredDoubles(file[h..]), ind * dim)
    requires after[..ind * dim] == before[..ind * dim]
    requires SiteLinks(after, dim, ind) == Matrices(g, HostDoubles(b, host), dim)
    ensures after[..ind * dim + dim] == Matrices(g, StoredDoubles(file[h..]), ind * dim + dim)
  {
    HostReadsStored(file[pos .. pos + g.sunvol * dim], host);
    ReadStep(g, file, h, ind, dim, pos);
    assert after[..ind * dim + dim] == after[..ind * dim] + SiteLinks(after, dim, ind);
  }

  /** One pass of the site loop of readConfig: fread of the block of site
      ind at pos, the swap, and the block's matrices into the site's slots.
      The count of items read so far stays full exactly while the file
      holds every block up to this one, and then the slots filled so far
      hold the stored matrices. */
  method ReadBlock<M(0)>(g: Algebra<M>, u: GaugeField<M>, file: seq<Word>, h: int, host: Order,
                         buff: array<Word>, ind: int, pos: int, icheck: int) returns (icheck': int)
    requires u.Valid() && 0 <= ind < u.vol && u.dim >= 1
    requires buff.Length == g.sunvol * u.dim >= 1 && buff as object != u.block
    requires 0 <= h <= pos && pos == h + ind * (g.sunvol * u.dim)
    requires 0 <= ind * u.dim && ind * u.dim + u.dim <= |u.Links()|
    requires 0 <= icheck <= pos - h
    requires icheck == pos - h <==> pos <= |file|
    requires icheck == pos - h ==> u.Links()[..ind * u.dim] == Matrices(g, StoredDoubles(file[h..]), ind * u.dim)
    modifies u.block, buff
    ensures 0 <= icheck' <= pos + buff.Length - h
    ensures icheck' == pos + buff.Length - h <==> pos + buff.Length <= |file|
    ensures icheck' == pos + buff.Length - h ==>
              u.Links()[..ind * u.dim + u.dim] == Matrices(g, StoredDoubles(file[h..]), ind * u.dim + u.dim)
  {
    ghost var full := icheck == pos - h;
    ghost var before := u.Links();
    var count := Fread(file, pos, buff);
    ghost var raw := buff[..];
    icheck' := icheck + count;
    FixBuffer(buff, host);
    ghost var fixed := buff[..];
    LoadSite(g, u, ind, buff, host);
    if full && count == buff.Length {
      assert raw == raw[..count];
      ExtendRead(g, file, h, ind, u.dim, pos, host, fixed, before, u.Links());
    }
  }

  /** The site loop of readConfig: every site's block in turn from the
      running position.  icheck counts the items read; when every block was
      read in full the field holds the stored matrices, in order. */
  method ReadSites<M(0)>(g: Algebra<M>, u: GaugeField<M>, file: seq<Word>, h: int, host: Order) returns (icheck: int)
    requires u.Valid() && u.dim >= 1 && g.sunvol >= 1 && 0 <= h <= |file|
    modifies u.block
    ensures icheck == u.vol * (g.sunvol * u.dim) <==> h + u.vol * (g.sunvol * u.dim) <= |file|
    ensures icheck == u.vol * (g.sunvol * u.dim) ==> u.Links() == ReadSlots(g, file[h..], u.vol * u.dim)
  {
    var bs := g.sunvol * u.dim;
    MulPositive(g.sunvol, u.dim);
    var buff := new Word[bs];
    icheck := 0;
    var ind, pos := 0, h;
    while ind < u.vol
      invariant 0 <= ind <= u.vol && pos == h + ind * bs
      invariant 0 <= icheck <= pos - h
      invariant icheck == pos - h <==> pos <= |file|
      invariant icheck == pos - h ==> u.Links()[..ind * u.dim] == Matrices(g, StoredDoubles(file[h..]), ind * u.dim)
    {
      ChunkBound(ind, u.vol, bs);
      ChunkBound(ind, u.vol, u.dim);
      icheck := ReadBlock(g, u, file, h, host, buff, ind, pos, icheck);
      ind, pos := ind + 1, pos + bs;
    }
    assert u.Links()[..u.vol * u.dim] == u.Links();
  }

  /** fabs(plaq - plaq0) > eps: the plaquette test of readConfig. */
  predicate PlaquetteTestFails(plaq: real, plaq0: real, eps: real)
  {
    Abs(plaq - plaq0) > eps
  }

  /** The reading part of readConfig (standard layout): the header checks,
      then the site loop and its item count; the outcome is DecodeStd's. */
  method LoadStd<M(0)>(g: Algebra<M>, ext: seq<int>, u: GaugeField<M>, file: seq<Word>, host: Order)
    returns (err: Option<ReadError>, plaq0: real)
    requires ValidExtents(ext) && g.sunvol >= 1
    requires u.Valid() && u.vol == Volume(ext) && u.dim == |ext|
    modifies u.block
    ensures DecodeStd(g, ext, file).Fail? ==> err == Some(DecodeStd(g, ext, file).err)
    ensures DecodeStd(g, ext, file).Ok? ==> err == None && (u.Links(), plaq0) == DecodeStd(g, ext, file).value
  {
    var d := |ext|;
    plaq0 := 0.0;
    err := CheckHeader(g, ext, file, host, d + 3);
    if err != None {
      return;
    }
    plaq0 := AsDouble(FixOrder(file[d + 2], host), host);
    ReadIsHostIndependent(file[d + 2], host);
    var icheck := ReadSites(g, u, file, d + 3, host);
    assert u.vol * (g.sunvol * u.dim) == Volume(ext) * d * g.sunvol;
    if icheck != d * g.sunvol * u.vol {
      return Some(ReadFailed), plaq0;
    }
  }

  /** readConfig (standard layout).  It fails when the field is not
      allocated, with the first failing header check, when the payload is
      short, or when the plaquette of the read field differs from the stored
      one by more than eps; otherwise the field holds the stored links. */
  method ReadConfig<M(0)>(g: Algebra<M>, lat: Lattice, u: GaugeField?<M>, file: seq<Word>, host: Order, eps: real)
    returns (err: Option<ReadError>)
    requires lat.TableFilled() && g.n >= 1 && g.sunvol >= 1
    requires u != null ==> u.Valid() && u.vol == Volume(lat.ext) && u.dim == |lat.ext|
    modifies if u == null then {} else {u.block}
    ensures ValidExtents(lat.ext)
    ensures u == null ==> err == Some(NotAllocated)
    ensures u != null && DecodeStd(g, lat.ext, file).Fail? ==> err == Some(DecodeStd(g, lat.ext, file).err)
    ensures u != null && DecodeStd(g, lat.ext, file).Ok? ==>
              var (links, plaq0) := DecodeStd(g, lat.ext, file).value;
              && u.Links() == links
              && (err == None <==> !PlaquetteTestFails(PlaquetteValue(g, lat.ext, NeighbourTable(lat.ext), FieldLinks(g, |lat.ext|, links)), plaq0, eps))
              && (err != None ==> err == Some(PlaquetteTestFailed))
  {
    if u == null {
      return Some(NotAllocated);
    }
    var plaq0;
    err, plaq0 := LoadStd(g, lat.ext, u, file, host);
    if err != None {
      return;
    }
    var plaq := ComputePlaquette(g, lat, u);
    if PlaquetteTestFails(plaq, plaq0, eps) {
      return Some(PlaquetteTestFailed);
    }
  }
}
