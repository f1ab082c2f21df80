/** The master-field layout of a configuration file (MASTER_FIELD == 1).

    A large lattice (the master field, extents LENGT_MF .. LENGS3_MF) is
    stored as one file made of a DIM+2 item header (DIM, SUN, the master-field
    extents; no plaquette) followed by one block of SUNVOL*DIM doubles per
    master-field site.  A sub-volume is written into the file at the blocks
    that index_mf assigns to its sites, with fseek to
    offset_header + index_mf[i[in]] * block size, and read back in the same
    way.  Positions and sizes are counted in items, as in the standard
    layout. */
module MasterField {
  import opened CArith
  import opened LinkAlgebra
  import opened Init
  import opened ConfigIO

  // ---------------------------------------------------------------------------
  // The file as fseek and fwrite leave it

  /** The item a gap left by fseek beyond the end of the file reads as:
      zero bytes. */
  const Hole := Word(RealVal(0.0), LittleEndian)

  /** fseek to position p and fwrite of data: the items at p .. p+|data|-1
      are replaced, the file grows when the write runs past its end, and a
      gap between the old end and p is filled with zero bytes. */
  function Overwrite(file: seq<Word>, p: nat, data: seq<Word>): (f: seq<Word>)
    ensures |f| == if p + |data| <= |file| then |file| else p + |data|
    ensures f[p .. p + |data|] == data
    ensures forall k :: 0 <= k < |f| && !(p <= k < p + |data|) ==> f[k] == if k < |file| then file[k] else Hole
  {
    if p <= |file| then
      file[..p] + data + (if p + |data| <= |file| then file[p + |data|..] else [])
    else
      file + seq(p - |file|, _ => Hole) + data
  }

  // ---------------------------------------------------------------------------
  // The maps that place sites in the file

  /** i[in] names a site of the sub-volume for every in. */
  predicate SitesIn(sites: seq<int>, vol: int)
  {
    forall k :: 0 <= k < |sites| ==> 0 <= sites[k] < vol
  }

  /** index_mf gives every site a block number of the master field. */
  predicate BlockNumbers(indexMF: seq<int>)
  {
    forall s :: 0 <= s < |indexMF| ==> indexMF[s] >= 0
  }

  /** No two sites share a block of the master field. */
  predicate Injective(indexMF: seq<int>)
  {
    forall s, t :: 0 <= s < |indexMF| && 0 <= t < |indexMF| && s != t ==> indexMF[s] != indexMF[t]
  }

  /** The item at which the block of site s starts. */
  function BlockPos(off: nat, indexMF: seq<int>, s: int, bs: nat): (p: nat)
    requires 0 <= s < |indexMF| && BlockNumbers(indexMF)
    ensures p >= off
  {
    MulLe(0, indexMF[s], bs);
    off + indexMF[s] * bs
  }

  /** Blocks with different numbers do not overlap. */
  lemma BlocksApart(a: int, b: int, bs: nat)
    requires 0 <= a && 0 <= b && a != b
    ensures a * bs + bs <= b * bs || b * bs + bs <= a * bs
  {
    if a < b {
      MulLe(a + 1, b, bs);
    } else {
      MulLe(b + 1, a, bs);
    }
  }

  // ---------------------------------------------------------------------------
  // Writing

  /** The block writeConfig makes of every site: its DIM links as doubles,
      stored little-endian. */
  function SiteBlocks<M>(g: Algebra<M>, links: seq<M>, dim: nat, vol: nat): (bl: seq<seq<Word>>)
    requires |links| == vol * dim
    ensures |bl| == vol
  {
    seq(vol, s requires 0 <= s < vol =>
      OffsetBound(vol, dim, s, dim);
      Words(PayloadValues(g, SiteLinks(links, dim, s)), LittleEndian))
  }

  /** The file after the first n passes of the site loop of writeConfig:
      pass in writes the block of site i[in] at its position. */
  function WriteBlocks(file: seq<Word>, blocks: seq<seq<Word>>, sites: seq<int>, indexMF: seq<int>,
                       off: nat, bs: nat, n: nat): seq<Word>
    requires n <= |sites| && SitesIn(sites, |blocks|) && |indexMF| == |blocks| && BlockNumbers(indexMF)
  {
    if n == 0 then file
    else Overwrite(WriteBlocks(file, blocks, sites, indexMF, off, bs, n - 1),
                   BlockPos(off, indexMF, sites[n - 1], bs), blocks[sites[n - 1]])
  }

  /** The writes never shrink the file and never touch the items before
      offset_header: the header written first survives. */
  lemma {:induction false} HeaderKept(file: seq<Word>, blocks: seq<seq<Word>>, sites: seq<int>, indexMF: seq<int>,
                                      off: nat, bs: nat, n: nat)
    requires n <= |sites| && SitesIn(sites, |blocks|) && |indexMF| == |blocks| && BlockNumbers(indexMF)
    requires off <= |file|
    ensures |WriteBlocks(file, blocks, sites, indexMF, off, bs, n)| >= |file|
    ensures WriteBlocks(file, blocks, sites, indexMF, off, bs, n)[..off] == file[..off]
  {
    if n > 0 {
      HeaderKept(file, blocks, sites, indexMF, off, bs, n - 1);
      var prev := WriteBlocks(file, blocks, sites, indexMF, off, bs, n - 1);
      var f := WriteBlocks(file, blocks, sites, indexMF, off, bs, n);
      assert forall k :: 0 <= k < off ==> f[k] == prev[k];
    }
  }

  /** When blocks are bs items long and index_mf is injective, each block
      lies at its site's position in the file after the loop, whatever was
      written after it. */
  lemma {:induction false} BlockPlaced(file: seq<Word>, blocks: seq<seq<Word>>, sites: seq<int>, indexMF: seq<int>,
                                       off: nat, bs: nat, n: nat, j: nat)
    requires n <= |sites| && SitesIn(sites, |blocks|) && |indexMF| == |blocks| && BlockNumbers(indexMF)
    requires Injective(indexMF) && forall s :: 0 <= s < |blocks| ==> |blocks[s]| == bs
    requires j < n
    ensures BlockPos(off, indexMF, sites[j], bs) + bs <= |WriteBlocks(file, blocks, sites, indexMF, off, bs, n)|
    ensures WriteBlocks(file, blocks, sites, indexMF, off, bs, n)[BlockPos(off, indexMF, sites[j], bs) ..][..bs]
            == blocks[sites[j]]
  {
    var p := BlockPos(off, indexMF, sites[j], bs);
    var f := WriteBlocks(file, blocks, sites, indexMF, off, bs, n);
    if j < n - 1 {
      BlockPlaced(file, blocks, sites, indexMF, off, bs, n - 1, j);
      var prev := WriteBlocks(file, blocks, sites, indexMF, off, bs, n - 1);
      var q := BlockPos(off, indexMF, sites[n - 1], bs);
      if sites[n - 1] != sites[j] {
        BlocksApart(indexMF[sites[j]], indexMF[sites[n - 1]], bs);
        assert forall k :: p <= k < p + bs ==> f[k] == prev[k];
      }
    }
    assert f[p ..][..bs] == f[p .. p + bs];
  }

  /** An item that no pass of the loop writes keeps its value. */
  lemma {:induction false} ItemsUntouched(file: seq<Word>, blocks: seq<seq<Word>>, sites: seq<int>, indexMF: seq<int>,
                                          off: nat, bs: nat, n: nat, k: int)
    requires n <= |sites| && SitesIn(sites, |blocks|) && |indexMF| == |blocks| && BlockNumbers(indexMF)
    requires 0 <= k < |file|
    requires forall j :: 0 <= j < n ==> !(BlockPos(off, indexMF, sites[j], bs) <= k < BlockPos(off, indexMF, sites[j], bs) + |blocks[sites[j]]|)
    ensures k < |WriteBlocks(file, blocks, sites, indexMF, off, bs, n)|
    ensures WriteBlocks(file, blocks, sites, indexMF, off, bs, n)[k] == file[k]
  {
    if n > 0 {
      ItemsUntouched(file, blocks, sites, indexMF, off, bs, n - 1, k);
    }
  }

  // ---------------------------------------------------------------------------
  // Reading

  /** The blocks of sites 0 .. n-1 all lie inside the file. */
  predicate BlocksFit(file: seq<Word>, off: nat, indexMF: seq<int>, bs: nat, n: nat)
    requires n <= |indexMF| && BlockNumbers(indexMF)
  {
    n == 0 || (BlocksFit(file, off, indexMF, bs, n - 1) && BlockPos(off, indexMF, n - 1, bs) + bs <= |file|)
  }

  /** The links readConfig loads into sites 0 .. n-1: the DIM matrices of
      each site's block, site after site. */
  function LoadedMF<M>(g: Algebra<M>, file: seq<Word>, off: nat, indexMF: seq<int>, dim: nat, n: nat): seq<M>
    requires g.sunvol >= 1 && n <= |indexMF| && BlockNumbers(indexMF)
    requires BlocksFit(file, off, indexMF, g.sunvol * dim, n)
  {
    if n == 0 then []
    else LoadedMF(g, file, off, indexMF, dim, n - 1) + StoredBlock(g, file, BlockPos(off, indexMF, n - 1, g.sunvol * dim), dim)
  }

  /** readConfig (master-field layout) stated on the stored items: the header
      checks on DIM+2 items and the master-field extents, then the blocks of
      the first vol2 sites. */
  function DecodeMF<M>(g: Algebra<M>, extMF: seq<int>, file: seq<Word>, indexMF: seq<int>, vol2: nat): Outcome<seq<M>>
    requires g.sunvol >= 1 && vol2 <= |indexMF| && BlockNumbers(indexMF)
  {
    var d := |extMF|;
    match HeaderCheck(g, extMF, file, d + 2)
    case Some(e) => Fail(e)
    case None =>
      if !BlocksFit(file, d + 2, indexMF, g.sunvol * d, vol2) then Fail(ReadFailed)
      else Ok(LoadedMF(g, file, d + 2, indexMF, d, vol2))
  }

  /** The loaded links of n sites are n*DIM long. */
  lemma {:induction false} LoadedLength<M>(g: Algebra<M>, file: seq<Word>, off: nat, indexMF: seq<int>, dim: nat, n: nat)
    requires g.sunvol >= 1 && n <= |indexMF| && BlockNumbers(indexMF)
    requires BlocksFit(file, off, indexMF, g.sunvol * dim, n)
    ensures |LoadedMF(g, file, off, indexMF, dim, n)| == n * dim
  {
    if n > 0 {
      LoadedLength(g, file, off, indexMF, dim, n - 1);
      StoredBlockLength(g, file, BlockPos(off, indexMF, n - 1, g.sunvol * dim), dim);
      assert (n - 1) * dim + dim == n * dim;
    }
  }

  // ---------------------------------------------------------------------------
  // Writing, then reading

  /** Every site's block is SUNVOL*DIM items long. */
  lemma SiteBlocksSized<M(!new)>(g: Algebra<M>, links: seq<M>, dim: nat, vol: nat)
    requires Lawful(g) && g.sunvol >= 1 && |links| == vol * dim
    ensures forall s :: 0 <= s < vol ==> |SiteBlocks(g, links, dim, vol)[s]| == g.sunvol * dim
  {
    forall s | 0 <= s < vol
      ensures |SiteBlocks(g, links, dim, vol)[s]| == g.sunvol * dim
    {
      OffsetBound(vol, dim, s, dim);
      ReadPayload(g, SiteLinks(links, dim, s));
    }
  }

  /** The block of site s lies at its position in file f. */
  predicate BlockAt(f: seq<Word>, off: nat, indexMF: seq<int>, s: int, bs: nat, block: seq<Word>)
    requires 0 <= s < |indexMF| && BlockNumbers(indexMF)
  {
    BlockPos(off, indexMF, s, bs) + bs <= |f| && f[BlockPos(off, indexMF, s, bs) ..][..bs] == block
  }

  /** After a writeConfig pass over every site of the sub-volume, every
      site's block is at its position. */
  lemma AllPlaced(file: seq<Word>, blocks: seq<seq<Word>>, sites: seq<int>, indexMF: seq<int>, off: nat, bs: nat)
    requires SitesIn(sites, |blocks|) && |indexMF| == |blocks| && BlockNumbers(indexMF)
    requires Injective(indexMF) && forall s :: 0 <= s < |blocks| ==> |blocks[s]| == bs
    requires forall s :: 0 <= s < |blocks| ==> s in sites
    ensures forall s :: 0 <= s < |blocks| ==>
              BlockAt(WriteBlocks(file, blocks, sites, indexMF, off, bs, |sites|), off, indexMF, s, bs, blocks[s])
  {
    forall s | 0 <= s < |blocks|
      ensures BlockAt(WriteBlocks(file, blocks, sites, indexMF, off, bs, |sites|), off, indexMF, s, bs, blocks[s])
    {
      assert s in sites;
      var j :| 0 <= j < |sites| && sites[j] == s;
      BlockPlaced(file, blocks, sites, indexMF, off, bs, |sites|, j);
    }
  }

  /** A block holding the payload of DIM links reads back as those links. */
  lemma BlockReads<M(!new)>(g: Algebra<M>, f: seq<Word>, p: nat, dim: nat, site: seq<M>)
    requires Lawful(g) && g.sunvol >= 1 && |site| == dim
    requires p + g.sunvol * dim <= |f| && f[p ..][..g.sunvol * dim] == Words(PayloadValues(g, site), LittleEndian)
    ensures StoredBlock(g, f, p, dim) == site
  {
    ReadPayload(g, site);
    assert f[p .. p + g.sunvol * dim] == f[p ..][..g.sunvol * dim];
  }

  /** A file that holds every site's block at its position reads back, for
      the first n sites, as the links of those sites. */
  lemma {:induction false} LoadedFrom<M(!new)>(g: Algebra<M>, f: seq<Word>, links: seq<M>, dim: nat,
                                               indexMF: seq<int>, off: nat, n: nat)
    requires Lawful(g) && g.sunvol >= 1 && |links| == |indexMF| * dim && BlockNumbers(indexMF)
    requires forall s :: 0 <= s < |indexMF| ==>
               BlockAt(f, off, indexMF, s, g.sunvol * dim, SiteBlocks(g, links, dim, |indexMF|)[s])
    requires n <= |indexMF|
    ensures BlocksFit(f, off, indexMF, g.sunvol * dim, n)
    ensures 0 <= n * dim <= |links| && LoadedMF(g, f, off, indexMF, dim, n) == links[..n * dim]
  {
    if n == 0 {
      assert links[..0] == [];
    } else {
      var s := n - 1;
      LoadedFrom(g, f, links, dim, indexMF, off, s);
      SiteLoads(g, f, links, dim, indexMF, off, s);
      assert LoadedMF(g, f, off, indexMF, dim, n)
          == LoadedMF(g, f, off, indexMF, dim, s) + StoredBlock(g, f, BlockPos(off, indexMF, s, g.sunvol * dim), dim);
      assert links[..n * dim] == links[..s * dim] + SiteLinks(links, dim, s);
    }
  }

  /** The block of site s, where the file holds it, reads back as the links
      of site s. */
  lemma SiteLoads<M(!new)>(g: Algebra<M>, f: seq<Word>, links: seq<M>, dim: nat, indexMF: seq<int>, off: nat, s: int)
    requires Lawful(g) && g.sunvol >= 1 && |links| == |indexMF| * dim && BlockNumbers(indexMF) && 0 <= s < |indexMF|
    requires BlockAt(f, off, indexMF, s, g.sunvol * dim, SiteBlocks(g, links, dim, |indexMF|)[s])
    ensures BlockPos(off, indexMF, s, g.sunvol * dim) + g.sunvol * dim <= |f|
    ensures 0 <= s * dim && s * dim + dim <= |links| && (s + 1) * dim == s * dim + dim
    ensures StoredBlock(g, f, BlockPos(off, indexMF, s, g.sunvol * dim), dim) == SiteLinks(links, dim, s)
  {
    OffsetBound(|indexMF|, dim, s, dim);
    BlockReads(g, f, BlockPos(off, indexMF, s, g.sunvol * dim), dim, SiteLinks(links, dim, s));
  }

  /** The master-field file made of the header of writeHeaderToConfig and
      one writeConfig pass over the sites i[] of a sub-volume with links. */
  function MFFile<M>(g: Algebra<M>, extMF: seq<int>, links: seq<M>, sites: seq<int>, indexMF: seq<int>): seq<Word>
    requires |links| == |indexMF| * |extMF| && SitesIn(sites, |indexMF|) && BlockNumbers(indexMF)
  {
    var d := |extMF|;
    MulLe(0, g.sunvol, d);
    WriteBlocks(Words(HeaderInfo(extMF, g.n), LittleEndian), SiteBlocks(g, links, d, |indexMF|),
                sites, indexMF, d + 2, g.sunvol * d, |sites|)
  }

  /** That file passes the header checks of the master-field reader. */
  lemma MFHeaderPasses<M>(g: Algebra<M>, extMF: seq<int>, links: seq<M>, sites: seq<int>, indexMF: seq<int>)
    requires |links| == |indexMF| * |extMF| && SitesIn(sites, |indexMF|) && BlockNumbers(indexMF)
    ensures HeaderCheck(g, extMF, MFFile(g, extMF, links, sites, indexMF), |extMF| + 2) == None
  {
    var d := |extMF|;
    var header := Words(HeaderInfo(extMF, g.n), LittleEndian);
    var f := MFFile(g, extMF, links, sites, indexMF);
    MulLe(0, g.sunvol, d);
    HeaderKept(header, SiteBlocks(g, links, d, |indexMF|), sites, indexMF, d + 2, g.sunvol * d, |sites|);
    assert f[..d + 2] == header;
    assert f[2 .. 2 + d] == header[2 .. 2 + d] == Words(IntVals(extMF), LittleEndian);
  }

  /** That file's blocks read back as the links written. */
  lemma MFBlocksRead<M(!new)>(g: Algebra<M>, extMF: seq<int>, links: seq<M>, sites: seq<int>, indexMF: seq<int>)
    requires Lawful(g) && g.sunvol >= 1 && |links| == |indexMF| * |extMF|
    requires SitesIn(sites, |indexMF|) && forall s :: 0 <= s < |indexMF| ==> s in sites
    requires BlockNumbers(indexMF) && Injective(indexMF)
    ensures BlocksFit(MFFile(g, extMF, links, sites, indexMF), |extMF| + 2, indexMF, g.sunvol * |extMF|, |indexMF|)
    ensures LoadedMF(g, MFFile(g, extMF, links, sites, indexMF), |extMF| + 2, indexMF, |extMF|, |indexMF|) == links
  {
    var d := |extMF|;
    var vol := |indexMF|;
    var bs := g.sunvol * d;
    SiteBlocksSized(g, links, d, vol);
    AllPlaced(Words(HeaderInfo(extMF, g.n), LittleEndian), SiteBlocks(g, links, d, vol), sites, indexMF, d + 2, bs);
    LoadedFrom(g, MFFile(g, extMF, links, sites, indexMF), links, d, indexMF, d + 2, vol);
    assert links[..vol * d] == links;
  }

  /** The master-field round trip: with an injective index_mf and i[]
      covering the sub-volume, the file reads back, with the same index_mf,
      as the links written. */
  lemma MFRoundTrip<M(!new)>(g: Algebra<M>, extMF: seq<int>, links: seq<M>, sites: seq<int>, indexMF: seq<int>)
    requires Lawful(g) && g.sunvol >= 1 && |links| == |indexMF| * |extMF|
    requires SitesIn(sites, |indexMF|) && forall s :: 0 <= s < |indexMF| ==> s in sites
    requires BlockNumbers(indexMF) && Injective(indexMF)
    ensures DecodeMF(g, extMF, MFFile(g, extMF, links, sites, indexMF), indexMF, |indexMF|) == Ok(links)
  {
    MFHeaderPasses(g, extMF, links, sites, indexMF);
    MFBlocksRead(g, extMF, links, sites, indexMF);
  }

  // ---------------------------------------------------------------------------
  // prepareConfig

  /** updateArrayOfIndexMF(n) gives an index_mf for every n < VOL_SL. */
  predicate MapsOk(maps: seq<seq<int>>, vol: nat)
  {
    forall m :: 0 <= m < |maps| ==> |maps[m]| == vol && BlockNumbers(maps[m])
  }

  /** The file prepareConfig has made after the header and n writeConfig
      passes, pass m with the index_mf of maps[m]. */
  function Prepared<M>(g: Algebra<M>, extMF: seq<int>, links: seq<M>, vol: nat, sites: seq<int>,
                       maps: seq<seq<int>>, n: nat): seq<Word>
    requires |links| == vol * |extMF| && SitesIn(sites, vol) && MapsOk(maps, vol) && n <= |maps|
  {
    if n == 0 then Words(HeaderInfo(extMF, g.n), LittleEndian)
    else
      MulLe(0, g.sunvol, |extMF|);
      WriteBlocks(Prepared(g, extMF, links, vol, sites, maps, n - 1), SiteBlocks(g, links, |extMF|, vol),
                  sites, maps[n - 1], |extMF| + 2, g.sunvol * |extMF|, |sites|)
  }

  /** The header prepareConfig writes first is still at the head of the
      file after every pass. */
  lemma {:induction false} PreparedHeader<M>(g: Algebra<M>, extMF: seq<int>, links: seq<M>, vol: nat, sites: seq<int>,
                                             maps: seq<seq<int>>, n: nat)
    requires |links| == vol * |extMF| && SitesIn(sites, vol) && MapsOk(maps, vol) && n <= |maps|
    ensures |Prepared(g, extMF, links, vol, sites, maps, n)| >= |extMF| + 2
    ensures Prepared(g, extMF, links, vol, sites, maps, n)[..|extMF| + 2] == Words(HeaderInfo(extMF, g.n), LittleEndian)
  {
    if n > 0 {
      PreparedHeader(g, extMF, links, vol, sites, maps, n - 1);
      MulLe(0, g.sunvol, |extMF|);
      var prev := Prepared(g, extMF, links, vol, sites, maps, n - 1);
      HeaderKept(prev, SiteBlocks(g, links, |extMF|, vol), sites, maps[n - 1], |extMF| + 2, g.sunvol * |extMF|, |sites|);
    }
  }

  // ---------------------------------------------------------------------------
  // The master-field functions of the I/O module

  /** One pass of the site loop of the master-field readConfig: fseek to
      the block of site ind, fread, the swap, and the block's matrices into
      the site's slots.  The count of items read so far stays full exactly
      while the blocks up to this one lie inside the file, and then the
      slots filled so far hold the stored blocks. */
  method LoadBlockMF<M(0)>(g: Algebra<M>, u: GaugeField<M>, file: seq<Word>, off: nat, indexMF: seq<int>, host: Order,
                           buff: array<Word>, ind: nat, icheck: int) returns (icheck': int)
    requires u.Valid() && ind < u.vol && ind < |indexMF| && BlockNumbers(indexMF)
    requires buff.Length == g.sunvol * u.dim >= 1 && buff as object != u.block
    requires 0 <= ind * u.dim && ind * u.dim + u.dim <= |u.Links()| && 0 <= ind * buff.Length
    requires 0 <= icheck <= ind * buff.Length
    requires icheck == ind * buff.Length <==> BlocksFit(file, off, indexMF, buff.Length, ind)
    requires icheck == ind * buff.Length ==> u.Links()[..ind * u.dim] == LoadedMF(g, file, off, indexMF, u.dim, ind)
    modifies u.block, buff
    ensures 0 <= icheck' <= ind * buff.Length + buff.Length
    ensures icheck' == ind * buff.Length + buff.Length <==> BlocksFit(file, off, indexMF, buff.Length, ind + 1)
    ensures icheck' == ind * buff.Length + buff.Length ==>
              u.Links()[..ind * u.dim + u.dim] == LoadedMF(g, file, off, indexMF, u.dim, ind + 1)
    ensures u.Links()[ind * u.dim + u.dim..] == old(u.Links()[ind * u.dim + u.dim..])
  {
    var pos := BlockPos(off, indexMF, ind, buff.Length);
    var count := Fread(file, pos, buff);
    ghost var raw := buff[..];
    icheck' := icheck + count;
    FixBuffer(buff, host);
    LoadSite(g, u, ind, buff, host);
    if icheck == ind * buff.Length && count == buff.Length {
      assert raw == raw[..count];
      HostReadsStored(raw, host);
      assert u.Links()[..ind * u.dim + u.dim] == u.Links()[..ind * u.dim] + SiteLinks(u.Links(), u.dim, ind);
    }
  }

  /** The site loop of the master-field readConfig over the first vol2
      sites.  icheck counts the items read; it is full exactly when every
      block lies inside the file, and then those sites hold the stored
      blocks.  The other sites keep their links. */
  method LoadBlocks<M(0)>(g: Algebra<M>, u: GaugeField<M>, file: seq<Word>, off: nat, indexMF: seq<int>,
                          vol2: nat, host: Order) returns (icheck: int)
    requires u.Valid() && u.dim >= 1 && g.sunvol >= 1
    requires vol2 <= u.vol && vol2 <= |indexMF| && BlockNumbers(indexMF)
    modifies u.block
    ensures 0 <= vol2 * u.dim <= |u.Links()| && 0 <= g.sunvol * u.dim
    ensures icheck == vol2 * (g.sunvol * u.dim) <==> BlocksFit(file, off, indexMF, g.sunvol * u.dim, vol2)
    ensures icheck == vol2 * (g.sunvol * u.dim) ==>
              u.Links()[..vol2 * u.dim] == LoadedMF(g, file, off, indexMF, u.dim, vol2)
    ensures u.Links()[vol2 * u.dim..] == old(u.Links()[vol2 * u.dim..])
  {
    var bs := g.sunvol * u.dim;
    MulPositive(g.sunvol, u.dim);
    var buff := new Word[bs];
    icheck := 0;
    var ind := 0;
    while ind < vol2
      invariant 0 <= ind <= vol2 && 0 <= ind * u.dim <= |u.Links()| && 0 <= ind * bs
      invariant 0 <= icheck <= ind * bs
      invariant icheck == ind * bs <==> BlocksFit(file, off, indexMF, bs, ind)
      invariant icheck == ind * bs ==> u.Links()[..ind * u.dim] == LoadedMF(g, file, off, indexMF, u.dim, ind)
      invariant u.Links()[ind * u.dim..] == old(u.Links()[ind * u.dim..])
    {
      ChunkBound(ind, u.vol, u.dim);
      ChunkBound(ind, u.vol, bs);
      icheck := LoadBlockMF(g, u, file, off, indexMF, host, buff, ind, icheck);
      ind := ind + 1;
    }
  }

  /** The buffer of writeConfig for site s: mk_sun_dble_array of its DIM
      links, swapped on a big-endian host, which is the site's block. */
  method FillBlock<M(0,!new)>(g: Algebra<M>, u: GaugeField<M>, s: int, buff: array<Word>, host: Order)
    requires u.Valid() && 0 <= s < u.vol && Sized(g)
    requires buff.Length == g.sunvol * u.dim && buff as object != u.block
    modifies buff
    ensures |u.Links()| == u.vol * u.dim
    ensures buff[..] == SiteBlocks(g, u.Links(), u.dim, u.vol)[s]
  {
    FillSite(g, u, s, buff, host);
    FixBuffer(buff, host);
    FixNative(PayloadValues(g, SiteLinks(u.Links(), u.dim, s)), host);
  }

  /** The master-field I/O functions and the static offset_header they
      share: writeHeaderToConfig sets it, writeConfig and readConfig seek
      relative to it. */
  class MasterFieldIO {
    var offsetHeader: nat

    /** offset_header before any header was written. */
    constructor ()
      ensures offsetHeader == 0
    {
      offsetHeader := 0;
    }

    /** writeHeaderToConfig: info (DIM, SUN) and the master-field extents,
        swapped on a big-endian host; offset_header is the position after
        them. */
    method WriteHeaderToConfig(extMF: seq<int>, sun: int, host: Order) returns (file: seq<Word>)
      modifies this
      ensures file == Words(HeaderInfo(extMF, sun), LittleEndian)
      ensures offsetHeader == |file| == |extMF| + 2
    {
      var info := FixWords(Words([IntVal(|extMF|), IntVal(sun)], host), host);
      var lswrite := FixWords(Words(IntVals(extMF), host), host);
      FixNative([IntVal(|extMF|), IntVal(sun)], host);
      FixNative(IntVals(extMF), host);
      file := info + lswrite;
      offsetHeader := |file|;
    }

    /** writeConfig (master-field layout): the buffer of every site i[in],
        swapped on a big-endian host, written at
        offset_header + index_mf[i[in]] * SUNVOL*DIM. */
    method WriteConfig<M(0,!new)>(g: Algebra<M>, u: GaugeField<M>, sites: seq<int>, indexMF: seq<int>,
                                  host: Order, file: seq<Word>) returns (file': seq<Word>)
      requires u.Valid() && Sized(g)
      requires |sites| == u.vol && SitesIn(sites, u.vol) && |indexMF| == u.vol && BlockNumbers(indexMF)
      ensures |u.Links()| == u.vol * u.dim && 0 <= g.sunvol * u.dim
      ensures file' == WriteBlocks(file, SiteBlocks(g, u.Links(), u.dim, u.vol), sites, indexMF,
                                   offsetHeader, g.sunvol * u.dim, u.vol)
    {
      MulLe(0, g.sunvol, u.dim);
      ghost var blocks := SiteBlocks(g, u.Links(), u.dim, u.vol);
      var bs := g.sunvol * u.dim;
      var buff := new Word[bs];
      file' := file;
      var ind := 0;
      while ind < u.vol
        invariant 0 <= ind <= u.vol
        invariant file' == WriteBlocks(file, blocks, sites, indexMF, offsetHeader, bs, ind)
      {
        var s := sites[ind];
        FillBlock(g, u, s, buff, host);
        var pos := BlockPos(offsetHeader, indexMF, s, bs);
        file' := Overwrite(file', pos, buff[..]);
        ind := ind + 1;
      }
    }

    /** readConfig (master-field layout).  It fails when the field is not
        allocated or with the first failing header check; otherwise it
        reads the block of every site in < VOL2 from
        offset_header + index_mf[in] * SUNVOL*DIM into the site's slots and
        fails when a block lies past the end of the file.  On success the
        first VOL2 sites hold the stored blocks; the other sites keep their
        links. */
    method ReadConfig<M(0)>(g: Algebra<M>, extMF: seq<int>, u: GaugeField?<M>, indexMF: seq<int>, vol2: nat,
                            file: seq<Word>, host: Order) returns (err: Option<ReadError>)
      requires g.sunvol >= 1 && |extMF| >= 1 && offsetHeader == |extMF| + 2
      requires vol2 <= |indexMF| && BlockNumbers(indexMF)
      requires u != null ==> u.Valid() && u.dim == |extMF| && vol2 <= u.vol
      modifies if u == null then {} else {u.block}
      ensures u == null ==> err == Some(NotAllocated)
      ensures u != null && DecodeMF(g, extMF, file, indexMF, vol2).Fail? ==>
                err == Some(DecodeMF(g, extMF, file, indexMF, vol2).err)
      ensures u != null && DecodeMF(g, extMF, file, indexMF, vol2).Ok? ==>
                && err == None
                && 0 <= vol2 * u.dim <= |u.Links()|
                && u.Links()[..vol2 * u.dim] == DecodeMF(g, extMF, file, indexMF, vol2).value
                && u.Links()[vol2 * u.dim..] == old(u.Links()[vol2 * u.dim..])
    {
      if u == null {
        return Some(NotAllocated);
      }
      err := CheckHeader(g, extMF, file, host, |extMF| + 2);
      if err != None {
        return;
      }
      var icheck := LoadBlocks(g, u, file, offsetHeader, indexMF, vol2, host);
      assert |extMF| * g.sunvol * vol2 == vol2 * (g.sunvol * u.dim);
      if icheck != |extMF| * g.sunvol * vol2 {
        return Some(ReadFailed);
      }
    }

    /** prepareConfig: the header, then one writeConfig pass for each of the
        VOL_SL index maps updateArrayOfIndexMF produces. */
    method PrepareConfig<M(0,!new)>(g: Algebra<M>, extMF: seq<int>, u: GaugeField<M>, sites: seq<int>,
                                    maps: seq<seq<int>>, host: Order) returns (file: seq<Word>)
      requires u.Valid() && Sized(g) && u.dim == |extMF|
      requires |sites| == u.vol && SitesIn(sites, u.vol) && MapsOk(maps, u.vol)
      modifies this
      ensures offsetHeader == |extMF| + 2
      ensures |u.Links()| == u.vol * |extMF|
      ensures file == Prepared(g, extMF, u.Links(), u.vol, sites, maps, |maps|)
    {
      file := WriteHeaderToConfig(extMF, g.n, host);
      var n := 0;
      while n < |maps|
        invariant 0 <= n <= |maps| && offsetHeader == |extMF| + 2
        invariant file == Prepared(g, extMF, u.Links(), u.vol, sites, maps, n)
      {
        file := WriteConfig(g, u, sites, maps[n], host, file);
        n := n + 1;
      }
    }
  }
}
