# Lattice gauge theory course code: a verified model of its core

This project models the core of a C program that simulates SU(N) lattice
gauge theory on a periodic hyper-cubic lattice of dimension DIM (2, 3 or 4),
and proves properties of the model in Dafny 4.11.

The core has five parts:

- **Program set-up** (`modules/admin/init.c`):
  - the run-parameter check of `initProgram`;
  - the neighbour table built by `initArrayOfNeighbours` from the mixed-radix
    site numbering;
  - the gauge field, `VOL*DIM` pointers into one contiguous block, made by
    `allocateGaugeField` and `initGaugeField` and copied by `copyGaugeField`.
- **Observables** (`modules/obs`):
  - the average plaquette and the Wilson gauge action (`plaquette.c`);
  - Wilson loops (`wilson.c`), where `compute_wloop` traces the product of the
    links around an `l1 x l2` rectangle and `measureWilsonLoop` averages these
    traces over sites, spatial directions and time translations.
- **Configuration files** (`modules/io/config_IO.c`), in two layouts:
  - the standard layout: a header `[DIM, SUN, extents, plaquette]` followed by
    the links site by site, read back with header checks, a length check and a
    plaquette test;
  - the master-field layout: a header without plaquette, written once by
    `writeHeaderToConfig`, followed by one block per master-field site at the
    position `index_mf` gives it, filled by `writeConfig`/`prepareConfig` and
    read back by `readConfig`.
- **The main loop** (`main/qcd.c`): it runs `numConfs` sweeps and, after the
  sweeps that the write schedule selects, writes a configuration to a file
  numbered by the counter `nw`.

How the model is built:

- **Link matrices.** The matrix type is a type parameter `M`. The group
  operations (`sun_unit`, `sun_mul`, `sun_dag`, `sun_trace` and the
  conversions to and from `SUNVOL` doubles) form a record `Algebra<M>`. The
  predicate `Lawful` lists the only algebraic facts the proofs use.
- **Files.** A file is a sequence of items. Each item is a `stdint_t` or a
  `double` tagged with the byte order it is stored in. A big-endian host swaps
  every item before `fwrite` and after `fread`; a little-endian host leaves it.
  The specifications are stated on the stored items, so the same file results
  whatever the host.
- **State.**
  - The neighbour table, the gauge fields, the measurement workspace
    (the static `init` flag with its two working fields) and the static
    `offset_header` are classes with mutable fields.
  - The loops of the C code are methods with loop invariants.
  - Each method is proved against a specification function, and the
    properties of those functions are proved as lemmas.

Modules, one per file: `CArith` (C's truncating `/` and `%`),
`LinkAlgebra`, `Geometry`, `Init`, `Plaquette`, `Wilson`, `ConfigIO`,
`MasterField`, `Schedule`.

## Model

| member | source | states |
|---|---|---|
| CArith.CDivNonNegative | lgtcoursecode-WS2020_v7/modules/obs/wilson.c:74-75 | for a non-negative dividend and a positive divisor, C's truncating `/` and `%` equal the Euclidean ones |
| CArith.CRemZero | lgtcoursecode-WS2020_v7/modules/admin/init.c:43 | C's remainder is zero exactly when the Euclidean remainder is zero, for every sign of dividend and divisor |
| Init.InitProgram | lgtcoursecode-WS2020_v7/modules/admin/init.c:39-49 | initProgram accepts the run parameters iff numConfs > 0, decorSteps >= 0, numThermConfs >= 0 and, when writes are enabled, numConfs - numThermConfs is a multiple of writeConfsFreq |
| Init.InitProgramAgrees | lgtcoursecode-WS2020_v7/modules/admin/init.c:42-44 | wherever the test as written is defined, it calls error() exactly when the corrected check rejects |
| Init.InitDividesByZero | lgtcoursecode-WS2020_v7/modules/admin/init.c:43 | with writeConfsFreq == 0 the test as written divides by zero, although these parameters are acceptable |
| Geometry.VolumeFactorFacts | lgtcoursecode-WS2020_v7/modules/admin/init.c:61-91 | volumeFactor is 1 in the last direction, volumeFactor[d-1] == extent[d] * volumeFactor[d], and VOL == extent[0] * volumeFactor[0] >= 1 |
| Geometry.VolumeOtherDirsFacts | lgtcoursecode-WS2020_v7/modules/admin/init.c:61-91 | volumeOtherDirs[d] * extent[d] == VOL, and volumeOtherDirs[0] equals the time stride volumeFactor[0] |
| Geometry.CoordinatesInRange | lgtcoursecode-WS2020_v7/modules/admin/init.c:103-107 | every site index in [0, VOL) decodes to coordinates inside the lattice |
| Geometry.EncodeDecode | lgtcoursecode-WS2020_v7/modules/admin/init.c:103-116 | decoding a site index and encoding the coordinates gives the index back |
| Geometry.DecodeEncode | lgtcoursecode-WS2020_v7/modules/admin/init.c:103-116 | encoding in-range coordinates and decoding the index gives the coordinates back |
| Geometry.SiteIndexInRange | lgtcoursecode-WS2020_v7/modules/admin/init.c:115-116 | in-range coordinates encode to a site index in [0, VOL) |
| Geometry.NeighbourCoordinates | lgtcoursecode-WS2020_v7/modules/admin/init.c:113-121 | the forward (backward) neighbour differs from the site only in coordinate d, which moves by +1 (-1) modulo the extent |
| Geometry.NeighbourInRange | lgtcoursecode-WS2020_v7/modules/admin/init.c:113-121 | every entry neib[i][k] of the table is a site index |
| Geometry.ShiftInRange | lgtcoursecode-WS2020_v7/modules/admin/init.c:114-119 | a periodic shift keeps coordinates inside the lattice |
| Geometry.ShiftShift | lgtcoursecode-WS2020_v7/modules/admin/init.c:114-119 | shifts along one direction add up; shifts along different directions commute |
| Geometry.ShiftByMultiple | lgtcoursecode-WS2020_v7/modules/admin/init.c:114-119 | a shift by a multiple of the extent changes nothing |
| Geometry.BackwardForward | lgtcoursecode-WS2020_v7/modules/admin/init.c:113-121 | neib[neib[i][d]][d+DIM] == i |
| Geometry.ForwardBackward | lgtcoursecode-WS2020_v7/modules/admin/init.c:113-121 | neib[neib[i][d+DIM]][d] == i |
| Geometry.ForwardIsPermutation | lgtcoursecode-WS2020_v7/modules/admin/init.c:113-116 | for a fixed direction, the forward step is injective and onto the sites |
| Init.Lattice.constructor | lgtcoursecode-WS2020_v7/modules/admin/init.c:52-57 | the neighbour table has VOL rows and 2*DIM columns |
| Init.Lattice.InitArrayOfNeighbours | lgtcoursecode-WS2020_v7/modules/admin/init.c:52-140 | afterwards latParams holds the extents, strides and slice volumes, and neib[i][k] is the neighbour of i in signed direction k for every site and direction |
| Init.Lattice.FillRow | lgtcoursecode-WS2020_v7/modules/admin/init.c:108-122 | the loop over dir1 sets neib[i][dir1] and neib[i][dir1+DIM] to the neighbours of site i in +dir1 and -dir1 and changes no other row |
| Init.Lattice.CoordinatesOf | lgtcoursecode-WS2020_v7/modules/admin/init.c:103-107 | the divide-and-remainder loop yields the coordinates of site i |
| Init.Lattice.IndexOf | lgtcoursecode-WS2020_v7/modules/admin/init.c:115-116 | the accumulation of newCoord[d]*volumeFactor[d] yields the site index of newCoord |
| Init.SlotLayout | lgtcoursecode-WS2020_v7/modules/admin/init.c:196-206 | the VOL*DIM pointers address pairwise distinct slots inside the block |
| Init.SlotCovers | lgtcoursecode-WS2020_v7/modules/admin/init.c:196-206 | every slot of the block is addressed by exactly the pointer pu[o/DIM][o%DIM] |
| Init.GaugeField.Allocate | lgtcoursecode-WS2020_v7/modules/admin/init.c:189-207 | a fresh block of VOL*DIM slots with pu[ind][dir] pointing at slot ind*DIM+dir |
| Init.GaugeField.SetCold | lgtcoursecode-WS2020_v7/modules/admin/init.c:157-169 | every link of the field is the unit matrix |
| Init.GaugeField.SetHot | lgtcoursecode-WS2020_v7/modules/admin/init.c:161-177 | the links are the random draws in the order the loop consumes them |
| Init.InitGaugeField | lgtcoursecode-WS2020_v7/modules/admin/init.c:143-180 | a flag other than 0 or 1 is an error; otherwise a fresh field, cold for flag 0, filled with the draws for flag 1 |
| Init.CopyGaugeField | lgtcoursecode-WS2020_v7/modules/admin/init.c:216-222 | u2 receives exactly u1's links and u1 is unchanged |
| Plaquette.PlaquettesExactlyOnce | lgtcoursecode-WS2020_v7/modules/obs/plaquette.c:41-60 | the three nested loops visit every plaquette (site, mu < nu) exactly once and nothing else |
| Plaquette.NPlaqMacro | lgtcoursecode-WS2020_v7/modules/obs/plaquette.c:61 | NPLAQ, one orientation per pair mu < nu, equals DIM*(DIM-1)/2 |
| Plaquette.PlaquetteCount | lgtcoursecode-WS2020_v7/modules/obs/plaquette.c:41-61 | the loops add NPLAQ*VOL terms |
| Plaquette.NormalisationCountsTerms | lgtcoursecode-WS2020_v7/modules/obs/plaquette.c:61 | the divisor SUN*NPLAQ*VOL is SUN times the number of terms and is positive |
| Plaquette.PlaquetteAffine | lgtcoursecode-WS2020_v7/modules/obs/plaquette.c:41-61 | the plaquette sum of a + b*f is a times the number of terms plus b times the sum of f |
| Plaquette.ComputePlaquette | lgtcoursecode-WS2020_v7/modules/obs/plaquette.c:31-65 | plaquette() returns the sum of the traces of the plaquette products divided by SUN*NPLAQ*VOL |
| Plaquette.SumPlaquettes | lgtcoursecode-WS2020_v7/modules/obs/plaquette.c:39-60 | the loops add the trace of every plaquette product |
| Plaquette.SumSites | lgtcoursecode-WS2020_v7/modules/obs/plaquette.c:41-60 | the loop over ii sums the plaquette terms of the sites 0 .. VOL-1 |
| Plaquette.AddSite | lgtcoursecode-WS2020_v7/modules/obs/plaquette.c:43-59 | the loop over jj adds the plaquettes of one site |
| Plaquette.AddRow | lgtcoursecode-WS2020_v7/modules/obs/plaquette.c:45-58 | the loop over kk adds the plaquettes (site, jj, kk) for jj < kk < DIM |
| Plaquette.AddPlaquette | lgtcoursecode-WS2020_v7/modules/obs/plaquette.c:47-57 | one pass adds the trace of U(x,mu) U(x+mu,nu) U(x+nu,mu)^dagger U(x,nu)^dagger |
| Plaquette.WilsonTerm | lgtcoursecode-WS2020_v7/modules/obs/plaquette.c:73 | each plaquette contributes beta*(1 - trace/SUN) to the Wilson action |
| Plaquette.AverageAction | lgtcoursecode-WS2020_v7/modules/obs/plaquette.c:68-74 | beta*NPLAQ*VOL*(1 - average plaquette) equals the sum over the plaquettes of beta*(1 - trace/SUN) |
| Plaquette.GaugeActionIsWilsonAction | lgtcoursecode-WS2020_v7/modules/obs/plaquette.c:68-74 | gaugeAction computed from the average plaquette is the Wilson action summed over plaquettes |
| Plaquette.GaugeAction | lgtcoursecode-WS2020_v7/modules/obs/plaquette.c:68-74 | gaugeAction() returns beta*NPLAQ*VOL*(1 - plaquette()), which is the Wilson action of the field |
| Plaquette.ColdPlaquette | lgtcoursecode-WS2020_v7/modules/obs/plaquette.c:31-65 | on a field of unit matrices the average plaquette is 1 |
| Plaquette.ColdAction | lgtcoursecode-WS2020_v7/modules/obs/plaquette.c:68-74 | on a field of unit matrices the gauge action is 0 |
| Wilson.WalkCoordinates | lgtcoursecode-WS2020_v7/modules/obs/wilson.c:32-55 | l steps in signed direction k through the neighbour table shift one coordinate by l (forward) or -l (backward) modulo the extent |
| Wilson.LoopCloses | lgtcoursecode-WS2020_v7/modules/obs/wilson.c:31-55 | after the four legs the walk of compute_wloop is back at its start site |
| Wilson.ThirdLegReadsFarSide | lgtcoursecode-WS2020_v7/modules/obs/wilson.c:44-49 | the third leg reads, step by step, the d1-links of the far side of the rectangle, in reverse order |
| Wilson.FourthLegReadsNearSide | lgtcoursecode-WS2020_v7/modules/obs/wilson.c:50-55 | the fourth leg reads, step by step, the d2-links of the near side of the rectangle, in reverse order |
| Wilson.ColdLoop | lgtcoursecode-WS2020_v7/modules/obs/wilson.c:24-59 | on unit links every Wilson loop is trace(unit) = SUN, whatever its size |
| Wilson.ForwardLeg | lgtcoursecode-WS2020_v7/modules/obs/wilson.c:32-43 | one forward loop multiplies the l links along d and ends l steps further |
| Wilson.BackwardLeg | lgtcoursecode-WS2020_v7/modules/obs/wilson.c:44-55 | one backward loop steps back first and multiplies by the daggered link reached |
| Wilson.ComputeWLoop | lgtcoursecode-WS2020_v7/modules/obs/wilson.c:24-59 | compute_wloop returns the trace of the product around the l1 x l2 rectangle |
| Wilson.TemporalSizes | lgtcoursecode-WS2020_v7/modules/obs/wilson.c:74-86 | nt = (tf-ts)/dt + 1 counts exactly the temporal sizes ts + nn*dt <= tf |
| Wilson.SpatialSizes | lgtcoursecode-WS2020_v7/modules/obs/wilson.c:75-94 | nr = (rf-rs)/dr + 1 counts exactly the spatial sizes rs + r*dr <= rf |
| Wilson.Translations | lgtcoursecode-WS2020_v7/modules/obs/wilson.c:90-91 | nlin counts exactly the translations j*it <= lbord, and is at least 1 |
| Wilson.SliceInRange | lgtcoursecode-WS2020_v7/modules/obs/wilson.c:96-100 | the start sites in + ilin*volumeOtherDirs[0] of a translation that fits are site indices |
| Wilson.NormCountsLoops | lgtcoursecode-WS2020_v7/modules/obs/wilson.c:107 | the divisor SUN*volumeOtherDirs[0]*nlin*(DIM-1) is SUN once for every loop added into the entry |
| Wilson.ColdEntry | lgtcoursecode-WS2020_v7/modules/obs/wilson.c:85-108 | on unit links every measured entry is exactly 1 |
| Wilson.TableIndex | lgtcoursecode-WS2020_v7/modules/obs/wilson.c:93-108 | the entry for temporal size number nn and spatial size number r sits at w[nn*nr + r] |
| Wilson.AddDirs | lgtcoursecode-WS2020_v7/modules/obs/wilson.c:98-101 | adds the loops of the spatial directions 1 .. DIM-1 at one site, in order |
| Wilson.AddSites | lgtcoursecode-WS2020_v7/modules/obs/wilson.c:96-102 | adds the loops of every site of one time slice |
| Wilson.AddLine | lgtcoursecode-WS2020_v7/modules/obs/wilson.c:93-103 | one translation adds its loops to each of the nr entries of the row and leaves the rest of w alone |
| Wilson.AddTranslations | lgtcoursecode-WS2020_v7/modules/obs/wilson.c:90-104 | after the translation loop each entry of the row holds its accumulated sum and nlin is the number of translations |
| Wilson.Normalise | lgtcoursecode-WS2020_v7/modules/obs/wilson.c:105-108 | each entry of the row is divided by the number of loops times SUN |
| Wilson.MeasureRow | lgtcoursecode-WS2020_v7/modules/obs/wilson.c:86-109 | a temporal size longer than the time extent stops with the error; otherwise the row holds its averaged entries and nothing else changes |
| Wilson.MeasureRows | lgtcoursecode-WS2020_v7/modules/obs/wilson.c:85-109 | fails exactly when a requested temporal size exceeds the time extent; otherwise w holds the table of averaged loops |
| Wilson.ZeroEntries | lgtcoursecode-WS2020_v7/modules/obs/wilson.c:76-78 | the first nloop entries are zero and the others are unchanged |
| Wilson.Smear | lgtcoursecode-WS2020_v7/modules/obs/wilson.c:82-83 | smearing replaces the links of a working copy by a function of its links |
| Wilson.WilsonWorkspace.constructor | lgtcoursecode-WS2020_v7/modules/obs/wilson.c:20-21 | at program start init == 0 |
| Wilson.WilsonWorkspace.AllocateOnce | lgtcoursecode-WS2020_v7/modules/obs/wilson.c:68-73 | the working fields are allocated on the first call only, and later calls keep them |
| Wilson.WilsonWorkspace.LoadSmeared | lgtcoursecode-WS2020_v7/modules/obs/wilson.c:80-83 | the working fields hold the temporally and the spatially smeared copies of the field, and the field is unchanged |
| Wilson.WilsonWorkspace.MeasureWilsonLoop | lgtcoursecode-WS2020_v7/modules/obs/wilson.c:62-110 | measureWilsonLoop fails exactly when a size is too long; otherwise w[nn*nr + r] is the average Wilson loop of that size on the smeared copies; the field and the rest of w are unchanged |
| ConfigIO.Swap | lgtcoursecode-WS2020_v7/modules/io/config_IO.c:79-84 | a byte swap keeps the value and reverses the byte order |
| ConfigIO.FixOrderInvolution | lgtcoursecode-WS2020_v7/modules/io/config_IO.c:79-88 | the reader's swap undoes the writer's swap |
| ConfigIO.StoredIsHostIndependent | lgtcoursecode-WS2020_v7/modules/io/config_IO.c:79-88 | a value held in host order is stored little-endian on either host, and comes back in host order |
| ConfigIO.ReadIsHostIndependent | lgtcoursecode-WS2020_v7/modules/io/config_IO.c:301-308 | after the fix-up every host reads the same double from an item |
| ConfigIO.HostReadsStored | lgtcoursecode-WS2020_v7/modules/io/config_IO.c:301-305 | after the fix-up the doubles a host reads from a buffer are the stored doubles |
| ConfigIO.FixNative | lgtcoursecode-WS2020_v7/modules/io/config_IO.c:100-104 | a buffer of host-order values is stored little-endian after the fix-up |
| ConfigIO.StoredReals | lgtcoursecode-WS2020_v7/modules/io/config_IO.c:104 | stored doubles read back as written |
| ConfigIO.HeaderInfo | lgtcoursecode-WS2020_v7/modules/io/config_IO.c:76-87 | the common header holds DIM + 2 items |
| ConfigIO.HeaderValues | lgtcoursecode-WS2020_v7/modules/io/config_IO.c:76-89 | the standard header holds DIM + 3 items |
| ConfigIO.PayloadLength | lgtcoursecode-WS2020_v7/modules/io/config_IO.c:95-108 | the payload holds SUNVOL doubles per link, DIM*SUNVOL*VOL in all |
| ConfigIO.PayloadIndex | lgtcoursecode-WS2020_v7/modules/io/config_IO.c:97-98 | double j of link o sits at o*SUNVOL + j of the payload |
| ConfigIO.MatricesSplit | lgtcoursecode-WS2020_v7/modules/io/config_IO.c:299-309 | reading a+b matrices is reading a, then b from the rest |
| ConfigIO.ReadPayload | lgtcoursecode-WS2020_v7/modules/io/config_IO.c:95-105 | the payload of a list of links reads back as those links |
| ConfigIO.DecodeEncode | lgtcoursecode-WS2020_v7/modules/io/config_IO.c:40-325 | readConfig of what writeConfig wrote on the same lattice restores every link and the stored plaquette |
| ConfigIO.OtherExtentsRejected | lgtcoursecode-WS2020_v7/modules/io/config_IO.c:290-293 | a file written for other extents is refused with "Incompatible lattice size" |
| ConfigIO.OtherGroupRejected | lgtcoursecode-WS2020_v7/modules/io/config_IO.c:289 | a file written for another DIM or SUN is refused with "Incompatible parameters" |
| ConfigIO.TruncatedRejected | lgtcoursecode-WS2020_v7/modules/io/config_IO.c:279-312 | a file cut short anywhere is refused with "Read error" |
| ConfigIO.PlaquetteTestPasses | lgtcoursecode-WS2020_v7/modules/io/config_IO.c:316-318 | after an exact round trip the plaquette test cannot fire, for any eps >= 0 |
| ConfigIO.FreadCount | lgtcoursecode-WS2020_v7/modules/io/config_IO.c:301 | fread delivers at most the count asked for, all of it exactly when the file has that many items left |
| ConfigIO.Fread | lgtcoursecode-WS2020_v7/modules/io/config_IO.c:301 | fread copies the items left at the position into the head of the buffer and leaves the rest of the buffer alone |
| ConfigIO.FixBuffer | lgtcoursecode-WS2020_v7/modules/io/config_IO.c:100-103 | the buffer is swapped item by item on a big-endian host only |
| ConfigIO.PutDoubles | lgtcoursecode-WS2020_v7/modules/io/config_IO.c:98 | mk_sun_dble_array appends the doubles of one matrix, in host order, after what the buffer held |
| ConfigIO.PutLink | lgtcoursecode-WS2020_v7/modules/io/config_IO.c:97-98 | one pass of the ii loop extends the buffer by the doubles of link ii |
| ConfigIO.FillSite | lgtcoursecode-WS2020_v7/modules/io/config_IO.c:97-98 | the buffer holds the doubles of the DIM links of site in, in direction order |
| ConfigIO.LoadSite | lgtcoursecode-WS2020_v7/modules/io/config_IO.c:307-308 | mk_dble_array_sun loads the DIM matrices of the buffer into site in and changes no other site |
| ConfigIO.CheckHeader | lgtcoursecode-WS2020_v7/modules/io/config_IO.c:279-293 | the header reads and checks report exactly the first error HeaderCheck finds on the stored items |
| ConfigIO.HeaderItems | lgtcoursecode-WS2020_v7/modules/io/config_IO.c:76-88 | the swapped header items are the stored header of DIM, SUN, the extents and the plaquette |
| ConfigIO.WriteSites | lgtcoursecode-WS2020_v7/modules/io/config_IO.c:94-105 | the site loop appends the stored payload of all links, site-major, whatever the host |
| ConfigIO.WriteConfig | lgtcoursecode-WS2020_v7/modules/io/config_IO.c:40-117 | writeConfig produces the header with the field's plaquette followed by the payload of its links |
| ConfigIO.ReadBlock | lgtcoursecode-WS2020_v7/modules/io/config_IO.c:300-308 | one pass reads the block of site in; when the block was complete the links of sites 0..in are those stored |
| ConfigIO.ReadSites | lgtcoursecode-WS2020_v7/modules/io/config_IO.c:298-312 | the count equals DIM*SUNVOL*VOL exactly when the file holds the whole payload, and then the field holds the stored links |
| ConfigIO.LoadStd | lgtcoursecode-WS2020_v7/modules/io/config_IO.c:276-312 | the reading part fails exactly with DecodeStd's error, and otherwise loads DecodeStd's links and plaquette |
| ConfigIO.ReadConfig | lgtcoursecode-WS2020_v7/modules/io/config_IO.c:242-325 | readConfig fails with "Fields are not allocated", with the decoding error, or with the plaquette test; otherwise the field holds the decoded links |
| MasterField.Overwrite | lgtcoursecode-WS2020_v7/modules/io/config_IO.c:211-214 | fseek plus fwrite places the data at p, grows the file when needed, fills a gap with zero items and keeps every other item |
| MasterField.BlocksApart | lgtcoursecode-WS2020_v7/modules/io/config_IO.c:211-213 | blocks with different numbers do not overlap |
| MasterField.HeaderKept | lgtcoursecode-WS2020_v7/modules/io/config_IO.c:201-215 | the site loop never shrinks the file and never touches the header |
| MasterField.BlockPlaced | lgtcoursecode-WS2020_v7/modules/io/config_IO.c:201-215 | with an injective index_mf, each written block stays at offset_header + index_mf[i[in]]*block size |
| MasterField.ItemsUntouched | lgtcoursecode-WS2020_v7/modules/io/config_IO.c:201-215 | items outside every written block keep their value |
| MasterField.LoadedLength | lgtcoursecode-WS2020_v7/modules/io/config_IO.c:390-403 | the reader loads DIM links per site |
| MasterField.AllPlaced | lgtcoursecode-WS2020_v7/modules/io/config_IO.c:201-215 | after writeConfig every site of the sub-volume has its block at its position |
| MasterField.LoadedFrom | lgtcoursecode-WS2020_v7/modules/io/config_IO.c:390-403 | a file with every block at its position reads back the links of every site |
| MasterField.MFHeaderPasses | lgtcoursecode-WS2020_v7/modules/io/config_IO.c:365-381 | the header writeHeaderToConfig wrote passes the master-field reader's checks |
| MasterField.MFRoundTrip | lgtcoursecode-WS2020_v7/modules/io/config_IO.c:121-419 | the master-field readConfig of the file made by writeHeaderToConfig and writeConfig restores every link, when index_mf is injective and i[] covers the sites |
| MasterField.PreparedHeader | lgtcoursecode-WS2020_v7/modules/io/config_IO.c:229-238 | the header prepareConfig writes first is still at the head of the file after every writeConfig pass |
| MasterField.LoadBlockMF | lgtcoursecode-WS2020_v7/modules/io/config_IO.c:392-402 | one pass fseeks to the site's block, reads it and loads it into site in, changing no later site |
| MasterField.LoadBlocks | lgtcoursecode-WS2020_v7/modules/io/config_IO.c:386-406 | the count equals DIM*SUNVOL*VOL2 exactly when every block fits in the file, and then sites 0..VOL2-1 hold the loaded links |
| MasterField.FillBlock | lgtcoursecode-WS2020_v7/modules/io/config_IO.c:203-209 | the buffer holds the stored block of site i[in] |
| MasterField.MasterFieldIO.constructor | lgtcoursecode-WS2020_v7/modules/io/config_IO.c:119 | offset_header starts at 0 |
| MasterField.MasterFieldIO.WriteHeaderToConfig | lgtcoursecode-WS2020_v7/modules/io/config_IO.c:121-175 | the file holds DIM, SUN and the master-field extents, stored little-endian, and offset_header is its length DIM + 2 |
| MasterField.MasterFieldIO.WriteConfig | lgtcoursecode-WS2020_v7/modules/io/config_IO.c:177-227 | the file after writeConfig is the given file with the block of every site i[in] written at its index_mf position |
| MasterField.MasterFieldIO.ReadConfig | lgtcoursecode-WS2020_v7/modules/io/config_IO.c:327-419 | readConfig fails with "Fields are not allocated", the header errors or "Read error" exactly as DecodeMF does; otherwise the first VOL2 sites hold the decoded links and the others are unchanged |
| MasterField.MasterFieldIO.PrepareConfig | lgtcoursecode-WS2020_v7/modules/io/config_IO.c:229-238 | prepareConfig writes the header, then one writeConfig pass per index map, and sets offset_header to DIM + 2 |
| Schedule.WriteTestAgrees | lgtcoursecode-WS2020_v7/main/qcd.c:54 | wherever the write test as written is defined, it agrees with the corrected test |
| Schedule.WriteTestDividesByZero | lgtcoursecode-WS2020_v7/main/qcd.c:54 | with writeConfsFreq == 0 the write test as written divides by zero already at sweep n = 0, although no write is intended |
| Schedule.WriteTestHiddenByInit | lgtcoursecode-WS2020_v7/modules/admin/init.c:42-44 | with writeConfsFreq == 0, initProgram as written (called first, at main/qcd.c:36) either refuses the parameters or divides by zero itself, so the write test's division is never reached |
| Schedule.WriteCondition | lgtcoursecode-WS2020_v7/main/qcd.c:54 | the write test in Euclidean terms; no write happens during the thermalisation |
| Schedule.WritesSpaced | lgtcoursecode-WS2020_v7/main/qcd.c:48-59 | the next write after sweep a is at a + writeConfsFreq, and none comes in between |
| Schedule.LastSweepWrites | lgtcoursecode-WS2020_v7/main/qcd.c:48-59 | when initProgram accepted the parameters, writes are enabled and numConfs-1 > numThermConfs, the last sweep writes a configuration |
| Schedule.WriteSweepsExact | lgtcoursecode-WS2020_v7/main/qcd.c:48-59 | the written sweeps are exactly those the test selects, in increasing order |
| Schedule.WriteSweepsSpaced | lgtcoursecode-WS2020_v7/main/qcd.c:48-59 | consecutive writes are writeConfsFreq sweeps apart |
| Schedule.SweepLoop | lgtcoursecode-WS2020_v7/main/qcd.c:48-62 | the loop updates with sweep indices 1..numConfs; the j-th write goes to file number j after the j-th selected sweep, and nw ends as the number of writes |

## Left out

- The SU(N) arithmetic is abstract. Link matrices are a type parameter and
  the group operations are parameters that obey `Lawful`. Floating-point
  rounding is not modelled, and doubles are reals.
- `int` and `long` overflow is not modelled; all integers are unbounded.
- `error()` ends the program. The model returns the error (an `Option` or an
  `Outcome`) instead, and the caller stops.
- File I/O is a sequence of items. `fopen`, `fclose` and `malloc` failures,
  file names, timing, `checkpoint` and `logging` are left out.
  - Bytes are not modelled. A header integer and a double are one item each,
    and offsets and block sizes count items, not bytes.
  - `offset_header` is therefore DIM + 2 items rather than a byte count.
- A double read from an item stored in the other byte order reads as 0.0.
  In the real program such an item reads as a garbled double.
- A swapped item never compares equal to a native value. In the model a
  header check therefore fails on such an item, while the real bytes might
  match by chance.
- `MasterField.Overwrite`: a gap left by an `fseek` past the end of the file
  reads as a little-endian zero item. Swapping it changes its recorded order,
  which zero bytes would not.
- `ConfigIO.Fread`: after a short read, the contents of the buffer past the
  delivered items are not described beyond "unchanged". The program goes on
  to fail with "Read error" in that case anyway.
- The master-field `writeConfig` counts with `fwrite`, which cannot fall short
  on a sequence of items, so its "Write error" never fires in the model. The
  same holds for the write checks of the standard layout and of
  `writeHeaderToConfig`.
- `MasterField.MasterFieldIO.ReadConfig` requires `offset_header == DIM + 2`.
  The static variable is set by `writeHeaderToConfig` in the same process;
  a reader in a fresh process would seek from 0.
- `i[]`, `index_mf`, `VOL2` and `updateArrayOfIndexMF` are inputs. The model
  takes the site list, the index map (one per `prepareConfig` pass) and VOL2
  as parameters. Their computation is not part of this model.
- The plaquette tolerance `eps = sqrt(NPLAQ*VOL)*DBL_EPSILON` is a parameter,
  because `sqrt` and `DBL_EPSILON` are floating point.
- The APE smearing routines are parameters: functions from the links to the
  smeared links.
- The random matrices of `initGaugeField(1)` are a sequence of draws.
  `su2RandomMatrix`/`su3RandomMatrix` and the generator are not part of this
  model.
- `gaugefieldUpdate` (heat-bath and overrelaxation) is not part of this model.
  The main loop records the sweep indices it passes to it.
- The main loop's calls to `plaquette()`, its logging, `checkForErrors`,
  `readInputFile`, `readConfig` at start-up and `releaseGaugeField` are left
  out. The model keeps the sweep loop, the write test, the counter `nw` and
  the file number of each write.
- `Wilson.WilsonWorkspace.MeasureWilsonLoop` requires parameters satisfying
  `Wilson.Steps`: non-zero `dt`/`dr`, and positive steps and `ts >= 1` when
  sizes are requested. As written, measureWilsonLoop divides by zero at
  wilson.c:74-75 when `dt == 0` or `dr == 0`; it does not terminate when a
  temporal size `it <= 0` is reached, because the loop over `ilin` at
  wilson.c:91 then never advances; and with `dt < 0` (or `dr < 0`)
  and sizes requested the loop over `it` (over `ir`) never ends.
- `Wilson.WilsonWorkspace.MeasureWilsonLoop`: on the error path (a temporal
  size beyond the time extent) the contract says nothing about `w` inside
  `[0, NT*NR)`; it states only that the error is reported, that `pu` is
  unchanged and that `w` outside `[0, NT*NR)` is untouched. The program stops
  there.
- `deallocateGaugeField`, `releaseGaugeField` and the fermion-field
  allocators are not modelled. Memory is never freed in Dafny.
- The other drivers that call this core are not part of this model: the
  measurement program, the test program and the master-field program.

## Findings

| source | as written | input that shows it | evidently intended | confidence | as-written member | corrected member |
|---|---|---|---|---|---|---|
| lgtcoursecode-WS2020_v7/modules/admin/init.c:43 | `(numConfs-numThermConfs) % writeConfsFreq` is evaluated before `writeConfsFreq > 0` is tested | numConfs = 1, decorSteps = 0, numThermConfs = 0, writeConfsFreq = 0 (no writes): integer division by zero | test `writeConfsFreq > 0` first, so that writeConfsFreq == 0 disables writing | not executed | Init.RejectedAsWritten, Init.InitDividesByZero | Init.InitProgram, Init.InitProgramAgrees |
| lgtcoursecode-WS2020_v7/main/qcd.c:54 | `(n-numThermConfs+1) % writeConfsFreq` is evaluated before `writeConfsFreq > 0` is tested; a latent defect, since initProgram (main/qcd.c:36) divides by zero first at init.c:43 for the same parameters | writeConfsFreq = 0, numThermConfs = 0, sweep n = 0: integer division by zero | test `writeConfsFreq > 0` first; no configuration is written | not executed | Schedule.WriteTestAsWritten, Schedule.WriteTestDividesByZero, Schedule.WriteTestHiddenByInit | Schedule.WriteNow, Schedule.WriteTestAgrees |
