/** The bytes of a whole hive: base block, bin header, tiled cells, trailing free cell. */
module HiveImage {
  import opened LittleEndian
  import opened HiveCells
  import opened HiveTiling
  import opened Utf16
  import opened Xor32
  import BB = BaseBlock

  /** The whole hive to synthesize. */
  datatype HiveSpec = HiveSpec(
    filename: string,
    minor: u32,
    primarySeq: u32,
    secondarySeq: u32,
    corruptChecksum: bool,
    root: KeySpec,
    deletedOrphans: seq<KeySpec>)

  const HBIN_SIGNATURE: Bytes := [0x68, 0x62, 0x69, 0x6e]
  const HBIN_HEADER_LEN: nat := 32
  const ROOT_OFF: nat := FIRST_CELL_REL

  // ---------- the bin ----------

  function UsedEnd(spec: HiveSpec): nat {
    ROOT_OFF + KeySize(spec.root) + OrphansSize(spec.deletedOrphans)
  }

  function OrphansOff(spec: HiveSpec): nat {
    ROOT_OFF + KeySize(spec.root)
  }

  lemma {:induction false} Multiple(q: nat)
    ensures 4096 * q % 4096 == 0 && Aligned(4096 * q)
  {
    Eights(512 * q);
  }

  lemma {:induction false} Eights(n: nat)
    ensures Aligned(8 * n)
  {
  }

  /** The next multiple of 4096. */
  function RoundUp(n: nat): (r: nat)
    ensures n <= r < n + 4096 && r % 4096 == 0 && Aligned(r)
  {
    var pages: nat := (n + 4095) / 4096;
    Multiple(pages);
    4096 * pages
  }

  function RoundBin(used: nat): (r: nat)
    ensures used <= r && r % 4096 == 0 && r >= 8192 && Aligned(r)
    ensures r == 8192 || r < used + 4096
  {
    Max(RoundUp(used), 8192)
  }

  function BinSize(spec: HiveSpec): nat {
    RoundBin(UsedEnd(spec))
  }

  /** The cells of the live tree, then those of the orphans, in address order. */
  function SpecCells(spec: HiveSpec): seq<Cell> {
    KeyCells(spec.root, ROOT_OFF, 0, true) + OrphansCells(spec.deletedOrphans, OrphansOff(spec))
  }

  /** The free cell that fills the rest of the bin, if anything is left. */
  function Trailer(used: nat, end: nat): seq<Cell>
    requires used <= end
  {
    if used + 4 <= end then [Cell(used, LE32(end - used) + Zeros(end - used - 4))] else []
  }

  function AllCells(spec: HiveSpec): seq<Cell> {
    SpecCells(spec) + Trailer(UsedEnd(spec), BinSize(spec))
  }

  function BinHeader(size: nat): (r: Bytes)
    ensures |r| == HBIN_HEADER_LEN
  {
    HBIN_SIGNATURE + LE32(0) + LE32(size) + Zeros(20)
  }

  function Hbin(spec: HiveSpec): Bytes {
    BinHeader(BinSize(spec)) + Image(AllCells(spec))
  }

  // ---------- the base block ----------

  /** The first 64 bytes of the UTF-16 file name. */
  function NameField(filename: string): (r: Bytes)
    ensures |r| <= 64
  {
    var all := UnitBytes(Encode(filename));
    all[..Min(|all|, 64)]
  }

  /** The fixed fields: offsets 0 to 48. */
  function HeaderFields(spec: HiveSpec, binSize: nat): (r: Bytes)
    ensures |r| == 48
  {
    BB.REGF_SIGNATURE + LE32(spec.primarySeq) + LE32(spec.secondarySeq) + LE64(spec.root.lastWritten)
    + LE32(1) + LE32(spec.minor) + LE32(0) + LE32(1) + LE32(ROOT_OFF) + LE32(binSize) + LE32(1)
  }

  function Padded(b: Bytes, n: nat): (r: Bytes)
    requires |b| <= n
    ensures |r| == n
  {
    b + Zeros(n - |b|)
  }

  /** Everything the checksum covers. */
  function Covered(spec: HiveSpec): (r: Bytes)
    ensures |r| == BB.CHECKSUM_OFFSET
  {
    Padded(HeaderFields(spec, BinSize(spec)) + NameField(spec.filename), BB.CHECKSUM_OFFSET)
  }

  function StoredChecksum(spec: HiveSpec): u32 {
    var sum := BB.Checksum(Covered(spec)).value;
    if spec.corruptChecksum then XorWord(sum, 0xff) else sum
  }

  function Base(spec: HiveSpec): (r: Bytes)
    ensures |r| == BB.BASE_BLOCK_LEN
  {
    Padded(Covered(spec) + LE32(StoredChecksum(spec)), BB.BASE_BLOCK_LEN)
  }

  function Hive(spec: HiveSpec): Bytes {
    Base(spec) + Hbin(spec)
  }

  /** The whole layout stays below 2^31, so every offset and size is a non-negative `i32`. */
  predicate LayoutFits(spec: HiveSpec) {
    UsedEnd(spec) < 0x8000_0000
  }

  // ---------- tiling of the whole bin ----------

  lemma SpecTiled(spec: HiveSpec)
    ensures Tiled(SpecCells(spec), ROOT_OFF, UsedEnd(spec))
  {
    hide KeyCells, OrphansCells, Tiled, Framed;
    KeyTiled(spec.root, ROOT_OFF, 0, true);
    OrphansTiled(spec.deletedOrphans, OrphansOff(spec));
    TiledConcat(KeyCells(spec.root, ROOT_OFF, 0, true), OrphansCells(spec.deletedOrphans, OrphansOff(spec)),
                ROOT_OFF, OrphansOff(spec), UsedEnd(spec));
  }

  lemma {:induction false} TiledAligned(cells: seq<Cell>, from: nat, to: nat)
    requires Tiled(cells, from, to) && Aligned(from)
    requires forall c :: c in cells ==> Aligned(|c.bytes|)
    ensures Aligned(to) && forall c :: c in cells ==> Aligned(c.off)
  {
    hide Aligned;
    if cells != [] {
      assert cells[0] in cells && forall c :: c in cells[1..] ==> c in cells;
      SumAligned(from, |cells[0].bytes|);
      TiledAligned(cells[1..], from + |cells[0].bytes|, to);
      assert forall c :: c in cells ==> c == cells[0] || c in cells[1..];
    }
  }

  lemma UsedAligned(spec: HiveSpec)
    ensures Aligned(UsedEnd(spec))
    ensures UsedEnd(spec) == BinSize(spec) || UsedEnd(spec) + 8 <= BinSize(spec)
  {
    hide KeyCells, OrphansCells, KeySize, OrphansSize, Tiled, Framed, RoundBin, UsedEnd;
    KeyTiled(spec.root, ROOT_OFF, 0, true);
    OrphansTiled(spec.deletedOrphans, OrphansOff(spec));
    SpecTiled(spec);
    FramedAligned(KeyCells(spec.root, ROOT_OFF, 0, true), true);
    FramedAligned(OrphansCells(spec.deletedOrphans, OrphansOff(spec)), false);
    TiledAligned(SpecCells(spec), ROOT_OFF, UsedEnd(spec));
    GapAligned(UsedEnd(spec), BinSize(spec));
  }

  lemma FramedAligned(cells: seq<Cell>, live: bool)
    requires AllFramed(cells, live)
    ensures forall c :: c in cells ==> Aligned(|c.bytes|)
  {
    hide At, Aligned;
  }

  /** Every cell of the bin: what the tree and the orphans occupy, and the trailing free cell. */
  lemma AllTiled(spec: HiveSpec)
    ensures Tiled(AllCells(spec), ROOT_OFF, BinSize(spec))
    ensures forall c :: c in AllCells(spec) ==> Aligned(c.off)
    ensures |Hbin(spec)| == BinSize(spec)
  {
    hide SpecCells, UsedEnd, RoundBin, LE32;
    var used, end := UsedEnd(spec), BinSize(spec);
    UsedAligned(spec);
    SpecTiled(spec);
    var trailer := Trailer(used, end);
    assert Tiled(trailer, used, end);
    TiledConcat(SpecCells(spec), trailer, ROOT_OFF, used, end);
    TiledWithin(AllCells(spec), ROOT_OFF, end);
    AllFramedCells(spec);
    TiledAligned(AllCells(spec), ROOT_OFF, end);
  }

  lemma AllFramedCells(spec: HiveSpec)
    ensures AllFramed(KeyCells(spec.root, ROOT_OFF, 0, true), true)
    ensures AllFramed(OrphansCells(spec.deletedOrphans, OrphansOff(spec)), false)
    ensures AllFramed(Trailer(UsedEnd(spec), BinSize(spec)), false)
    ensures forall c :: c in AllCells(spec) ==> Aligned(|c.bytes|)
  {
    hide KeyCells, OrphansCells, UsedEnd, Trailer, RoundBin, LE32, At, Tiled, Aligned;
    KeyTiled(spec.root, ROOT_OFF, 0, true);
    OrphansTiled(spec.deletedOrphans, OrphansOff(spec));
    UsedAligned(spec);
    TrailerFramed(UsedEnd(spec), BinSize(spec));
    assert forall c :: c in AllCells(spec) ==> c in SpecCells(spec) || c in Trailer(UsedEnd(spec), BinSize(spec));
  }

  lemma TrailerFramed(used: nat, end: nat)
    requires used <= end && Aligned(used) && Aligned(end)
    ensures AllFramed(Trailer(used, end), false)
  {
    hide LE32, Aligned;
    GapAligned(used, end);
    var n: int := end - used;
    if n >= 4 {
      assert (LE32(n) + Zeros(n - 4))[0..4] == LE32(n);
    }
  }
}
