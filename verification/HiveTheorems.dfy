/** What holds of every file the writer builds. */
module HiveTheorems {
  import opened LittleEndian
  import opened HiveCells
  import opened HiveTiling
  import opened HiveImage
  import opened HiveReader
  import opened HiveRoundTrip
  import opened Utf16
  import opened Xor32
  import BB = BaseBlock

  // ---------- header ----------

  lemma HeaderAt(spec: HiveSpec, size: nat)
    ensures var f := HeaderFields(spec, size);
      && At(f, 0, BB.REGF_SIGNATURE) && At(f, 4, LE32(spec.primarySeq)) && At(f, 8, LE32(spec.secondarySeq))
      && At(f, 12, LE64(spec.root.lastWritten)) && At(f, 20, LE32(1)) && At(f, 24, LE32(spec.minor))
      && At(f, 28, LE32(0))
      && At(f, 32, LE32(1)) && At(f, 36, LE32(ROOT_OFF)) && At(f, 40, LE32(size)) && At(f, 44, LE32(1))
  {
    hide LE32, LE64;
  }

  /** The base block, piece by piece, as found in the file. */
  lemma FileAt(spec: HiveSpec)
    ensures var blob := Hive(spec);
      && At(blob, 0, HeaderFields(spec, BinSize(spec)))
      && At(blob, 48, Padded(NameField(spec.filename), 64))
      && At(blob, 112, Zeros(396)) && At(blob, BB.CHECKSUM_OFFSET, LE32(StoredChecksum(spec)))
      && At(blob, 512, Zeros(3584))
      && blob[..BB.CHECKSUM_OFFSET] == Covered(spec)
      && At(blob, BB.BASE_BLOCK_LEN, Hbin(spec)) && |blob| == BB.BASE_BLOCK_LEN + |Hbin(spec)|
  {
    hide HeaderFields, NameField, LE32, Hbin, StoredChecksum, BinSize;
    var blob, covered := Hive(spec), Covered(spec);
    var f, name := HeaderFields(spec, BinSize(spec)), NameField(spec.filename);
    assert covered == f + Padded(name, 64) + Zeros(BB.CHECKSUM_OFFSET - 112);
    assert Base(spec) == covered + LE32(StoredChecksum(spec)) + Zeros(BB.BASE_BLOCK_LEN - 512);
    assert blob == Base(spec) + Hbin(spec);
    assert At(blob, 0, covered);
    assert At(covered, 0, f) && At(covered, 48, Padded(name, 64));
    AtSub(blob, 0, covered, 0, f);
    AtSub(blob, 0, covered, 48, Padded(name, 64));
    assert blob[508..512] == LE32(StoredChecksum(spec));
    assert At(covered, 112, Zeros(396));
    AtSub(blob, 0, covered, 112, Zeros(396));
    assert blob[512..4096] == Zeros(3584);
  }

  /** The 32 units of the name field: those of the file name as far as they go, then zeros. */
  function NameUnitsOf(filename: string): (r: seq<u16>)
    ensures |r| == 32
  {
    var units := Encode(filename);
    var n := Min(|units|, 32);
    units[..n] + seq(32 - n, _ => 0)
  }

  lemma NameBytes(filename: string)
    ensures Padded(NameField(filename), 64) == UnitBytes(NameUnitsOf(filename))
  {
    hide Encode, UnitBytes;
    var units := Encode(filename);
    var n := Min(|units|, 32);
    var head := units[..n];
    UnitBytesConcat(head, units[n..]);
    assert units == head + units[n..];
    var all := UnitBytes(units);
    assert NameField(filename) == all[..Min(|all|, 64)] == UnitBytes(head);
    var zeros: seq<u16> := seq(32 - n, _ => 0);
    ZeroUnits(32 - n);
    UnitBytesConcat(head, zeros);
  }

  /** The units of the name field up to the first NUL: at most 32 units of the file name. */
  lemma NameUnits(filename: string)
    ensures BB.NameText(Padded(NameField(filename), 64))
         == Lossy(DecodeItems(BB.UntilNul(Encode(filename)[..Min(|Encode(filename)|, 32)])))
  {
    hide Encode, DecodeItems, Lossy, UnitBytes, UnitsOf, BB.UntilNul;
    var n := Min(|Encode(filename)|, 32);
    var head, zeros: seq<u16> := Encode(filename)[..n], seq(32 - n, _ => 0);
    NameBytes(filename);
    UnitsOfBytes(head + zeros);
    UntilNulZeros(head, zeros);
  }

  lemma {:induction false} ZeroUnits(n: nat)
    ensures UnitBytes(seq(n, _ => 0)) == Zeros(2 * n)
  {
    if n > 0 {
      ZeroUnits(n - 1);
      var z: seq<u16> := seq(n, _ => 0);
      assert z[1..] == seq(n - 1, _ => 0);
      LE16Zero();
      assert LE16(0) == Zeros(2);
    }
  }

  lemma {:induction false} UntilNulZeros(units: seq<u16>, zeros: seq<u16>)
    requires zeros == [] || zeros[0] == 0
    ensures BB.UntilNul(units + zeros) == BB.UntilNul(units)
  {
    if units == [] {
      assert units + zeros == zeros;
    } else {
      assert (units + zeros)[1..] == units[1..] + zeros;
      UntilNulZeros(units[1..], zeros);
    }
  }

  lemma {:induction false} UntilNulAll(units: seq<u16>)
    ensures BB.UntilNul(units) == units <==> 0 !in units
    ensures 0 !in BB.UntilNul(units) && BB.UntilNul(units) <= units
  {
    if units != [] {
      UntilNulAll(units[1..]);
      assert units == [units[0]] + units[1..];
      if units[0] != 0 {
        assert BB.UntilNul(units)[1..] == BB.UntilNul(units[1..]);
      }
    }
  }

  /** The embedded name survives exactly when it is at most 32 units long and free of NULs. */
  lemma NameBack(filename: string)
    ensures BB.NameText(Padded(NameField(filename), 64)) == filename
       <==> |Encode(filename)| <= 32 && '\0' !in filename
  {
    hide NameField;
    var units := Encode(filename);
    var kept := BB.UntilNul(units[..Min(|units|, 32)]);
    NameUnits(filename);
    UntilNulAll(units[..Min(|units|, 32)]);
    EncodeNul(filename);
    EncodeDecode(kept);
    DecodeNul(kept);
    if |units| <= 32 && '\0' !in filename {
      assert units[..Min(|units|, 32)] == units;
      DecodeEncode(filename);
      AllGoodIsCleanText(filename);
    }
  }

  predicate HeaderOf(bb: BB.BaseBlock, spec: HiveSpec) {
    && bb.primarySeq == spec.primarySeq && bb.secondarySeq == spec.secondarySeq
    && bb.lastWritten == spec.root.lastWritten
    && bb.major == 1 && bb.minor == spec.minor && bb.fileType == 0
    && bb.rootCellOffset == ROOT_OFF && bb.hiveBinsDataSize == BinSize(spec)
    && (bb.filename == spec.filename <==> |Encode(spec.filename)| <= 32 && '\0' !in spec.filename)
    && (bb.ChecksumBad() <==> spec.corruptChecksum)
    && (bb.IsDirty() <==> spec.corruptChecksum || spec.primarySeq != spec.secondarySeq)
  }

  lemma FieldsBack(spec: HiveSpec)
    requires LayoutFits(spec)
    ensures var r := BB.ReadFields(Hive(spec)); r.Some? && HeaderOf(r.value, spec)
  {
    hide LE32, LE64, Rd32, Rd64, HeaderFields, NameField, Covered, StoredChecksum, Encode, BB.NameText, BB.Checksum,
         UsedEnd, Hive, Hbin;
    var blob, size := Hive(spec), BinSize(spec);
    var f := HeaderFields(spec, size);
    HeaderAt(spec, size);
    FileAt(spec);
    AtSub(blob, 0, f, 4, LE32(spec.primarySeq));         Read32(blob, 4, spec.primarySeq);
    AtSub(blob, 0, f, 8, LE32(spec.secondarySeq));       Read32(blob, 8, spec.secondarySeq);
    AtSub(blob, 0, f, 12, LE64(spec.root.lastWritten));  Read64(blob, 12, spec.root.lastWritten);
    AtSub(blob, 0, f, 20, LE32(1));                      Read32(blob, 20, 1);
    AtSub(blob, 0, f, 24, LE32(spec.minor));             Read32(blob, 24, spec.minor);
    AtSub(blob, 0, f, 28, LE32(0));                      Read32(blob, 28, 0);
    AtSub(blob, 0, f, 36, LE32(ROOT_OFF));               Read32(blob, 36, ROOT_OFF);
    AtSub(blob, 0, f, 40, LE32(size));                   Read32(blob, 40, size);
    Read32(blob, BB.CHECKSUM_OFFSET, StoredChecksum(spec));
    assert blob[48..112] == Padded(NameField(spec.filename), 64);
    NameBack(spec.filename);
    ChecksumBack(spec);
  }

  /** The stored checksum is the computed one exactly when no corruption was asked for. */
  lemma ChecksumBack(spec: HiveSpec)
    ensures BB.Checksum(Hive(spec)).Some?
    ensures BB.Checksum(Hive(spec)).value == StoredChecksum(spec) <==> !spec.corruptChecksum
  {
    hide Covered, Hive, BB.Words, XorAll, Xor, BB.Adjust;
    FileAt(spec);
    BB.ChecksumPrefix(Hive(spec), Covered(spec));
    assert Covered(spec)[..BB.CHECKSUM_OFFSET] == Covered(spec);
    var sum := BB.Checksum(Covered(spec)).value;
    if Xor(sum, 0xff) == sum {
      XorZero(sum);
      XorCommutes(sum, 0xff);
      XorCommutes(sum, 0);
      XorCancels(0xff, 0, sum);
    }
  }

  /** Parsing a built file gives the header back, classified by the requested corruption alone. */
  lemma HeaderBack(spec: HiveSpec)
    requires LayoutFits(spec)
    ensures var (bb, kind) := BB.Parse(Hive(spec));
      bb.Some? && HeaderOf(bb.value, spec) && kind == if spec.corruptChecksum then BB.BadChecksum else BB.WellFormed
  {
    hide BB.ReadFields, HeaderFields, Hbin, Hive, LayoutFits, HeaderOf, BinSize;
    FieldsBack(spec);
    FileAt(spec);
    AllTiled(spec);
    HeaderAt(spec, BinSize(spec));
    AtSub(Hive(spec), 0, HeaderFields(spec, BinSize(spec)), 0, BB.REGF_SIGNATURE);
    Classified(spec);
  }

  lemma Classified(spec: HiveSpec)
    requires BB.ReadFields(Hive(spec)).Some? && HeaderOf(BB.ReadFields(Hive(spec)).value, spec)
    ensures var bb := BB.ReadFields(Hive(spec)).value;
      bb.fileType == 0 && bb.hiveBinsDataSize == BinSize(spec) && (bb.ChecksumBad() <==> spec.corruptChecksum)
  {
  }

  /** Every truncation of a built file is classified by its length. */
  lemma PrefixKinds(spec: HiveSpec, k: nat)
    requires LayoutFits(spec) && k <= |Hive(spec)|
    ensures BB.Parse(Hive(spec)[..k]).1
         == if k < 4 then BB.Truncated
            else if k < BB.BASE_BLOCK_LEN then BB.ShortBaseBlock
            else if k < |Hive(spec)| then BB.BinSizeOverrun
            else if spec.corruptChecksum then BB.BadChecksum
            else BB.WellFormed
  {
    hide BB.ReadFields, BB.Parse, HeaderFields, Hbin, Hive, LayoutFits, HeaderOf, BinSize;
    var blob := Hive(spec);
    HeaderBack(spec);
    FieldsBack(spec);
    FileAt(spec);
    AllTiled(spec);
    Classified(spec);
    HeaderAt(spec, BinSize(spec));
    AtSub(blob, 0, HeaderFields(spec, BinSize(spec)), 0, BB.REGF_SIGNATURE);
    if k == |blob| {
      assert blob[..k] == blob;
    } else {
      BinSizePositive(spec);
      BB.PrefixKind(blob, k);
    }
  }

  lemma BinSizePositive(spec: HiveSpec)
    ensures BinSize(spec) >= 8192 && BinSize(spec) >= UsedEnd(spec)
  {
  }

  // ---------- the tree ----------

  /** In the bin of a built file every cell of the layout is found at its offset. */
  lemma BinHolds(spec: HiveSpec)
    ensures Holds(Hbin(spec), AllCells(spec)) && |Hbin(spec)| == BinSize(spec)
  {
    hide AllCells, Image, BinHeader;
    AllTiled(spec);
    ImageHolds(BinHeader(BinSize(spec)), AllCells(spec), ROOT_OFF, BinSize(spec));
  }

  lemma {:induction false} ImageHolds(head: Bytes, cells: seq<Cell>, from: nat, to: nat)
    requires |head| == from && Tiled(cells, from, to)
    decreases cells
    ensures Holds(head + Image(cells), cells)
  {
    hide At;
    if cells != [] {
      var c, rest := cells[0], cells[1..];
      ImageHolds(head + c.bytes, rest, from + |c.bytes|, to);
      assert head + Image(cells) == head + c.bytes + Image(rest);
      AtMiddle(head, c.bytes, Image(rest));
      assert forall x :: x in cells ==> x == c || x in rest;
    }
  }

  lemma AtMiddle(head: Bytes, b: Bytes, tail: Bytes)
    ensures At(head + b + tail, |head|, b)
  {
    assert (head + b + tail)[|head|..|head| + |b|] == b;
  }

  lemma PartsHeld(spec: HiveSpec)
    ensures Holds(Hbin(spec), KeyCells(spec.root, ROOT_OFF, 0, true))
    ensures Holds(Hbin(spec), OrphansCells(spec.deletedOrphans, OrphansOff(spec)))
    ensures Holds(Hbin(spec), Trailer(UsedEnd(spec), BinSize(spec)))
    ensures ROOT_OFF < |Hbin(spec)| == BinSize(spec)
  {
    hide KeyCells, OrphansCells, Trailer, Hbin, BinSize, UsedEnd, Holds;
    BinHolds(spec);
    BinSizePositive(spec);
    HoldsConcat(Hbin(spec), SpecCells(spec), Trailer(UsedEnd(spec), BinSize(spec)));
    HoldsConcat(Hbin(spec), KeyCells(spec.root, ROOT_OFF, 0, true),
                OrphansCells(spec.deletedOrphans, OrphansOff(spec)));
  }

  lemma BinBack(spec: HiveSpec)
    requires LayoutFits(spec)
    ensures ReadBin(Hive(spec), BinSize(spec)) == Some(Hbin(spec))
  {
    hide LE32, Rd32, Base, Image, AllCells, HeaderFields, NameField, StoredChecksum, Covered, UsedEnd;
    var blob, h, size := Hive(spec), Hbin(spec), BinSize(spec);
    FileAt(spec);
    AllTiled(spec);
    assert h == HBIN_SIGNATURE + LE32(0) + LE32(size) + Zeros(20) + Image(AllCells(spec));
    assert h[4..8] == LE32(0) && h[8..12] == LE32(size);
    Read32(h, 4, 0);
    Read32(h, 8, size);
  }

  /**
   The whole-hive round trip, for every layout below 2^31: starting from the root offset in the
   header and following lists and offsets, the reader recovers what the 16-bit fields leave of the
   tree, using each of its cells once.
   */
  lemma RoundTrip(spec: HiveSpec)
    requires LayoutFits(spec)
    ensures ReadHive(Hive(spec)) == Using(AsRead(spec.root), Offs(KeyCells(spec.root, ROOT_OFF, 0, true)))
  {
    hide KeyCells, OrphansCells, KeySize, OrphansSize, ReadKey, ReadBin, Hive, Hbin, BB.Parse, AsRead, Holds, RoundBin;
    HeaderBack(spec);
    BinBack(spec);
    PartsHeld(spec);
    KeyBack(Hbin(spec), spec.root, ROOT_OFF, 0, true);
  }

  /** The tree that was written comes back exactly when its lengths and counts fit their 16-bit fields. */
  lemma RoundTripExact(spec: HiveSpec)
    requires LayoutFits(spec)
    ensures var read := ReadHive(Hive(spec)); read.Some? && read.value.value == spec.root <==> KeyFits(spec.root)
  {
    hide KeyFits, AsRead, Hive, ReadHive, LayoutFits, Offs, KeyCells;
    RoundTrip(spec);
    AsReadExact(spec.root);
  }

  /** A root with a name of 2^16 bytes: the file says it has none. */
  lemma LongNameIsLost(spec: HiveSpec)
    requires spec.root == KeySpec(Zeros(0x1_0000), 0, [], []) && spec.deletedOrphans == []
    ensures LayoutFits(spec) && !KeyFits(spec.root)
    ensures var read := ReadHive(Hive(spec)); read.Some? && read.value.value == spec.root.(name := [])
  {
    hide Hive, ReadHive, Offs, KeyCells, Zeros;
    assert |spec.root.name| % 0x1_0000 == 0;
    RoundTrip(spec);
  }

  /** Deleted orphans change neither what is read from the root nor a byte of the live tree. */
  lemma OrphansIrrelevant(a: HiveSpec, b: HiveSpec)
    requires LayoutFits(a) && LayoutFits(b) && a.root == b.root
    ensures ReadHive(Hive(a)) == ReadHive(Hive(b))
    ensures OrphansOff(a) == OrphansOff(b) <= |Hbin(a)| && OrphansOff(b) <= |Hbin(b)|
    ensures Hbin(a)[ROOT_OFF..OrphansOff(a)] == Hbin(b)[ROOT_OFF..OrphansOff(b)]
  {
    hide KeyCells, KeySize, Hbin, Tiled, Image, Hive, ReadHive, LayoutFits, AsRead;
    RoundTrip(a);
    RoundTrip(b);
    PartsHeld(a);
    PartsHeld(b);
    KeyTiled(a.root, ROOT_OFF, 0, true);
    TiledImage(Hbin(a), KeyCells(a.root, ROOT_OFF, 0, true), ROOT_OFF, OrphansOff(a));
    TiledImage(Hbin(b), KeyCells(b.root, ROOT_OFF, 0, true), ROOT_OFF, OrphansOff(b));
  }

  /** Where the `i`-th orphan's cells begin. */
  function OrphanStart(orphans: seq<KeySpec>, i: nat, off: nat): nat
    requires i < |orphans|
  {
    if i == 0 then off else OrphanStart(orphans[1..], i - 1, off + OrphanSize(orphans[0]))
  }

  lemma {:induction false} OrphanPart(h: Bytes, orphans: seq<KeySpec>, i: nat, off: nat)
    requires i < |orphans| && Aligned(off) && Holds(h, OrphansCells(orphans, off))
    ensures var at := OrphanStart(orphans, i, off);
      Aligned(at) && at + OrphanSize(orphans[i]) <= off + OrphansSize(orphans) && Holds(h, OrphanCells(orphans[i], at))
  {
    hide Holds, OrphanCells, OrphanSize, Aligned;
    OrphanAligned(orphans[0]);
    SumAligned(off, OrphanSize(orphans[0]));
    HoldsConcat(h, OrphanCells(orphans[0], off), OrphansCells(orphans[1..], off + OrphanSize(orphans[0])));
    if i > 0 {
      OrphanPart(h, orphans[1..], i - 1, off + OrphanSize(orphans[0]));
    }
  }

  /**
   Every orphan reads back from its free `nk` cell, using exactly its own free cells: without its
   subkeys, and otherwise whole exactly when its name lengths fit.
   */
  lemma OrphanRoundTrip(spec: HiveSpec, i: nat)
    requires LayoutFits(spec) && i < |spec.deletedOrphans|
    ensures var orphan := spec.deletedOrphans[i].(subkeys := []);
      var at := OrphanStart(spec.deletedOrphans, i, OrphansOff(spec));
      && OrphanNkOff(orphan, at) < |Hbin(spec)|
      && ReadKey(Hbin(spec), OrphanNkOff(orphan, at), 0, false, false)
         == Using(AsRead(orphan), Offs(OrphanCells(orphan, at)))
      && (AsRead(orphan) == Some(orphan) <==> KeyFits(orphan))
  {
    hide KeyCells, OrphanCells, OrphansCells, KeySize, ReadKey, Hbin, Holds, RoundBin, OrphansSize, NkSize, ValuesSize,
         ListSize, AsRead, KeyFits, OrphanNkOff;
    var whole, at := spec.deletedOrphans[i], OrphanStart(spec.deletedOrphans, i, OrphansOff(spec));
    var orphan := whole.(subkeys := []);
    PartsHeld(spec);
    KeySizeAligned(spec.root);
    OrphanPart(Hbin(spec), spec.deletedOrphans, i, OrphansOff(spec));
    SubkeysIgnored(whole, at);
    NkInside(orphan, at);
    OrphanBack(Hbin(spec), orphan, at);
    assert orphan.(subkeys := []) == orphan;
    AsReadExact(orphan);
  }

  /** An orphan's subkeys leave no trace in the file. */
  lemma SubkeysIgnored(orphan: KeySpec, off: nat)
    ensures OrphanCells(orphan, off) == OrphanCells(orphan.(subkeys := []), off)
    ensures OrphanNkOff(orphan, off) == OrphanNkOff(orphan.(subkeys := []), off)
    ensures OrphanSize(orphan) == OrphanSize(orphan.(subkeys := []))
  {
    hide CellWithSign, NkFixed, ValuesCells, ListCells, ValuesSize, ListSize;
  }

  lemma NkInside(key: KeySpec, off: nat)
    ensures OrphanNkOff(key, off) < off + OrphanSize(key)
  {
    NkPositive(key);
  }

  lemma NkPositive(key: KeySpec)
    ensures NkSize(key) > 0
  {
  }

  // ---------- stepping ----------

  function Tiles(cells: seq<Cell>, live: bool): seq<Tile> {
    if cells == [] then [] else [Tile(cells[0].off, |cells[0].bytes|, live)] + Tiles(cells[1..], live)
  }

  lemma {:induction false} StepsOver(h: Bytes, cells: seq<Cell>, from: nat, to: nat, live: bool)
    requires Tiled(cells, from, to) && to <= |h| && from <= |h|
    requires Holds(h, cells) && AllFramed(cells, live)
    requires forall c :: c in cells ==> |c.bytes| < 0x8000_0000
    ensures Steps(h, from) == if Steps(h, to).None? then None else Some(Tiles(cells, live) + Steps(h, to).value)
  {
    hide At, Framed, Steps;
    if cells == [] {
      assert Steps(h, to).Some? ==> [] + Steps(h, to).value == Steps(h, to).value;
    } else {
      var c, rest := cells[0], cells[1..];
      assert c in cells && forall x :: x in rest ==> x in cells;
      var mid := from + |c.bytes|;
      TiledWithin(rest, mid, to);
      StepsOver(h, rest, mid, to, live);
      OneStep(h, c, live);
      var tail := Steps(h, to);
      if tail.Some? {
        assert [Tile(c.off, |c.bytes|, live)] + (Tiles(rest, live) + tail.value) == Tiles(cells, live) + tail.value;
      }
    }
  }

  lemma OneStep(h: Bytes, c: Cell, live: bool)
    requires At(h, c.off, c.bytes) && Framed(c, live) && |c.bytes| < 0x8000_0000
    ensures c.off + |c.bytes| <= |h|
    ensures var rest := Steps(h, c.off + |c.bytes|);
      Steps(h, c.off) == if rest.None? then None else Some([Tile(c.off, |c.bytes|, live)] + rest.value)
  {
    hide Steps, LE32, Rd32, AsI32, Aligned;
    var field := SizeField(h, c, live);
    StepsUnfold(h, c.off, |c.bytes|, live);
  }

  lemma StepsUnfold(h: Bytes, off: nat, size: int, live: bool)
    requires size > 0 && off + 4 <= |h| && off + size <= |h|
    requires AsI32(Rd32(h, off)) == if live then -size else size
    ensures var rest := Steps(h, off + size);
      Steps(h, off) == if rest.None? then None else Some([Tile(off, size, live)] + rest.value)
  {
    hide Rd32, AsI32;
  }

  lemma SizeField(h: Bytes, c: Cell, live: bool) returns (field: int)
    requires At(h, c.off, c.bytes) && Framed(c, live) && |c.bytes| < 0x8000_0000
    ensures c.off + 4 <= |h| && field == AsI32(Rd32(h, c.off)) && field == if live then -|c.bytes| else |c.bytes|
  {
    hide LE32, Rd32, AsI32, Aligned;
    var n: int := |c.bytes|;
    field := if live then -n else n;
    AtSub(h, c.off, c.bytes, 0, LE32(field));
    Read32(h, c.off, field);
  }

  lemma SmallCells(cells: seq<Cell>, from: nat, to: nat)
    requires Tiled(cells, from, to) && to <= 0x8000_0000 && from > 0
    ensures forall c :: c in cells ==> |c.bytes| < 0x8000_0000
  {
    TiledWithin(cells, from, to);
  }

  /**
   Exact tiling: stepping through the bin from offset 32 by each cell's absolute size visits the
   cells of the live tree, allocated, then those of the orphans and the trailing cell, free; each
   once, and it ends exactly at the end of the bin.
   */
  lemma StepsVisitAll(spec: HiveSpec)
    requires LayoutFits(spec)
    ensures ROOT_OFF <= |Hbin(spec)|
    ensures Steps(Hbin(spec), ROOT_OFF)
         == Some(Tiles(KeyCells(spec.root, ROOT_OFF, 0, true), true)
               + Tiles(OrphansCells(spec.deletedOrphans, OrphansOff(spec)), false)
               + Tiles(Trailer(UsedEnd(spec), BinSize(spec)), false))
    ensures forall c :: c in AllCells(spec) ==> Aligned(c.off) && Aligned(|c.bytes|)
  {
    hide KeyCells, OrphansCells, Trailer, Hbin, KeySize, OrphansSize, Tiled, Holds, AllFramed, Tiles, Steps, Framed;
    var h, used, size := Hbin(spec), UsedEnd(spec), BinSize(spec);
    var live, dead := KeyCells(spec.root, ROOT_OFF, 0, true), OrphansCells(spec.deletedOrphans, OrphansOff(spec));
    PartsHeld(spec);
    AllFramedCells(spec);
    AllTiled(spec);
    KeyTiled(spec.root, ROOT_OFF, 0, true);
    OrphansTiled(spec.deletedOrphans, OrphansOff(spec));
    BinSizePositive(spec);
    SmallCells(live, ROOT_OFF, OrphansOff(spec));
    SmallCells(dead, OrphansOff(spec), used);
    TrailerSteps(spec);
    StepsOver(h, dead, OrphansOff(spec), used, false);
    StepsOver(h, live, ROOT_OFF, OrphansOff(spec), true);
    assert Tiles(live, true) + (Tiles(dead, false) + Tiles(Trailer(used, size), false))
        == Tiles(live, true) + Tiles(dead, false) + Tiles(Trailer(used, size), false);
  }

  lemma TrailerSteps(spec: HiveSpec)
    requires LayoutFits(spec)
    ensures UsedEnd(spec) <= |Hbin(spec)|
    ensures Steps(Hbin(spec), UsedEnd(spec)) == Some(Tiles(Trailer(UsedEnd(spec), BinSize(spec)), false))
  {
    hide KeyCells, OrphansCells, Hbin, KeySize, OrphansSize, Holds, LE32;
    var h, used, size := Hbin(spec), UsedEnd(spec), BinSize(spec);
    PartsHeld(spec);
    AllFramedCells(spec);
    UsedAligned(spec);
    if used < size {
      var c := Trailer(used, size)[0];
      HoldsOne(h, c);
      assert Trailer(used, size) == [c];
      assert Framed(c, false);
      OneStep(h, c, false);
      assert Tiles([c], false) == [Tile(used, size - used, false)] + [];
    }
  }

  /** The offsets of the tiles in one state, each as often as it was visited. */
  function StateOffs(tiles: seq<Tile>, live: bool): multiset<nat> {
    if tiles == [] then multiset{}
    else (if tiles[0].live == live then multiset{tiles[0].off} else multiset{}) + StateOffs(tiles[1..], live)
  }

  lemma {:induction false} StateOffsConcat(a: seq<Tile>, b: seq<Tile>, live: bool)
    ensures StateOffs(a + b, live) == StateOffs(a, live) + StateOffs(b, live)
  {
    if a == [] {
      assert a + b == b;
    } else {
      assert (a + b)[1..] == a[1..] + b;
      StateOffsConcat(a[1..], b, live);
    }
  }

  lemma {:induction false} StateOffsTiles(cells: seq<Cell>, live: bool)
    ensures StateOffs(Tiles(cells, live), live) == Offs(cells) && StateOffs(Tiles(cells, live), !live) == multiset{}
  {
    if cells != [] {
      StateOffsTiles(cells[1..], live);
      assert Tiles(cells, live)[1..] == Tiles(cells[1..], live);
    }
  }

  /**
   Live and deleted are separate: the allocated cells met by stepping are exactly those the reader
   uses from the root, each once; the free ones are the orphans' and the trailing cell.
   */
  lemma LiveCellsAreReachable(spec: HiveSpec)
    requires LayoutFits(spec)
    ensures var steps := Steps(Hbin(spec), ROOT_OFF); var read := ReadHive(Hive(spec));
      && steps.Some?
      && StateOffs(steps.value, false)
         == Offs(OrphansCells(spec.deletedOrphans, OrphansOff(spec))) + Offs(Trailer(UsedEnd(spec), BinSize(spec)))
      && (read.Some? ==> StateOffs(steps.value, true) == read.value.cells)
      && (KeyFits(spec.root) ==> read.Some?)
  {
    hide KeyCells, OrphansCells, Trailer, Hbin, Hive, KeySize, OrphansSize, Tiles, Steps, StateOffs, Offs, ReadHive,
         LayoutFits, AsRead, KeyFits;
    var live, dead := KeyCells(spec.root, ROOT_OFF, 0, true), OrphansCells(spec.deletedOrphans, OrphansOff(spec));
    var trailer := Trailer(UsedEnd(spec), BinSize(spec));
    StepsVisitAll(spec);
    RoundTrip(spec);
    RoundTripExact(spec);
    StateOffsTiles(live, true);
    StateOffsTiles(dead, false);
    StateOffsTiles(trailer, false);
    StateOffsConcat(Tiles(live, true) + Tiles(dead, false), Tiles(trailer, false), true);
    StateOffsConcat(Tiles(live, true), Tiles(dead, false), true);
    StateOffsConcat(Tiles(live, true) + Tiles(dead, false), Tiles(trailer, false), false);
    StateOffsConcat(Tiles(live, true), Tiles(dead, false), false);
  }
}
