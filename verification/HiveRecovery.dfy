/**
 Recovery of deleted keys, as the reader of this project does it: step through the bin and try every
 free cell as a key without a parent. What that finds in a built file are its orphans.
 */
module HiveRecovery {
  import opened LittleEndian
  import opened HiveCells
  import opened HiveTiling
  import opened HiveImage
  import opened HiveReader
  import opened HiveRoundTrip
  import opened HiveTheorems
  import BB = BaseBlock

  // ---------- the scan of the free cells ----------

  function FreeKeyAt(h: Bytes, t: Tile): seq<KeySpec> {
    if t.live || t.off >= |h| then []
    else
      match ReadKey(h, t.off, 0, false, false)
      case None => []
      case Some(found) => [found.value]
  }

  function FreeKeys(h: Bytes, tiles: seq<Tile>): seq<KeySpec> {
    if tiles == [] then [] else FreeKeyAt(h, tiles[0]) + FreeKeys(h, tiles[1..])
  }

  /** The keys found in the free cells of a hive file, in stepping order. */
  function Recovered(blob: Bytes): seq<KeySpec> {
    match BB.Parse(blob).0
    case None => []
    case Some(bb) =>
      match ReadBin(blob, bb.hiveBinsDataSize)
      case None => []
      case Some(h) =>
        match if |h| < ROOT_OFF then None else Steps(h, ROOT_OFF)
        case None => []
        case Some(tiles) => FreeKeys(h, tiles)
  }

  lemma {:induction false} FreeKeysConcat(h: Bytes, a: seq<Tile>, b: seq<Tile>)
    ensures FreeKeys(h, a + b) == FreeKeys(h, a) + FreeKeys(h, b)
  {
    hide FreeKeyAt;
    if a == [] {
      assert a + b == b;
    } else {
      assert (a + b)[0] == a[0] && (a + b)[1..] == a[1..] + b;
      FreeKeysConcat(h, a[1..], b);
      Regroup(FreeKeyAt(h, a[0]), FreeKeys(h, a[1..]), FreeKeys(h, b));
    }
  }

  lemma {:induction false} TilesConcat(a: seq<Cell>, b: seq<Cell>, live: bool)
    ensures Tiles(a + b, live) == Tiles(a, live) + Tiles(b, live)
  {
    if a == [] {
      assert a + b == b;
    } else {
      assert (a + b)[1..] == a[1..] + b;
      TilesConcat(a[1..], b, live);
    }
  }

  /** What recovery finds in a list of free cells. */
  function FoundIn(h: Bytes, cells: seq<Cell>): seq<KeySpec> {
    FreeKeys(h, Tiles(cells, false))
  }

  lemma FoundInConcat(h: Bytes, a: seq<Cell>, b: seq<Cell>)
    ensures FoundIn(h, a + b) == FoundIn(h, a) + FoundIn(h, b)
  {
    hide FreeKeys, Tiles;
    TilesConcat(a, b, false);
    FreeKeysConcat(h, Tiles(a, false), Tiles(b, false));
  }

  lemma FoundInOne(h: Bytes, c: Cell)
    ensures FoundIn(h, [c]) == FreeKeyAt(h, Tile(c.off, |c.bytes|, false))
  {
    hide FreeKeyAt;
    assert Tiles([c], false) == [Tile(c.off, |c.bytes|, false)] + [];
    assert FreeKeys(h, []) == [];
  }

  lemma {:induction false} LiveYieldsNothing(h: Bytes, cells: seq<Cell>)
    ensures FreeKeys(h, Tiles(cells, true)) == []
  {
    hide ReadKey;
    if cells != [] {
      LiveYieldsNothing(h, cells[1..]);
      assert Tiles(cells, true)[1..] == Tiles(cells[1..], true);
    }
  }

  // ---------- cells that are no keys ----------

  /** The payload does not begin with the signature of a key. */
  predicate NoKey(c: Cell) {
    |c.bytes| >= 6 && c.bytes[4..6] != NK_SIGNATURE
  }

  lemma {:induction false} NoKeysFound(h: Bytes, cells: seq<Cell>)
    requires Holds(h, cells) && forall c :: c in cells ==> NoKey(c)
    ensures FoundIn(h, cells) == []
  {
    hide At, NoKey, ReadKey, FreeKeyAt;
    if cells != [] {
      assert cells[0] in cells && forall c :: c in cells[1..] ==> c in cells;
      NoKeyFound(h, cells[0]);
      NoKeysFound(h, cells[1..]);
      assert Tiles(cells, false)[1..] == Tiles(cells[1..], false);
    }
  }

  lemma NoKeyFound(h: Bytes, c: Cell)
    requires At(h, c.off, c.bytes) && NoKey(c)
    ensures FreeKeyAt(h, Tile(c.off, |c.bytes|, false)) == []
  {
    hide ReadCell, ParseNk, ReadValueList, ReadLeaf;
    AtSub(h, c.off, c.bytes, 4, c.bytes[4..6]);
    CellHead(h, c.off, false);
    if ReadCell(h, c.off, false).Some? {
      NoSignature(ReadCell(h, c.off, false).value);
    }
  }

  lemma CellHead(h: Bytes, off: nat, live: bool)
    requires off + 6 <= |h|
    ensures var p := ReadCell(h, off, live); p.Some? ==> |p.value| >= 4 && p.value[..2] == h[off + 4..off + 6]
  {
    hide Aligned, Rd32, AsI32;
    if ReadCell(h, off, live).Some? {
      var field: int := AsI32(Rd32(h, off));
      var size := if live then -field else field;
      assert h[off + 4..off + size][..2] == h[off + 4..off + 6];
    }
  }

  lemma NoSignature(p: Bytes)
    requires |p| >= 2 && p[..2] != NK_SIGNATURE
    ensures ParseNk(p) == None
  {
  }

  lemma FramedHead(payload: Bytes, live: bool)
    requires |payload| >= 2
    ensures var b := CellWithSign(payload, live); |b| >= 6 && b[4..6] == payload[..2]
  {
    hide LE32;
  }

  /** Out-of-line data that begins like a key record: a free cell with it may be taken for one. */
  predicate Lookalike(v: ValueSpec) {
    |v.data| > 4 && NK_SIGNATURE <= v.data
  }

  predicate NoLookalikes(orphans: seq<KeySpec>) {
    forall o, v :: o in orphans && v in o.values ==> !Lookalike(v)
  }

  lemma VkIsNoKey(v: ValueSpec, off: nat)
    ensures NoKey(VkCell(v, off, false))
  {
    hide CellWithSign, Inline, VkPayload;
    FramedHead(VkPayload(v, DataSizeRaw(v.data), DataField(v.data, off, false)), false);
    VkHead(v, DataSizeRaw(v.data), DataField(v.data, off, false));
  }

  lemma ValueIsNoKey(v: ValueSpec, off: nat)
    requires !Lookalike(v)
    ensures forall c :: c in ValueCells(v, off, false) ==> NoKey(c)
  {
    hide CellWithSign, Inline, VkCell;
    VkIsNoKey(v, off);
    if |v.data| > 4 {
      FramedHead(v.data, false);
      assert v.data[..2] != NK_SIGNATURE;
    }
  }

  lemma VkHead(v: ValueSpec, dataSizeRaw: int, dataOffset: int)
    ensures VkPayload(v, dataSizeRaw, dataOffset)[..2] == VK_SIGNATURE
  {
    hide LE16, LE32;
  }

  lemma {:induction false} ValuesAreNoKeys(vs: seq<ValueSpec>, off: nat)
    requires forall v :: v in vs ==> !Lookalike(v)
    ensures forall c :: c in ValuesCells(vs, off, false) ==> NoKey(c)
  {
    hide NoKey, ValueCells, ValueSize, Lookalike;
    if vs != [] {
      ValueIsNoKey(vs[0], off);
      ValuesAreNoKeys(vs[1..], off + ValueSize(vs[0]));
    }
  }

  /** A value list begins with an aligned offset, whose low byte is not that of the signature. */
  lemma ListIsNoKey(vs: seq<ValueSpec>, off: nat, listOff: nat)
    requires Aligned(off)
    ensures forall c :: c in ListCells(vs, off, listOff, false) ==> NoKey(c)
  {
    hide CellWithSign, ValueSize, LE32, Digit, DataSize, Aligned;
    if vs != [] {
      var offs := VkOffsets(vs, off);
      var payload := ListPayload(offs);
      assert offs[0] == VkOff(vs[0], off) == off + DataSize(vs[0]);
      DataAligned(vs[0]);
      SumAligned(off, DataSize(vs[0]));
      Bytes32(offs[0]);
      AlignedByte(offs[0]);
      assert payload == LE32(offs[0]) + ListPayload(offs[1..]);
      assert payload[0] == Digit(offs[0], 0) && payload[..2][0] == payload[0];
      FramedHead(payload, false);
    }
  }

  lemma AlignedByte(x: nat)
    requires Aligned(x)
    ensures Digit(x, 0) != 0x6e
  {
  }

  lemma TrailerIsNoKey(used: nat, end: nat)
    requires used <= end && Aligned(used) && Aligned(end)
    ensures forall c :: c in Trailer(used, end) ==> NoKey(c)
  {
    hide LE32, Aligned;
    GapAligned(used, end);
    if used + 4 <= end {
      var b := LE32(end - used) + Zeros(end - used - 4);
      assert b[4..6][0] == 0;
    }
  }

  // ---------- the orphans ----------

  /** What the 16-bit fields leave of an orphan, which is laid out without its subkeys. */
  function OrphanAsRead(orphan: KeySpec): seq<KeySpec> {
    match AsRead(orphan.(subkeys := []))
    case None => []
    case Some(k) => [k]
  }

  function OrphansAsRead(orphans: seq<KeySpec>): (r: seq<KeySpec>)
    ensures |r| <= |orphans|
  {
    if orphans == [] then [] else OrphanAsRead(orphans[0]) + OrphansAsRead(orphans[1..])
  }

  function Bare(orphans: seq<KeySpec>): (r: seq<KeySpec>)
    ensures |r| == |orphans|
  {
    if orphans == [] then [] else [orphans[0].(subkeys := [])] + Bare(orphans[1..])
  }

  /** Subkeys aside, every orphan is read whole exactly when all their name lengths fit. */
  lemma {:induction false} OrphansAsReadExact(orphans: seq<KeySpec>)
    ensures OrphansAsRead(orphans) == Bare(orphans) <==> forall o :: o in orphans ==> KeyFits(o.(subkeys := []))
  {
    hide AsRead, KeyFits;
    if orphans != [] {
      var bare, rest := orphans[0].(subkeys := []), orphans[1..];
      OrphansAsReadExact(rest);
      AsReadExact(bare);
      assert orphans == [orphans[0]] + rest;
      assert Bare(orphans)[1..] == Bare(rest) && Bare(orphans)[0] == bare;
      if OrphanAsRead(orphans[0]) != [] {
        assert OrphansAsRead(orphans)[0] == OrphanAsRead(orphans[0])[0];
        assert OrphansAsRead(orphans)[1..] == OrphansAsRead(rest);
      }
    }
  }

  /** An orphan's cells give what lies in its values' cells, and then the orphan. */
  lemma OrphanFound(h: Bytes, o: KeySpec, off: nat) returns (extra: seq<KeySpec>)
    requires Holds(h, OrphanCells(o, off)) && Aligned(off)
    requires off + OrphanSize(o) < 0x8000_0000 && off + OrphanSize(o) <= |h|
    ensures FoundIn(h, OrphanCells(o, off)) == extra + OrphanAsRead(o)
    ensures (forall v :: v in o.values ==> !Lookalike(v)) ==> extra == []
  {
    hide Aligned, At, Holds, NoKey, Lookalike, ValuesCells, ListCells, CellWithSign, NkPayload, OrphanLinks, ValuesSize,
         ListSize, NkSize, ReadKey, AsRead, FoundIn;
    var vals := ValuesCells(o.values, off, false);
    var list := ListCells(o.values, off, off + ValuesSize(o.values), false);
    var nk := OrphanNkCell(o, off);
    HoldsConcat(h, vals + list, [nk]);
    HoldsConcat(h, vals, list);
    FoundInConcat(h, vals + list, [nk]);
    FoundInConcat(h, vals, list);
    FoundInOne(h, nk);
    NkInside(o, off);
    OrphanBack(h, o, off);
    extra := FoundIn(h, vals) + FoundIn(h, list);
    if forall v :: v in o.values ==> !Lookalike(v) {
      ValuesAreNoKeys(o.values, off);
      ListIsNoKey(o.values, off, off + ValuesSize(o.values));
      NoKeysFound(h, vals);
      NoKeysFound(h, list);
    }
  }

  /** `a` is `b` with elements left out. */
  predicate Embeds<T(==)>(a: seq<T>, b: seq<T>)
    decreases |b|
  {
    a == [] || (b != [] && ((a[0] == b[0] && Embeds(a[1..], b[1..])) || Embeds(a, b[1..])))
  }

  lemma {:induction false} EmbedsConcat<T>(a: seq<T>, b: seq<T>, extra: seq<T>, c: seq<T>, d: seq<T>)
    requires a == b && Embeds(c, d)
    ensures Embeds(a + c, extra + b + d)
    decreases |extra| + |b|
  {
    var all := extra + b + d;
    if extra != [] {
      EmbedsConcat(a, b, extra[1..], c, d);
      assert all[1..] == extra[1..] + b + d;
    } else if a == [] {
      assert a + c == c && all == d;
    } else {
      EmbedsConcat(a[1..], b[1..], extra, c, d);
      assert (a + c)[1..] == a[1..] + c && all[1..] == extra + b[1..] + d;
    }
  }

  lemma {:induction false} OrphansFound(h: Bytes, orphans: seq<KeySpec>, off: nat)
    requires Holds(h, OrphansCells(orphans, off)) && Aligned(off)
    requires off + OrphansSize(orphans) < 0x8000_0000 && off + OrphansSize(orphans) <= |h|
    ensures Embeds(OrphansAsRead(orphans), FoundIn(h, OrphansCells(orphans, off)))
    ensures NoLookalikes(orphans) ==> FoundIn(h, OrphansCells(orphans, off)) == OrphansAsRead(orphans)
  {
    hide Aligned, Holds, OrphanCells, OrphanSize, FoundIn, OrphanAsRead, Lookalike;
    if orphans == [] {
      NothingFound(h);
    } else {
      var o, rest, mid := orphans[0], orphans[1..], off + OrphanSize(orphans[0]);
      assert o in orphans && forall x :: x in rest ==> x in orphans;
      OrphanAligned(o);
      SumAligned(off, OrphanSize(o));
      HoldsConcat(h, OrphanCells(o, off), OrphansCells(rest, mid));
      FoundInConcat(h, OrphanCells(o, off), OrphansCells(rest, mid));
      var extra := OrphanFound(h, o, off);
      OrphansFound(h, rest, mid);
      EmbedsConcat(OrphanAsRead(o), OrphanAsRead(o), extra, OrphansAsRead(rest), FoundIn(h, OrphansCells(rest, mid)));
    }
  }

  lemma NothingFound(h: Bytes)
    ensures FoundIn(h, []) == []
  {
  }

  // ---------- whole files ----------

  /** Recovery in a built file is a search of its bin. */
  lemma RecoveredIsSearch(spec: HiveSpec)
    requires LayoutFits(spec)
    ensures ROOT_OFF <= |Hbin(spec)| && Steps(Hbin(spec), ROOT_OFF).Some?
    ensures Recovered(Hive(spec)) == FreeKeys(Hbin(spec), Steps(Hbin(spec), ROOT_OFF).value)
  {
    hide Hive, Hbin, LayoutFits, BB.Parse, ReadBin, Steps, FreeKeys, KeyCells, OrphansCells, Trailer, BinSize;
    HeaderBack(spec);
    BinBack(spec);
    StepsVisitAll(spec);
  }

  /** What it finds, it finds in the orphans' cells. */
  lemma RecoveredIsDead(spec: HiveSpec)
    requires LayoutFits(spec)
    ensures Recovered(Hive(spec)) == FoundIn(Hbin(spec), OrphansCells(spec.deletedOrphans, OrphansOff(spec)))
    ensures UsedEnd(spec) <= |Hbin(spec)|
  {
    hide Hive, Hbin, KeySize, OrphansSize, KeyCells, OrphansCells, Trailer, FreeKeys, Tiles, Steps, Holds, Recovered,
         RoundBin, Aligned;
    var h := Hbin(spec);
    var live, dead := KeyCells(spec.root, ROOT_OFF, 0, true), OrphansCells(spec.deletedOrphans, OrphansOff(spec));
    var trailer := Trailer(UsedEnd(spec), BinSize(spec));
    RecoveredIsSearch(spec);
    StepsVisitAll(spec);
    PartsHeld(spec);
    UsedAligned(spec);
    LiveYieldsNothing(h, live);
    TrailerIsNoKey(UsedEnd(spec), BinSize(spec));
    NoKeysFound(h, trailer);
    FreeKeysConcat(h, Tiles(live, true) + Tiles(dead, false), Tiles(trailer, false));
    FreeKeysConcat(h, Tiles(live, true), Tiles(dead, false));
    assert Recovered(Hive(spec)) == [] + FoundIn(h, dead) + [] == FoundIn(h, dead);
  }

  /**
   Recovery finds every orphan that can be read at all, in order; and it finds nothing else when no
   out-of-line data of an orphan begins like a key record.
   */
  lemma RecoversOrphans(spec: HiveSpec)
    requires LayoutFits(spec)
    ensures Embeds(OrphansAsRead(spec.deletedOrphans), Recovered(Hive(spec)))
    ensures NoLookalikes(spec.deletedOrphans) ==> Recovered(Hive(spec)) == OrphansAsRead(spec.deletedOrphans)
  {
    hide Hive, Hbin, KeySize, OrphansSize, KeyCells, OrphansCells, Trailer, Steps, Holds, Embeds, NoLookalikes,
         Recovered, RoundBin, Aligned, FoundIn;
    RecoveredIsDead(spec);
    PartsHeld(spec);
    KeySizeAligned(spec.root);
    SumAligned(ROOT_OFF, KeySize(spec.root));
    OrphansFound(Hbin(spec), spec.deletedOrphans, OrphansOff(spec));
  }

  /** The one value of an orphan, with a key record as its data. */
  predicate HoldsRecord(o: KeySpec, inner: KeySpec) {
    && |o.values| == 1 && o.values[0].data == NkPayload(inner, OrphanLinks(inner, 0))
    && |o.subkeys| == |inner.values| == |inner.subkeys| == 0
  }

  lemma {:induction false} RecordFound(h: Bytes, o: KeySpec, inner: KeySpec, off: nat)
    requires HoldsRecord(o, inner) && KeyFits(inner) && KeyFits(o)
    requires Holds(h, OrphanCells(o, off)) && Aligned(off)
    requires off + OrphanSize(o) < 0x8000_0000 && off + OrphanSize(o) <= |h|
    ensures FoundIn(h, OrphanCells(o, off)) == [inner, o]
  {
    hide Aligned, At, Holds, NoKey, CellWithSign, NkPayload, VkCell, VkSize, CellSize, ReadKey, AsRead, KeyFits,
         FoundIn, ListPayload;
    var v := o.values[0];
    var data, vk, nk := Cell(off, CellWithSign(v.data, false)), VkCell(v, off, false), OrphanNkCell(o, off);
    var list := ListCells(o.values, off, off + ValuesSize(o.values), false);
    assert ValuesCells(o.values, off, false) == [data, vk] + [];
    assert OrphanCells(o, off) == [data] + ([vk] + (list + [nk]));
    HoldsConcat(h, [data], [vk] + (list + [nk]));
    HoldsConcat(h, [vk], list + [nk]);
    HoldsConcat(h, list, [nk]);
    FoundInConcat(h, [data], [vk] + (list + [nk]));
    FoundInConcat(h, [vk], list + [nk]);
    FoundInConcat(h, list, [nk]);
    VkIsNoKey(v, off);
    ListIsNoKey(o.values, off, off + ValuesSize(o.values));
    NoKeysFound(h, [vk]);
    NoKeysFound(h, list);
    FoundInOne(h, data);
    FoundInOne(h, nk);
    assert OrphanCells(inner, off) == [data];
    NkInside(o, off);
    NkInside(inner, off);
    assert OrphanSize(inner) == NkSize(inner) == DataSize(v) <= OrphanSize(o);
    OrphanBack(h, inner, off);
    OrphanBack(h, o, off);
    AsReadExact(inner);
    AsReadExact(o);
    assert inner.(subkeys := []) == inner && o.(subkeys := []) == o;
  }

  /** A key record stored as an orphan's data is recovered as a key of its own, before the orphan. */
  lemma {:induction false} LookalikeIsTaken(spec: HiveSpec, o: KeySpec, inner: KeySpec)
    requires LayoutFits(spec) && HoldsRecord(o, inner) && KeyFits(inner) && KeyFits(o)
    requires |spec.deletedOrphans| == 1 && spec.deletedOrphans[0] == o
    ensures Recovered(Hive(spec)) == [inner, o]
  {
    hide Hive, Hbin, KeySize, OrphanSize, KeyCells, OrphanCells, Trailer, FreeKeys, Tiles, Steps, Holds, Recovered,
         RoundBin, Aligned, KeyFits, HoldsRecord, FoundIn;
    RecoveredIsDead(spec);
    PartsHeld(spec);
    KeySizeAligned(spec.root);
    SumAligned(ROOT_OFF, KeySize(spec.root));
    assert OrphansCells(spec.deletedOrphans, OrphansOff(spec))
        == OrphanCells(o, OrphansOff(spec)) + [] == OrphanCells(o, OrphansOff(spec));
    RecordFound(Hbin(spec), o, inner, OrphansOff(spec));
  }
}
