/**
 The hive writer: a bump allocator and the recursive layout that reserves a key's `nk` cell,
 lays out everything below it, and only then fills the reservation.
 */
module HiveGen {
  import opened LittleEndian
  import opened HiveCells
  import opened HiveTiling
  import opened HiveImage
  import opened Utf16
  import opened Xor32
  import BB = BaseBlock

  class Layout {
    var cells: seq<Cell>
    var next: u32

    constructor ()
      ensures cells == [] && next == FIRST_CELL_REL
    {
      cells, next := [], FIRST_CELL_REL;
    }

    /** Reserve `size` bytes; nothing is written yet. */
    method Reserve(size: u32) returns (off: u32)
      requires next + size < TWO32
      modifies this`next
      ensures off == old(next) && next == old(next) + size
    {
      off := next;
      next := next + size;
    }

    /** Put bytes at an offset reserved before. */
    method Place(off: u32, bytes: Bytes)
      modifies this`cells
      ensures cells == old(cells) + [Cell(off, bytes)]
    {
      cells := cells + [Cell(off, bytes)];
    }

    /** Append a cell and advance. */
    method Emit(bytes: Bytes) returns (off: u32)
      requires next + |bytes| < TWO32
      modifies this
      ensures off == old(next) && next == old(next) + |bytes|
      ensures cells == old(cells) + [Cell(off, bytes)]
    {
      off := next;
      next := next + |bytes|;
      cells := cells + [Cell(off, bytes)];
    }
  }

  /** The four-byte array a short value is copied into, as one number. */
  method CopyInline(data: Bytes) returns (r: u32)
    requires |data| <= 4
    ensures r == Inline(data)
  {
    var buffer := Zeros(4);
    buffer := data + buffer[|data|..];
    assert buffer == data[..|data|] + Zeros(4 - |data|);
    r := Rd32(buffer, 0);
  }

  method LayoutValue(lay: Layout, v: ValueSpec) returns (off: u32)
    requires lay.next + ValueSize(v) < 0x8000_0000
    modifies lay
    ensures off == VkOff(v, old(lay.next))
    ensures lay.next == old(lay.next) + ValueSize(v)
    ensures lay.cells == old(lay.cells) + ValueCells(v, old(lay.next), true)
  {
    hide CellWithSign, VkPayload, Inline, CellSize;
    var len := |v.data|;
    if len <= 4 && len > 0 {
      var inline := CopyInline(v.data);
      off := lay.Emit(CellWithSign(VkPayload(v, len + DATA_IS_RESIDENT, inline), true));
    } else if len == 0 {
      off := lay.Emit(CellWithSign(VkPayload(v, 0, NO_OFFSET), true));
    } else {
      var dataOff := lay.Emit(CellWithSign(v.data, true));
      off := lay.Emit(CellWithSign(VkPayload(v, len, dataOff), true));
    }
  }

  /** The value list: one offset after another. */
  method OffsetList(offs: seq<nat>) returns (list: Bytes)
    ensures list == ListPayload(offs)
  {
    list := [];
    for i := 0 to |offs|
      invariant list + ListPayload(offs[i..]) == ListPayload(offs)
    {
      assert offs[i..][1..] == offs[i + 1..];
      list := list + LE32(offs[i]);
    }
  }

  method LayoutOrphanValue(lay: Layout, v: ValueSpec) returns (off: u32)
    requires lay.next + ValueSize(v) < 0x8000_0000
    modifies lay
    ensures off == VkOff(v, old(lay.next))
    ensures lay.next == old(lay.next) + ValueSize(v)
    ensures lay.cells == old(lay.cells) + ValueCells(v, old(lay.next), false)
  {
    hide CellWithSign, VkPayload, Inline;
    var len := |v.data|;
    if len > 4 {
      var dataOff := lay.Emit(CellWithSign(v.data, false));
      off := lay.Emit(CellWithSign(VkPayload(v, len, dataOff), false));
    } else {
      var inline := CopyInline(v.data);
      var dataSizeRaw := if len == 0 then 0 else len + DATA_IS_RESIDENT;
      off := lay.Emit(CellWithSign(VkPayload(v, dataSizeRaw, inline), false));
    }
  }

  /** One `vk` after another; returns their offsets. */
  method LayoutVks(lay: Layout, vs: seq<ValueSpec>, live: bool) returns (offs: seq<nat>)
    requires lay.next + ValuesSize(vs) < 0x8000_0000
    modifies lay
    ensures offs == VkOffsets(vs, old(lay.next))
    ensures lay.next == old(lay.next) + ValuesSize(vs)
    ensures lay.cells == old(lay.cells) + ValuesCells(vs, old(lay.next), live)
  {
    hide ValueCells, ValueSize, VkOff, ValuesCells, ValuesSize, VkOffsets;
    ghost var start, before := lay.next, lay.cells;
    offs := [];
    for i := 0 to |vs|
      invariant lay.next + ValuesSize(vs[i..]) == start + ValuesSize(vs)
      invariant offs + VkOffsets(vs[i..], lay.next) == VkOffsets(vs, start)
      invariant lay.cells + ValuesCells(vs[i..], lay.next, live) == before + ValuesCells(vs, start, live)
    {
      ghost var cells, here := lay.cells, lay.next;
      NextValue(vs, i, here, live);
      var vkOff: u32;
      if live {
        vkOff := LayoutValue(lay, vs[i]);
      } else {
        vkOff := LayoutOrphanValue(lay, vs[i]);
      }
      Regroup(offs, [vkOff as nat], VkOffsets(vs[i + 1..], lay.next));
      offs := offs + [vkOff];
      Regroup(cells, ValueCells(vs[i], here, live), ValuesCells(vs[i + 1..], lay.next, live));
    }
    NoMoreValues(lay.next, live);
  }

  lemma NextValue(vs: seq<ValueSpec>, i: nat, off: nat, live: bool)
    requires i < |vs|
    ensures ValuesSize(vs[i..]) == ValueSize(vs[i]) + ValuesSize(vs[i + 1..])
    ensures VkOffsets(vs[i..], off) == [VkOff(vs[i], off)] + VkOffsets(vs[i + 1..], off + ValueSize(vs[i]))
    ensures ValuesCells(vs[i..], off, live)
      == ValueCells(vs[i], off, live) + ValuesCells(vs[i + 1..], off + ValueSize(vs[i]), live)
  {
    hide ValueCells, ValueSize, VkOff;
    assert vs[i..][1..] == vs[i + 1..];
  }

  lemma NoMoreValues(off: nat, live: bool)
    ensures ValuesSize([]) == 0 && VkOffsets([], off) == [] && ValuesCells([], off, live) == []
  {
  }

  /** One subtree after another; returns each child's offset and name. */
  method LayoutChildren(lay: Layout, keys: seq<KeySpec>, parent: u32) returns (children: seq<(u32, Bytes)>)
    requires lay.next + KeysSize(keys) < 0x8000_0000
    modifies lay
    ensures |children| == |keys| && Entries(children) == LfEntries(keys, old(lay.next))
    ensures lay.next == old(lay.next) + KeysSize(keys)
    ensures lay.cells == old(lay.cells) + KeysPlaced(keys, old(lay.next), parent)
    decreases keys, 0
  {
    hide KeySize, KeyPlaced, Hint, LE32, KeysSize, KeysPlaced, LfEntries, Entries;
    ghost var start, before := lay.next, lay.cells;
    children := [];
    NoMoreKeys(start, parent);
    for i := 0 to |keys|
      invariant |children| == i
      invariant lay.next + KeysSize(keys[i..]) == start + KeysSize(keys)
      invariant Entries(children) + LfEntries(keys[i..], lay.next) == LfEntries(keys, start)
      invariant lay.cells + KeysPlaced(keys[i..], lay.next, parent) == before + KeysPlaced(keys, start, parent)
    {
      ghost var cells, here := lay.cells, lay.next;
      NextKey(keys, i, here, parent);
      var off := LayoutKey(lay, keys[i], parent, false);
      EntriesSnoc(children, (off, keys[i].name));
      Regroup(Entries(children), LE32(off) + Hint(keys[i].name), LfEntries(keys[i + 1..], lay.next));
      children := children + [(off, keys[i].name)];
      Regroup(cells, KeyPlaced(keys[i], here, parent, false), KeysPlaced(keys[i + 1..], lay.next, parent));
    }
    NoMoreKeys(lay.next, parent);
  }

  lemma NextKey(keys: seq<KeySpec>, i: nat, off: nat, parent: nat)
    requires i < |keys|
    ensures KeysSize(keys[i..]) == KeySize(keys[i]) + KeysSize(keys[i + 1..])
    ensures LfEntries(keys[i..], off)
         == (LE32(off) + Hint(keys[i].name)) + LfEntries(keys[i + 1..], off + KeySize(keys[i]))
    ensures KeysPlaced(keys[i..], off, parent)
         == KeyPlaced(keys[i], off, parent, false) + KeysPlaced(keys[i + 1..], off + KeySize(keys[i]), parent)
  {
    hide KeySize, KeyPlaced, Hint, LE32;
    assert keys[i..][1..] == keys[i + 1..];
  }

  lemma NoMoreKeys(off: nat, parent: nat)
    ensures KeysSize([]) == 0 && LfEntries([], off) == [] && KeysPlaced([], off, parent) == [] && Entries([]) == []
  {
  }

  /** "lf", the count, then an offset and a name hint per child. */
  method LfList(children: seq<(u32, Bytes)>) returns (p: Bytes)
    ensures p == LF_SIGNATURE + LE16(|children|) + Entries(children)
  {
    p := LF_SIGNATURE + LE16(|children|);
    ghost var head := p;
    for i := 0 to |children|
      invariant p + Entries(children[i..]) == head + Entries(children)
    {
      assert children[i..][1..] == children[i + 1..];
      p := p + LE32(children[i].0);
      p := p + Hint(children[i].1);
    }
  }

  /** A key's `vk` cells and the value list naming them; the count and offset its `nk` stores. */
  method LayoutValues(lay: Layout, vs: seq<ValueSpec>, live: bool) returns (n: int, listOff: int)
    requires lay.next + ValuesSize(vs) + ListSize(|vs|) < 0x8000_0000
    modifies lay
    ensures n == |vs| && listOff == if vs == [] then -1 else old(lay.next) + ValuesSize(vs)
    ensures lay.next == old(lay.next) + ValuesSize(vs) + ListSize(|vs|)
    ensures lay.cells == old(lay.cells) + ValuesCells(vs, old(lay.next), live)
                       + ListCells(vs, old(lay.next), old(lay.next) + ValuesSize(vs), live)
  {
    hide CellWithSign, ListPayload, CellSize;
    if vs == [] {
      n, listOff := 0, -1;
    } else {
      var offs := LayoutVks(lay, vs, live);
      var list := OffsetList(offs);
      listOff := lay.Emit(CellWithSign(list, live));
      n := |vs|;
    }
  }

  /** The children's subtrees and the `lf` list naming them. */
  method LayoutSubkeys(lay: Layout, keys: seq<KeySpec>, parent: u32) returns (n: int, lfOff: int)
    requires lay.next + KeysSize(keys) + LfSize(|keys|) < 0x8000_0000
    modifies lay
    ensures n == |keys| && lfOff == if keys == [] then 0 else old(lay.next) + KeysSize(keys)
    ensures lay.next == old(lay.next) + KeysSize(keys) + LfSize(|keys|)
    ensures lay.cells == old(lay.cells) + KeysPlaced(keys, old(lay.next), parent)
                       + LfCells(keys, old(lay.next), old(lay.next) + KeysSize(keys))
    decreases keys, 1
  {
    hide CellWithSign, LfEntries, CellSize, KeyPlaced, KeySize;
    if keys == [] {
      n, lfOff := 0, 0;
    } else {
      var children := LayoutChildren(lay, keys, parent);
      var p := LfList(children);
      lfOff := lay.Emit(CellWithSign(p, true));
      n := |keys|;
    }
  }

  method LayoutKey(lay: Layout, key: KeySpec, parent: u32, isRoot: bool) returns (off: u32)
    requires lay.next + KeySize(key) < 0x8000_0000
    modifies lay
    ensures off == old(lay.next)
    ensures lay.next == old(lay.next) + KeySize(key)
    ensures lay.cells == old(lay.cells) + KeyPlaced(key, old(lay.next), parent, isRoot)
    decreases key, 1
  {
    hide CellWithSign, NkPayload, ValuesCells, ListCells, KeysPlaced, LfCells, KeysSize, ValuesSize, ListSize, LfSize;
    ghost var before := lay.cells;
    off := lay.Reserve(CellSize(NK_FIXED + |key.name|));
    var nValues, valueList := LayoutValues(lay, key.values, true);
    ghost var body := BodyCells(key, off);
    assert lay.cells == before + body;
    var nSub, subList := LayoutSubkeys(lay, key.subkeys, off);
    var flags := KEY_COMP_NAME;
    if isRoot {
      flags := flags + KEY_HIVE_ENTRY;
    }
    var links := NkLinks(flags, parent, nSub, subList, nValues, valueList);
    assert links == KeyLinks(key, off, parent, isRoot);
    lay.Place(off, CellWithSign(NkPayload(key, links), true));
    assert lay.cells == before + KeyPlaced(key, off, parent, isRoot);
  }

  /** `lf` entries for children already laid out. */
  ghost function Entries(children: seq<(u32, Bytes)>): Bytes {
    if children == [] then []
    else LE32(children[0].0) + Hint(children[0].1) + Entries(children[1..])
  }

  lemma {:induction false} EntriesSnoc(children: seq<(u32, Bytes)>, c: (u32, Bytes))
    ensures Entries(children + [c]) == Entries(children) + (LE32(c.0) + Hint(c.1))
  {
    hide Hint, LE32;
    if children == [] {
      assert Entries([c]) == LE32(c.0) + Hint(c.1) + [];
    } else {
      assert (children + [c])[1..] == children[1..] + [c];
      EntriesSnoc(children[1..], c);
    }
  }

  /** An orphan: every cell free, the `nk` last, subkeys not laid out. */
  method LayoutOrphan(lay: Layout, key: KeySpec)
    requires lay.next + OrphanSize(key) < 0x8000_0000
    modifies lay
    ensures lay.next == old(lay.next) + OrphanSize(key)
    ensures lay.cells == old(lay.cells) + OrphanCells(key, old(lay.next))
  {
    hide CellWithSign, NkPayload, ValuesCells, ListCells, ValuesSize, ListSize;
    ghost var start, before := lay.next, lay.cells;
    var nValues, valueList := LayoutValues(lay, key.values, false);
    var links := NkLinks(KEY_COMP_NAME, 0, 0, 0, nValues, valueList);
    assert links == OrphanLinks(key, start);
    var _ := lay.Emit(CellWithSign(NkPayload(key, links), false));
    assert lay.cells == before + OrphanCells(key, start);
  }

  // ---------- assembling the file ----------

  /** `a[off..off + b.len()].copy_from_slice(b)` */
  method CopyInto(a: array<byte>, off: nat, b: Bytes)
    requires off + |b| <= a.Length
    modifies a
    ensures a[..] == Blit(old(a[..]), off, b)
  {
    for i := 0 to |b|
      invariant forall k :: 0 <= k < i ==> a[off + k] == b[k]
      invariant forall k :: 0 <= k < a.Length && !(off <= k < off + i) ==> a[k] == old(a[k])
    {
      a[off + i] := b[i];
    }
  }

  /** Writing right behind what is already written, over zeros. */
  method Append(a: array<byte>, ghost done: Bytes, off: nat, b: Bytes)
    requires off == |done| && off + |b| <= a.Length
    requires a[..] == Padded(done, a.Length)
    modifies a
    ensures a[..] == Padded(done + b, a.Length)
  {
    CopyInto(a, off, b);
  }

  method LayoutOrphans(lay: Layout, orphans: seq<KeySpec>)
    requires lay.next + OrphansSize(orphans) < 0x8000_0000
    modifies lay
    ensures lay.next == old(lay.next) + OrphansSize(orphans)
    ensures lay.cells == old(lay.cells) + OrphansCells(orphans, old(lay.next))
  {
    hide OrphanCells, OrphanSize;
    ghost var start, before := lay.next, lay.cells;
    for i := 0 to |orphans|
      invariant lay.next + OrphansSize(orphans[i..]) == start + OrphansSize(orphans)
      invariant lay.cells + OrphansCells(orphans[i..], lay.next) == before + OrphansCells(orphans, start)
    {
      assert orphans[i..][1..] == orphans[i + 1..];
      ghost var cells, here := lay.cells, lay.next;
      LayoutOrphan(lay, orphans[i]);
      Regroup(cells, OrphanCells(orphans[i], here), OrphansCells(orphans[i + 1..], lay.next));
    }
  }

  /** What the allocator holds in the end: the tiles of the hive, in another order. */
  lemma PlacedSpec(spec: HiveSpec)
    ensures var placed := KeyPlaced(spec.root, ROOT_OFF, 0, true) + OrphansCells(spec.deletedOrphans, OrphansOff(spec));
      multiset(placed) == multiset(SpecCells(spec)) && PairwiseApart(placed)
  {
    hide KeyPlaced, KeyCells, OrphansCells, KeySize, OrphansSize;
    var orphans := OrphansCells(spec.deletedOrphans, OrphansOff(spec));
    PlacedArePermuted(spec.root, ROOT_OFF, 0, true);
    PlacedApart(spec.root, ROOT_OFF, 0, true);
    OrphansTiled(spec.deletedOrphans, OrphansOff(spec));
    TiledApart(orphans, OrphansOff(spec), UsedEnd(spec));
    TiledWithin(orphans, OrphansOff(spec), UsedEnd(spec));
    ApartConcat(KeyPlaced(spec.root, ROOT_OFF, 0, true), orphans, ROOT_OFF, OrphansOff(spec), UsedEnd(spec));
  }

  /** The bin header in a zeroed buffer. */
  method StartBin(size: nat) returns (hbin: array<byte>)
    requires size >= HBIN_HEADER_LEN
    ensures fresh(hbin) && hbin[..] == Padded(BinHeader(size), size)
  {
    hide LE32;
    hbin := new byte[size](_ => 0);
    assert hbin[..] == Padded([], size);
    Append(hbin, [], 0, HBIN_SIGNATURE);
    Append(hbin, [] + HBIN_SIGNATURE, 4, LE32(0));
    Append(hbin, [] + HBIN_SIGNATURE + LE32(0), 8, LE32(size));
    assert Padded(BinHeader(size), size) == Padded([] + HBIN_SIGNATURE + LE32(0) + LE32(size), size);
  }

  /** Copying the placed cells, in list order, leaves the image of the tiles they permute. */
  method PlaceCells(hbin: array<byte>, cells: seq<Cell>, ghost tiles: seq<Cell>, ghost from: nat, ghost to: nat)
    requires from <= to <= hbin.Length && Tiled(tiles, from, to)
    requires multiset(cells) == multiset(tiles) && PairwiseApart(cells)
    modifies hbin
    ensures hbin[..] == old(hbin[..])[..from] + Image(tiles) + old(hbin[..])[to..]
  {
    hide Tiled, Image, PairwiseApart;
    ghost var h0 := hbin[..];
    CopyAnyOrder(h0, cells, tiles, from, to);
    for i := 0 to |cells|
      invariant Within(cells[..i], 0, |h0|) && hbin[..] == CopyAll(h0, cells[..i])
    {
      assert cells[i] in cells;
      assert cells[..i + 1][..i] == cells[..i];
      CopyInto(hbin, cells[i].off, cells[i].bytes);
    }
    assert cells[..|cells|] == cells;
  }

  /** Header, cells in allocation order, and the trailing free cell. */
  method AssembleBin(ghost spec: HiveSpec, cells: seq<Cell>, used: nat) returns (hbin: array<byte>)
    requires used == UsedEnd(spec)
    requires multiset(cells) == multiset(SpecCells(spec)) && PairwiseApart(cells)
    ensures fresh(hbin) && hbin[..] == Hbin(spec)
  {
    hide SpecCells, UsedEnd, Image, PairwiseApart, Tiled, BinHeader, RoundBin, Hbin, LE32, AllCells, Padded, Aligned,
         Zeros, Blit;
    var size := RoundBin(used);
    hbin := StartBin(size);
    ghost var h0, image := hbin[..], Image(SpecCells(spec));
    SpecTiled(spec);
    TiledWithin(SpecCells(spec), ROOT_OFF, used);
    PlaceCells(hbin, cells, SpecCells(spec), ROOT_OFF, used);
    PaddedParts(BinHeader(size), size, used);
    UsedAligned(spec);
    NoZeros();
    if used < size {
      CopyInto(hbin, used, LE32(size - used));
    }
    BinAssembled(spec, hbin[..]);
  }

  lemma PaddedParts(head: Bytes, n: nat, from: nat)
    requires |head| <= from <= n
    ensures Padded(head, n)[..|head|] == head && Padded(head, n)[from..] == Zeros(n - from)
  {
  }

  lemma NoZeros()
    ensures Zeros(0) == []
  {
  }

  lemma BinAssembled(spec: HiveSpec, h: Bytes)
    requires var used := UsedEnd(spec); var size := BinSize(spec); var image := Image(SpecCells(spec));
      && |image| == used - ROOT_OFF && (used == size || used + 8 <= size)
      && (used == size ==> h == BinHeader(size) + image + Zeros(0))
      && (used < size ==> h == Blit(BinHeader(size) + image + Zeros(size - used), used, LE32(size - used)))
    ensures h == Hbin(spec)
  {
    hide SpecCells, UsedEnd, LE32, RoundBin;
    var used, size, image := UsedEnd(spec), BinSize(spec), Image(SpecCells(spec));
    ImageConcat(SpecCells(spec), Trailer(used, size));
    if used < size {
      var t := LE32(size - used) + Zeros(size - used - 4);
      assert Trailer(used, size)[1..] == [];
      assert Image(Trailer(used, size)) == t + [] == t;
      assert h == BinHeader(size) + image + t;
    } else {
      assert Image(Trailer(used, size)) == [];
    }
  }

  lemma {:induction false} ImageConcat(a: seq<Cell>, b: seq<Cell>)
    ensures Image(a + b) == Image(a) + Image(b)
  {
    if a == [] {
      assert a + b == b;
    } else {
      assert (a + b)[1..] == a[1..] + b;
      ImageConcat(a[1..], b);
    }
  }

  method FileName(filename: string) returns (name: Bytes)
    ensures name == NameField(filename)
  {
    hide Encode, LE16;
    name := [];
    var units := Encode(filename);
    for i := 0 to |units|
      invariant name + UnitBytes(units[i..]) == UnitBytes(units)
    {
      assert units[i..][1..] == units[i + 1..];
      name := name + LE16(units[i]);
    }
    assert name == UnitBytes(units);
    if |name| > 64 {
      name := name[..64];
    }
  }

  method AssembleBase(spec: HiveSpec, rootOff: nat, size: nat) returns (base: array<byte>)
    requires rootOff == ROOT_OFF && size == BinSize(spec)
    ensures fresh(base) && base[..] == Base(spec)
  {
    hide LE32, LE64, Encode, UnitBytes, BB.Checksum, KeySize, OrphansSize, RoundBin;
    base := new byte[BB.BASE_BLOCK_LEN](_ => 0);
    assert base[..] == Padded([], BB.BASE_BLOCK_LEN);
    ghost var done: Bytes := [];
    Append(base, done, 0, BB.REGF_SIGNATURE);
    done := BB.REGF_SIGNATURE;
    assert [] + BB.REGF_SIGNATURE == done;
    Append(base, done, 4, LE32(spec.primarySeq));
    done := done + LE32(spec.primarySeq);
    Append(base, done, 8, LE32(spec.secondarySeq));
    done := done + LE32(spec.secondarySeq);
    Append(base, done, 12, LE64(spec.root.lastWritten));
    done := done + LE64(spec.root.lastWritten);
    Append(base, done, 20, LE32(1));
    done := done + LE32(1);
    Append(base, done, 24, LE32(spec.minor));
    done := done + LE32(spec.minor);
    Append(base, done, 28, LE32(0));
    done := done + LE32(0);
    Append(base, done, 32, LE32(1));
    done := done + LE32(1);
    Append(base, done, 36, LE32(rootOff));
    done := done + LE32(rootOff);
    Append(base, done, 40, LE32(size));
    done := done + LE32(size);
    Append(base, done, 44, LE32(1));
    done := done + LE32(1);
    assert done == HeaderFields(spec, size);
    FinishBase(spec, base);
  }

  /** File name, checksum over everything before it, possibly corrupted. */
  method FinishBase(spec: HiveSpec, base: array<byte>)
    requires base.Length == BB.BASE_BLOCK_LEN
    requires base[..] == Padded(HeaderFields(spec, BinSize(spec)), BB.BASE_BLOCK_LEN)
    modifies base
    ensures base[..] == Base(spec)
  {
    hide HeaderFields, NameField, BB.Words, Xor, XorAll, BB.Adjust, LE32;
    ghost var done := HeaderFields(spec, BinSize(spec));
    var name := FileName(spec.filename);
    Append(base, done, 48, name);
    done := done + name;
    assert base[..BB.CHECKSUM_OFFSET] == Covered(spec);
    assert base[..] == Padded(Covered(spec), BB.BASE_BLOCK_LEN);
    var sum := BB.Xor32Checksum(base[..]);
    BB.ChecksumPrefix(base[..], Covered(spec));
    assert Covered(spec)[..BB.CHECKSUM_OFFSET] == Covered(spec);
    var checksum := if sum.Some? then sum.value else 0;
    var stored := if spec.corruptChecksum then XorWord(checksum, 0xff) else checksum;
    assert stored == StoredChecksum(spec);
    Append(base, Covered(spec), BB.CHECKSUM_OFFSET, LE32(stored));
  }

  /** The whole file, whatever the order in which its cells were placed. */
  method Build(spec: HiveSpec) returns (out: Bytes)
    requires LayoutFits(spec)
    ensures out == Hive(spec)
  {
    hide KeyPlaced, OrphansCells, KeySize, OrphansSize, SpecCells, Base, Hbin;
    var lay := new Layout();
    var rootOff := LayoutKey(lay, spec.root, 0, true);
    LayoutOrphans(lay, spec.deletedOrphans);
    PlacedSpec(spec);
    assert lay.cells == KeyPlaced(spec.root, ROOT_OFF, 0, true) + OrphansCells(spec.deletedOrphans, OrphansOff(spec));
    var used := lay.next;
    var size := RoundBin(used);
    var hbin := AssembleBin(spec, lay.cells, used);
    var base := AssembleBase(spec, rootOff, size);
    out := base[..] + hbin[..];
  }
}
