/**
 The reader recovers what the writer laid out, as far as its 16-bit fields can carry it: records,
 values, keys, whole subtrees and orphans, together with the exact multiset of cells used.
 */
module HiveRoundTrip {
  import opened LittleEndian
  import opened HiveCells
  import opened HiveTiling
  import opened HiveReader

  /** The offsets a list of cells occupies, each as often as it occurs. */
  function Offs(cells: seq<Cell>): multiset<nat> {
    if cells == [] then multiset{} else multiset{cells[0].off} + Offs(cells[1..])
  }

  lemma {:induction false} OffsConcat(a: seq<Cell>, b: seq<Cell>)
    ensures Offs(a + b) == Offs(a) + Offs(b)
  {
    if a == [] {
      assert a + b == b;
    } else {
      assert (a + b)[1..] == a[1..] + b;
      OffsConcat(a[1..], b);
    }
  }

  lemma OffsOne(c: Cell)
    ensures Offs([c]) == multiset{c.off}
  {
    assert [c][1..] == [];
  }

  /** A reading together with the cells it takes. */
  function Using<T>(r: Option<T>, cells: multiset<nat>): Option<Found<T>> {
    match r
    case None => None
    case Some(x) => Some(Found(x, cells))
  }

  lemma HoldsConcat(h: Bytes, a: seq<Cell>, b: seq<Cell>)
    ensures Holds(h, a + b) <==> Holds(h, a) && Holds(h, b)
  {
    hide Aligned, At;
    assert forall c :: c in a + b <==> c in a || c in b;
  }

  // ---------- one cell, one record ----------

  /**
   A framed payload is found again, followed by less than eight zero bytes, by a reader that expects
   the cell's state; a reader that expects the other state refuses it.
   */
  lemma CellBack(h: Bytes, off: nat, payload: Bytes, live: bool)
    requires At(h, off, CellWithSign(payload, live))
    requires Aligned(off) && off + CellSize(|payload|) < 0x8000_0000
    ensures var p := ReadCell(h, off, live);
      p.Some? && payload <= p.value && p.value[|payload|..] == Zeros(CellSize(|payload|) - 4 - |payload|)
    ensures ReadCell(h, off, !live) == None
  {
    var total: int := Pad8(4 + |payload|);
    var size: int := if live then -total else total;
    var pad := Zeros(total - 4 - |payload|);
    assert CellWithSign(payload, live) == LE32(size) + (payload + pad);
    AtConcat(h, off, LE32(size), payload + pad);
    Read32(h, off, size);
  }

  predicate LinksFit(l: NkLinks) {
    && 0 <= l.parent < TWO32 && 0 <= l.nSub < TWO32 && 0 <= l.subList < TWO32
    && 0 <= l.nValues < TWO32 && -1 <= l.valueList < 0x8000_0000
  }

  /** An offset field: -1 is stored as all ones. */
  function Stored(x: int): u32
    requires -1 <= x < TWO32
  {
    if x < 0 then NO_OFFSET else x
  }

  lemma NkFields(nameLen: nat, lastWritten: u64, l: NkLinks)
    ensures var f := NkFixed(nameLen, lastWritten, l);
      && At(f, 0, NK_SIGNATURE) && At(f, 2, LE16(l.flags)) && At(f, 4, LE64(lastWritten)) && At(f, 12, LE32(0))
      && At(f, 16, LE32(l.parent)) && At(f, 20, LE32(l.nSub)) && At(f, 24, LE32(0)) && At(f, 28, LE32(l.subList))
      && At(f, 32, LE32(-1))
  {
    hide LE16, LE32, LE64;
  }

  lemma NkMoreFields(nameLen: nat, lastWritten: u64, l: NkLinks)
    ensures var f := NkFixed(nameLen, lastWritten, l);
      && At(f, 36, LE32(l.nValues)) && At(f, 40, LE32(l.valueList)) && At(f, 44, LE32(NO_OFFSET)) && At(f, 48, LE32(-1))
      && At(f, 52, LE32(0)) && At(f, 56, LE32(0)) && At(f, 60, LE32(0)) && At(f, 64, LE32(0)) && At(f, 68, LE32(0))
      && At(f, 72, LE16(nameLen)) && At(f, 74, LE16(0))
  {
    hide LE16, LE32, LE64;
  }

  /** The fixed part is a prefix, the name follows it. */
  lemma NkPrefix(key: KeySpec, l: NkLinks, p: Bytes)
    requires NkPayload(key, l) <= p
    ensures At(p, 0, NkFixed(|key.name|, key.lastWritten, l)) && p[76..76 + |key.name|] == key.name
  {
    hide NkFixed;
    var f := NkFixed(|key.name|, key.lastWritten, l);
    assert p[..|f| + |key.name|] == f + key.name;
    assert p[0..|f|] == p[..|f| + |key.name|][..|f|];
  }

  lemma NkLow(key: KeySpec, l: NkLinks, p: Bytes)
    requires At(p, 0, NkFixed(|key.name|, key.lastWritten, l)) && LinksFit(l)
    ensures p[..2] == NK_SIGNATURE && Rd16(p, 2) == l.flags && Rd64(p, 4) == key.lastWritten && Rd32(p, 12) == 0
    ensures Rd32(p, 16) == l.parent && Rd32(p, 20) == l.nSub && Rd32(p, 24) == 0 && Rd32(p, 28) == l.subList
    ensures Rd32(p, 32) == NO_OFFSET
  {
    hide NkFixed, LE16, LE32, LE64, Rd16, Rd32, Rd64;
    var f := NkFixed(|key.name|, key.lastWritten, l);
    NkFields(|key.name|, key.lastWritten, l);
    AtSub(p, 0, f, 0, NK_SIGNATURE);
    AtSub(p, 0, f, 2, LE16(l.flags));         Read16(p, 2, l.flags);
    AtSub(p, 0, f, 4, LE64(key.lastWritten)); Read64(p, 4, key.lastWritten);
    AtSub(p, 0, f, 12, LE32(0));              Read32(p, 12, 0);
    AtSub(p, 0, f, 16, LE32(l.parent));       Read32(p, 16, l.parent);
    AtSub(p, 0, f, 20, LE32(l.nSub));         Read32(p, 20, l.nSub);
    AtSub(p, 0, f, 24, LE32(0));              Read32(p, 24, 0);
    AtSub(p, 0, f, 28, LE32(l.subList));      Read32(p, 28, l.subList);
    AtSub(p, 0, f, 32, LE32(-1));             Read32(p, 32, -1);
  }

  lemma NkHigh(key: KeySpec, l: NkLinks, p: Bytes)
    requires At(p, 0, NkFixed(|key.name|, key.lastWritten, l)) && LinksFit(l)
    ensures |p| >= 76 && Rd32(p, 36) == l.nValues && Rd32(p, 40) == Stored(l.valueList)
    ensures Rd32(p, 44) == NO_OFFSET && Rd32(p, 48) == NO_OFFSET
    ensures Rd32(p, 52) == Rd32(p, 56) == Rd32(p, 60) == Rd32(p, 64) == Rd32(p, 68) == 0
    ensures Rd16(p, 72) == |key.name| % 0x1_0000 && Rd16(p, 74) == 0
  {
    hide NkFixed, LE16, LE32, LE64, Rd16, Rd32, Rd64;
    var f := NkFixed(|key.name|, key.lastWritten, l);
    NkMoreFields(|key.name|, key.lastWritten, l);
    AtSub(p, 0, f, 36, LE32(l.nValues));   Read32(p, 36, l.nValues);
    AtSub(p, 0, f, 40, LE32(l.valueList)); Read32(p, 40, l.valueList);
    AtSub(p, 0, f, 44, LE32(NO_OFFSET));   Read32(p, 44, NO_OFFSET);
    AtSub(p, 0, f, 48, LE32(-1));          Read32(p, 48, -1);
    AtSub(p, 0, f, 52, LE32(0));           Read32(p, 52, 0);
    AtSub(p, 0, f, 56, LE32(0));           Read32(p, 56, 0);
    AtSub(p, 0, f, 60, LE32(0));           Read32(p, 60, 0);
    AtSub(p, 0, f, 64, LE32(0));           Read32(p, 64, 0);
    AtSub(p, 0, f, 68, LE32(0));           Read32(p, 68, 0);
    Wrapped16(|key.name|);
    AtSub(p, 0, f, 72, LE16(|key.name|));  Read16(p, 72, |key.name| % 0x1_0000);
    AtSub(p, 0, f, 74, LE16(0));           Read16(p, 74, 0);
  }

  /** Every field of an `nk` payload reads back, whatever padding follows; a long name is cut. */
  lemma NkBack(key: KeySpec, l: NkLinks, p: Bytes)
    requires NkPayload(key, l) <= p && LinksFit(l)
    ensures ParseNk(p) == Some(NkRecord(
      l.flags, key.lastWritten, 0, l.parent, l.nSub, 0, l.subList, NO_OFFSET,
      l.nValues, Stored(l.valueList), NO_OFFSET, NO_OFFSET, 0, 0, 0, 0, 0, 0, CutName(key.name)))
  {
    hide NkFixed, Rd16, Rd32, Rd64;
    NkPrefix(key, l, p);
    NkLow(key, l, p);
    NkHigh(key, l, p);
    CutSlice(p, 76, key.name);
  }

  /** Cutting a name is reading fewer of its bytes. */
  lemma CutSlice(p: Bytes, off: nat, name: Bytes)
    requires off + |name| <= |p| && p[off..off + |name|] == name
    ensures |CutName(name)| == |name| % 0x1_0000 && off + |name| % 0x1_0000 <= |p|
    ensures p[off..off + |name| % 0x1_0000] == CutName(name)
  {
    assert p[off..off + |name|][..|name| % 0x1_0000] == p[off..off + |name| % 0x1_0000];
  }

  lemma VkFields(v: ValueSpec, dsr: u32, dataOff: u32)
    ensures var f := VkFixed(v, dsr, dataOff);
      && At(f, 0, VK_SIGNATURE) && At(f, 2, LE16(|v.name|)) && At(f, 4, LE32(dsr)) && At(f, 8, LE32(dataOff))
      && At(f, 12, LE32(v.typeRaw)) && At(f, 16, LE16(if v.name == [] then 0 else VALUE_COMP_NAME_ASCII))
      && At(f, 18, LE16(0))
  {
    hide LE16, LE32, LE64;
  }

  /** Every field of a `vk` payload reads back; a long name is cut, but the flags still announce one. */
  lemma VkBack(v: ValueSpec, dsr: u32, dataOff: u32, p: Bytes)
    requires VkPayload(v, dsr, dataOff) <= p
    ensures ParseVk(p) == Some(VkRecord(
      dsr, dataOff, v.typeRaw, if v.name == [] then 0 else VALUE_COMP_NAME_ASCII, 0, CutName(v.name)))
  {
    hide Aligned, VkFixed, LE16, LE32, LE64, Rd16, Rd32, Rd64;
    var f := VkFixed(v, dsr, dataOff);
    var flags := if v.name == [] then 0 else VALUE_COMP_NAME_ASCII;
    VkFields(v, dsr, dataOff);
    assert At(p, 0, f) by {
      assert p[..|f| + |v.name|] == f + v.name;
      assert p[0..|f|] == p[..|f| + |v.name|][..|f|];
    }
    AtSub(p, 0, f, 0, VK_SIGNATURE);
    Wrapped16(|v.name|);
    AtSub(p, 0, f, 2, LE16(|v.name|));    Read16(p, 2, |v.name| % 0x1_0000);
    AtSub(p, 0, f, 4, LE32(dsr));         Read32(p, 4, dsr);
    AtSub(p, 0, f, 8, LE32(dataOff));     Read32(p, 8, dataOff);
    AtSub(p, 0, f, 12, LE32(v.typeRaw));  Read32(p, 12, v.typeRaw);
    AtSub(p, 0, f, 16, LE16(flags));      Read16(p, 16, flags);
    AtSub(p, 0, f, 18, LE16(0));          Read16(p, 18, 0);
    CutSlice(p, 20, v.name);
  }

  // ---------- values ----------

  lemma InlineBack(data: Bytes)
    requires |data| <= 4
    ensures LE32(Inline(data))[..|data|] == data
  {
    LE32Inverse(data + Zeros(4 - |data|));
    assert data[..|data|] == data;
  }

  function Dsr(v: ValueSpec): u32
    requires |v.data| < 0x8000_0000
  {
    DataSizeRaw(v.data)
  }

  function Field(v: ValueSpec, off: nat, live: bool): u32
    requires off < TWO32
  {
    DataField(v.data, off, live)
  }

  lemma DataBack(h: Bytes, v: ValueSpec, off: nat, live: bool)
    requires Holds(h, ValueCells(v, off, live)) && Aligned(off) && off + ValueSize(v) < 0x8000_0000
    ensures ReadData(h, VkOff(v, off), Dsr(v), Field(v, off, live), live)
         == Some(Found(v.data, if |v.data| > 4 then multiset{off} else multiset{}))
  {
    hide Aligned, CellWithSign, VkPayload, LE32, ReadCell, Inline;
    if |v.data| > 4 {
      var data := Cell(off, CellWithSign(v.data, live));
      assert data == ValueCells(v, off, live)[0] && data in ValueCells(v, off, live);
      CellBack(h, off, v.data, live);
      assert ReadCell(h, off, live).value[..|v.data|] == v.data;
    } else {
      InlineBack(v.data);
    }
  }

  lemma DataAligned(v: ValueSpec)
    ensures Aligned(DataSize(v))
  {
  }

  /** A value reads back with its type and data, in either state; its name as far as its length field goes. */
  lemma ValueBack(h: Bytes, v: ValueSpec, off: nat, live: bool)
    requires Holds(h, ValueCells(v, off, live)) && Aligned(off) && off + ValueSize(v) < 0x8000_0000
    ensures ReadValue(h, VkOff(v, off), live) == Using(ValueAsRead(v), Offs(ValueCells(v, off, live)))
  {
    hide Aligned, At, Holds, Offs, ValueCells, CellWithSign, VkPayload, ReadData, ReadCell, ParseVk, Dsr, Field,
         DataSize, CutName;
    DataBounded(v, off);
    var dsr, field := Dsr(v), Field(v, off, live);
    ValueParts(h, v, off, live);
    DataAligned(v);
    SumAligned(off, DataSize(v));
    CellBack(h, VkOff(v, off), VkPayload(v, dsr, field), live);
    VkBack(v, dsr, field, ReadCell(h, VkOff(v, off), live).value);
    DataBack(h, v, off, live);
  }

  lemma DataBounded(v: ValueSpec, off: nat)
    requires off + ValueSize(v) < 0x8000_0000
    ensures |v.data| < 0x8000_0000
  {
  }

  lemma ValueParts(h: Bytes, v: ValueSpec, off: nat, live: bool)
    requires Holds(h, ValueCells(v, off, live)) && |v.data| < 0x8000_0000 && off < TWO32
    ensures At(h, VkOff(v, off), CellWithSign(VkPayload(v, Dsr(v), Field(v, off, live)), live))
    ensures Offs(ValueCells(v, off, live))
         == multiset{VkOff(v, off)} + if |v.data| > 4 then multiset{off} else multiset{}
  {
    hide At, CellWithSign, VkPayload, Inline, DataSize;
    var vk := VkCell(v, off, live);
    OffsOne(vk);
    if |v.data| > 4 {
      var data := Cell(off, CellWithSign(v.data, live));
      assert ValueCells(v, off, live) == [data] + [vk];
      HoldsConcat(h, [data], [vk]);
      OffsConcat([data], [vk]);
      OffsOne(data);
    } else {
      assert ValueCells(v, off, live) == [vk];
    }
    HoldsOne(h, vk);
  }

  lemma {:induction false} ValuesBack(h: Bytes, vs: seq<ValueSpec>, off: nat, list: Bytes, live: bool)
    requires Holds(h, ValuesCells(vs, off, live))
    requires Aligned(off) && off + ValuesSize(vs) < 0x8000_0000
    requires ListPayload(VkOffsets(vs, off)) <= list
    ensures ReadValues(h, list, |vs|, live) == Using(ValuesAsRead(vs), Offs(ValuesCells(vs, off, live)))
  {
    hide Aligned, At, ReadValue, ValueAsRead, ValueCells, ValueSize, VkOff, ListPayload, LE32, Rd32;
    if vs != [] {
      var v, rest, mid := vs[0], vs[1..], off + ValueSize(vs[0]);
      ValueSizeAligned(v);
      SumAligned(off, ValueSize(v));
      HoldsConcat(h, ValueCells(v, off, live), ValuesCells(rest, mid, live));
      ValueBack(h, v, off, live);
      VkInside(v, off);
      var offs := VkOffsets(vs, off);
      assert offs[0] == VkOff(v, off) && offs[1..] == VkOffsets(rest, mid);
      ListHead(offs, list);
      ValuesBack(h, rest, mid, list[4..], live);
      OffsConcat(ValueCells(v, off, live), ValuesCells(rest, mid, live));
    }
  }

  lemma ValueSizeAligned(v: ValueSpec)
    ensures Aligned(ValueSize(v)) && ValueSize(v) > 0
  {
    SumAligned(DataSize(v), VkSize(v));
  }

  lemma VkInside(v: ValueSpec, off: nat)
    ensures off <= VkOff(v, off) < off + ValueSize(v)
  {
  }

  lemma ListHead(offs: seq<nat>, list: Bytes)
    requires offs != [] && ListPayload(offs) <= list && offs[0] < TWO32
    ensures Rd32(list, 0) == offs[0] && ListPayload(offs[1..]) <= list[4..]
  {
    hide Aligned, LE32, Rd32;
    var whole := ListPayload(offs);
    assert whole == LE32(offs[0]) + ListPayload(offs[1..]);
    assert list[..|whole|] == whole;
    assert list[0..4] == whole[0..4] == LE32(offs[0]);
    Read32(list, 0, offs[0]);
    assert list[4..][..|whole| - 4] == whole[4..];
  }

  /** The value list of a key or an orphan, through the count and offset its `nk` stores. */
  lemma ValueListBack(h: Bytes, vs: seq<ValueSpec>, off: nat, live: bool)
    requires Holds(h, ValuesCells(vs, off, live))
    requires Holds(h, ListCells(vs, off, off + ValuesSize(vs), live))
    requires Aligned(off) && off + ValuesSize(vs) + ListSize(|vs|) < 0x8000_0000
    ensures var listOff: int := if vs == [] then -1 else off + ValuesSize(vs);
      |vs| < TWO32 && ReadValueList(h, |vs|, Stored(listOff), live)
         == Using(ValuesAsRead(vs),
                  Offs(ValuesCells(vs, off, live)) + Offs(ListCells(vs, off, off + ValuesSize(vs), live)))
  {
    hide Aligned, At, CellWithSign, ReadValues, ReadCell, ListPayload, ValuesCells, ValuesSize, ValueAsRead, CellSize,
         Offs;
    var listOff := off + ValuesSize(vs);
    if vs != [] {
      var payload := ListPayload(VkOffsets(vs, off));
      var cell := Cell(listOff, CellWithSign(payload, live));
      assert ListCells(vs, off, listOff, live) == [cell];
      HoldsOne(h, cell);
      SizesAligned(vs);
      SumAligned(off, ValuesSize(vs));
      CellBack(h, listOff, payload, live);
      ValuesBack(h, vs, off, ReadCell(h, listOff, live).value, live);
      OffsOne(cell);
      assert multiset{listOff} + Offs(ValuesCells(vs, off, live)) == Offs(ValuesCells(vs, off, live)) + Offs([cell]);
    } else {
      NoValues(off, live);
      assert ListCells(vs, off, listOff, live) == [] && Offs([]) == multiset{} by { OffsNone(); }
      var none: multiset<nat> := multiset{};
      assert none + none == none;
    }
  }

  lemma OffsNone()
    ensures Offs([]) == multiset{}
  {
  }

  lemma NoValues(off: nat, live: bool)
    ensures Offs(ValuesCells([], off, live)) == multiset{}
  {
  }

  lemma {:induction false} SizesAligned(vs: seq<ValueSpec>)
    ensures Aligned(ValuesSize(vs)) && ValuesSize(vs) >= |vs|
  {
    hide ValueSize;
    if vs != [] {
      ValueSizeAligned(vs[0]);
      SizesAligned(vs[1..]);
      SumAligned(ValueSize(vs[0]), ValuesSize(vs[1..]));
    }
  }

  // ---------- keys ----------

  lemma ListAligned(n: nat)
    ensures Aligned(ListSize(n)) && Aligned(LfSize(n))
  {
    hide CellSize;
  }

  lemma NkAligned(key: KeySpec)
    ensures Aligned(NkSize(key)) && NkSize(key) > 0
  {
    hide Aligned, CellSize;
  }

  lemma {:induction false} KeySizeAligned(key: KeySpec)
    ensures Aligned(KeySize(key)) && KeySize(key) >= NkSize(key) > 0 && Aligned(NkSize(key))
    decreases key, 1
  {
    hide Aligned, NkSize, ValuesSize, KeysSize, ListSize, LfSize;
    NkAligned(key);
    SizesAligned(key.values);
    ListAligned(|key.values|);
    ListAligned(|key.subkeys|);
    KeysSizeAligned(key.subkeys);
    var upTo := NkSize(key) + ValuesSize(key.values);
    SumAligned(NkSize(key), ValuesSize(key.values));
    SumAligned(upTo, ListSize(|key.values|));
    SumAligned(upTo + ListSize(|key.values|), KeysSize(key.subkeys));
    SumAligned(upTo + ListSize(|key.values|) + KeysSize(key.subkeys), LfSize(|key.subkeys|));
  }

  lemma {:induction false} KeysSizeAligned(keys: seq<KeySpec>)
    ensures Aligned(KeysSize(keys))
    decreases keys, 0
  {
    hide KeySize;
    if keys != [] {
      KeySizeAligned(keys[0]);
      KeysSizeAligned(keys[1..]);
      SumAligned(KeySize(keys[0]), KeysSize(keys[1..]));
    }
  }

  /**
   A live subtree reads back: name, time, values with their data, children in order, each child
   behind its parent and pointing back to it; and every cell of the subtree is used exactly once.
   That is for keys whose lengths and counts fit; `AsRead` says what comes of the others.
   */
  lemma {:induction false} KeyBack(h: Bytes, key: KeySpec, off: nat, parent: nat, isRoot: bool)
    requires Holds(h, KeyCells(key, off, parent, isRoot))
    requires Aligned(off) && off + KeySize(key) < 0x8000_0000 && parent < TWO32 && off < |h|
    ensures ReadKey(h, off, parent, isRoot, true) == Using(AsRead(key), Offs(KeyCells(key, off, parent, isRoot)))
    ensures AsRead(key) == Some(key) <==> KeyFits(key)
    decreases key, 2
  {
    AsReadExact(key);
    KeyBackUsing(h, key, off, parent, isRoot);
  }

  lemma {:induction false} KeyBackUsing(h: Bytes, key: KeySpec, off: nat, parent: nat, isRoot: bool)
    requires Holds(h, KeyCells(key, off, parent, isRoot))
    requires Aligned(off) && off + KeySize(key) < 0x8000_0000 && parent < TWO32 && off < |h|
    ensures ReadKey(h, off, parent, isRoot, true) == Using(AsRead(key), Offs(KeyCells(key, off, parent, isRoot)))
    decreases key, 2
  {
    hide ValuesAsRead, SubkeysAsRead, CutName, Aligned, At, Holds, Offs, ReadCell, ParseNk, ReadValueList, ReadLeaf,
         KeyCells, ListCells, ValuesCells, CellWithSign, NkPayload, ValuesSize, ListSize, KeysSize, LfSize, NkSize,
         LfCells, KeysCells, KeySize, LfOff;
    KeyParts(h, key, off, parent, isRoot);
    KeySizes(key, off, parent, isRoot);
    NkAtOffset(h, key, KeyLinks(key, off, parent, isRoot), off, true);
    SumAligned(off, NkSize(key));
    ValueListBack(h, key.values, off + NkSize(key), true);
    SubOffAligned(key, off);
    LeafBack(h, key.subkeys, SubOff(key, off), LfOff(key, off), off);
  }

  lemma KeySizes(key: KeySpec, off: nat, parent: nat, isRoot: bool)
    requires off + KeySize(key) < 0x8000_0000
    ensures off + NkSize(key) < 0x8000_0000 && Aligned(NkSize(key))
    ensures off + NkSize(key) + ValuesSize(key.values) + ListSize(|key.values|) < 0x8000_0000
    ensures SubOff(key, off) + KeysSize(key.subkeys) < 0x8000_0000
    ensures LfOff(key, off) + LfSize(|key.subkeys|) < 0x8000_0000
    ensures parent < TWO32 ==> LinksFit(KeyLinks(key, off, parent, isRoot))
  {
    hide Aligned, CellSize, KeysSize, ValuesSize;
    KeySizeAligned(key);
    SizesAligned(key.values);
    LfLength(|key.subkeys|);
  }

  lemma LfLength(n: nat)
    ensures LfSize(n) >= n
  {
  }

  /** What holding a subtree's cells means for its parts, and how its offsets add up. */
  lemma KeyParts(h: Bytes, key: KeySpec, off: nat, parent: nat, isRoot: bool)
    requires Holds(h, KeyCells(key, off, parent, isRoot))
    ensures At(h, off, CellWithSign(NkPayload(key, KeyLinks(key, off, parent, isRoot)), true))
    ensures Holds(h, ValuesCells(key.values, off + NkSize(key), true))
    ensures Holds(h, ListCells(key.values, off + NkSize(key), ListOff(key, off), true))
    ensures Holds(h, KeysCells(key.subkeys, SubOff(key, off), off))
    ensures Holds(h, LfCells(key.subkeys, SubOff(key, off), LfOff(key, off)))
    ensures Offs(KeyCells(key, off, parent, isRoot))
         == multiset{off} + (Offs(ValuesCells(key.values, off + NkSize(key), true))
                           + Offs(ListCells(key.values, off + NkSize(key), ListOff(key, off), true)))
          + (Offs(KeysCells(key.subkeys, SubOff(key, off), off))
             + Offs(LfCells(key.subkeys, SubOff(key, off), LfOff(key, off))))
  {
    hide Aligned, At, Holds, Offs, ValuesCells, ListCells, KeysCells, LfCells, CellWithSign, NkPayload, KeyLinks,
         ValuesSize, ListSize, KeysSize, LfSize, NkSize;
    var nk, body := NkCell(key, off, parent, isRoot), BodyCells(key, off);
    var vals := ValuesCells(key.values, off + NkSize(key), true);
    var list := ListCells(key.values, off + NkSize(key), ListOff(key, off), true);
    var subs := KeysCells(key.subkeys, SubOff(key, off), off);
    var lf := LfCells(key.subkeys, SubOff(key, off), LfOff(key, off));
    HoldsConcat(h, [nk] + body + subs, lf);
    HoldsConcat(h, [nk] + body, subs);
    HoldsConcat(h, [nk], body);
    HoldsConcat(h, vals, list);
    HoldsOne(h, nk);
    OffsConcat([nk] + body + subs, lf);
    OffsConcat([nk] + body, subs);
    OffsConcat([nk], body);
    OffsConcat(vals, list);
    OffsOne(nk);
  }

  lemma HoldsOne(h: Bytes, c: Cell)
    ensures Holds(h, [c]) <==> At(h, c.off, c.bytes)
  {
    assert c in [c];
  }

  lemma NkAtOffset(h: Bytes, key: KeySpec, l: NkLinks, off: nat, live: bool)
    requires At(h, off, CellWithSign(NkPayload(key, l), live))
    requires Aligned(off) && off + NkSize(key) < 0x8000_0000 && LinksFit(l)
    ensures var p := ReadCell(h, off, live); p.Some? && ParseNk(p.value) == Some(NkRecord(
      l.flags, key.lastWritten, 0, l.parent, l.nSub, 0, l.subList, NO_OFFSET,
      l.nValues, Stored(l.valueList), NO_OFFSET, NO_OFFSET, 0, 0, 0, 0, 0, 0, CutName(key.name)))
  {
    hide Aligned, CellWithSign, ReadCell, ParseNk, CutName;
    CellBack(h, off, NkPayload(key, l), live);
    NkBack(key, l, ReadCell(h, off, live).value);
  }

  /** The children of a key, through the count and offset its `nk` stores. */
  lemma {:induction false} LeafBack(h: Bytes, keys: seq<KeySpec>, from: nat, lfOff: nat, parent: nat)
    requires |keys| < TWO32 && Aligned(from) && Aligned(lfOff) && parent < from && parent < |h|
    requires from + KeysSize(keys) < 0x8000_0000 && lfOff + LfSize(|keys|) < 0x8000_0000
    requires Holds(h, KeysCells(keys, from, parent)) && Holds(h, LfCells(keys, from, lfOff))
    ensures ReadLeaf(h, |keys|, if keys == [] then 0 else lfOff, parent, true)
         == Using(SubkeysAsRead(keys), Offs(KeysCells(keys, from, parent)) + Offs(LfCells(keys, from, lfOff)))
    decreases keys, 1
  {
    hide Aligned, At, CellWithSign, ReadCell, ReadKeys, LfEntries, LE16, KeysCells, KeysSize, AsRead;
    if |keys| >= 0x1_0000 {
      LongLeaf(h, keys, from, lfOff, parent);
    } else if keys != [] {
      var payload := LfPayload(keys, from);
      var cell := Cell(lfOff, CellWithSign(payload, true));
      assert LfCells(keys, from, lfOff) == [cell];
      HoldsOne(h, cell);
      CellBack(h, lfOff, payload, true);
      var p := ReadCell(h, lfOff, true).value;
      LeafHead(keys, from, p);
      KeysBack(h, keys, from, parent, p[4..]);
      OffsOne(cell);
      assert multiset{lfOff} + Offs(KeysCells(keys, from, parent))
        == Offs(KeysCells(keys, from, parent)) + Offs([cell]);
    } else {
      NoKeys(from, parent);
      assert LfCells(keys, from, lfOff) == [];
      assert Offs(KeysCells(keys, from, parent)) + Offs([]) == multiset{};
    }
  }

  /** From 2^16 subkeys on, the count stored in the list disagrees with the key's: nothing is read. */
  lemma LongLeaf(h: Bytes, keys: seq<KeySpec>, from: nat, lfOff: nat, parent: nat)
    requires 0x1_0000 <= |keys| < TWO32 && Aligned(lfOff) && parent < |h|
    requires lfOff + LfSize(|keys|) < 0x8000_0000 && Holds(h, LfCells(keys, from, lfOff))
    ensures ReadLeaf(h, |keys|, lfOff, parent, true) == None
  {
    hide Aligned, At, CellWithSign, ReadCell, ReadKeys, LfEntries, LE16, Rd16;
    var payload := LfPayload(keys, from);
    var cell := Cell(lfOff, CellWithSign(payload, true));
    assert LfCells(keys, from, lfOff) == [cell];
    HoldsOne(h, cell);
    CellBack(h, lfOff, payload, true);
    var p := ReadCell(h, lfOff, true).value;
    assert p[..|payload|] == payload;
    assert p[2..4] == payload[2..4] == LE16(|keys|);
    Wrapped16(|keys|);
    AtHere(p, 2, LE16(|keys| % 0x1_0000));
    Read16(p, 2, |keys| % 0x1_0000);
  }

  lemma AtHere(p: Bytes, off: nat, b: Bytes)
    requires off + |b| <= |p| && p[off..off + |b|] == b
    ensures At(p, off, b)
  {
  }

  lemma NoKeys(off: nat, parent: nat)
    ensures Offs(KeysCells([], off, parent)) == multiset{}
  {
  }

  lemma SubOffAligned(key: KeySpec, off: nat)
    requires Aligned(off)
    ensures Aligned(SubOff(key, off)) && Aligned(LfOff(key, off)) && SubOff(key, off) > off
  {
    hide Aligned, NkSize, KeysSize, ValuesSize, ListSize;
    NkAligned(key);
    SizesAligned(key.values);
    ListAligned(|key.values|);
    KeysSizeAligned(key.subkeys);
    SumAligned(off, NkSize(key));
    SumAligned(off + NkSize(key), ValuesSize(key.values));
    SumAligned(ListOff(key, off), ListSize(|key.values|));
    SumAligned(SubOff(key, off), KeysSize(key.subkeys));
  }

  lemma LeafHead(keys: seq<KeySpec>, off: nat, p: Bytes)
    requires LfPayload(keys, off) <= p && |keys| < 0x1_0000
    ensures p[..2] == LF_SIGNATURE && Rd16(p, 2) == |keys| && LfEntries(keys, off) <= p[4..]
  {
    hide Aligned, LE16, Rd16, LfEntries;
    var whole := LfPayload(keys, off);
    assert p[..|whole|] == whole;
    assert p[..2] == whole[..2] == LF_SIGNATURE;
    assert p[2..4] == whole[2..4] == LE16(|keys|);
    Read16(p, 2, |keys|);
    assert p[4..][..|whole| - 4] == whole[4..] == LfEntries(keys, off);
  }

  lemma {:induction false} KeysBack(h: Bytes, keys: seq<KeySpec>, off: nat, parent: nat, entries: Bytes)
    requires Holds(h, KeysCells(keys, off, parent))
    requires Aligned(off) && off + KeysSize(keys) < 0x8000_0000 && parent < off && parent < |h|
    requires LfEntries(keys, off) <= entries
    ensures ReadKeys(h, entries, |keys|, parent, true) == Using(KeysAsRead(keys), Offs(KeysCells(keys, off, parent)))
    decreases keys, 0
  {
    hide Aligned, At, Holds, Offs, ReadKey, ReadKeys, AsRead, KeysAsRead, KeyCells, KeysCells, KeySize, KeysSize,
         Hint, LE32, Rd32, LfEntries;
    if keys == [] {
      NoKeys(off, parent);
      EndOfKeys(h, entries, parent);
    } else {
      var key, rest, mid := keys[0], keys[1..], off + KeySize(keys[0]);
      KeysHead(keys, off, parent);
      HoldsConcat(h, KeyCells(key, off, parent, false), KeysCells(rest, mid, parent));
      OffsConcat(KeyCells(key, off, parent, false), KeysCells(rest, mid, parent));
      KeySizeAligned(key);
      SumAligned(off, KeySize(key));
      OffsetInside(h, key, off, parent);
      EntryHead(keys, off, entries);
      KeyBackUsing(h, key, off, parent, false);
      KeysBack(h, rest, mid, parent, entries[8..]);
      KeysStep(h, entries, off, parent, keys, Offs(KeyCells(key, off, parent, false)),
               Offs(KeysCells(rest, mid, parent)));
    }
  }

  lemma EndOfKeys(h: Bytes, entries: Bytes, parent: nat)
    requires parent < |h|
    ensures ReadKeys(h, entries, 0, parent, true) == Using(KeysAsRead([]), multiset{})
  {
  }

  lemma KeysHead(keys: seq<KeySpec>, off: nat, parent: nat)
    requires keys != []
    ensures KeysSize(keys) == KeySize(keys[0]) + KeysSize(keys[1..])
    ensures KeysCells(keys, off, parent)
         == KeyCells(keys[0], off, parent, false) + KeysCells(keys[1..], off + KeySize(keys[0]), parent)
  {
    hide KeyCells, KeySize;
  }

  lemma KeysStep(h: Bytes, entries: Bytes, off: nat, parent: nat, keys: seq<KeySpec>,
                 cells: multiset<nat>, more: multiset<nat>)
    requires keys != [] && 8 * |keys| <= |entries| && Rd32(entries, 0) == off && parent < off < |h|
    requires entries[4..8] == Hint(keys[0].name)
    requires ReadKey(h, off, parent, false, true) == Using(AsRead(keys[0]), cells)
    requires ReadKeys(h, entries[8..], |keys[1..]|, parent, true) == Using(KeysAsRead(keys[1..]), more)
    ensures ReadKeys(h, entries, |keys|, parent, true) == Using(KeysAsRead(keys), cells + more)
  {
    hide ReadKey, AsRead, Rd32, Hint;
  }

  lemma OffsetInside(h: Bytes, key: KeySpec, off: nat, parent: nat)
    requires Holds(h, KeyCells(key, off, parent, false))
    ensures off < |h|
  {
    hide Aligned, CellWithSign, NkPayload, KeysCells, LfCells, BodyCells;
    var nk := NkCell(key, off, parent, false);
    assert nk == KeyCells(key, off, parent, false)[0] && nk in KeyCells(key, off, parent, false);
  }

  lemma EntryHead(keys: seq<KeySpec>, off: nat, entries: Bytes)
    requires keys != [] && LfEntries(keys, off) <= entries && off < TWO32
    ensures Rd32(entries, 0) == off && entries[4..8] == Hint(keys[0].name)
    ensures LfEntries(keys[1..], off + KeySize(keys[0])) <= entries[8..]
  {
    hide Aligned, LE32, Rd32, Hint, KeySize;
    var whole := LfEntries(keys, off);
    assert whole == LE32(off) + Hint(keys[0].name) + LfEntries(keys[1..], off + KeySize(keys[0]));
    assert entries[..|whole|] == whole;
    assert entries[0..4] == whole[0..4] == LE32(off);
    Read32(entries, 0, off);
    assert entries[4..8] == whole[4..8];
    assert entries[8..][..|whole| - 8] == whole[8..];
  }

  /** An orphan reads back from its free `nk` cell, without the subkeys it was given. */
  lemma OrphanBack(h: Bytes, key: KeySpec, off: nat)
    requires Holds(h, OrphanCells(key, off))
    requires Aligned(off) && off + OrphanSize(key) < 0x8000_0000 && OrphanNkOff(key, off) < |h|
    ensures ReadKey(h, OrphanNkOff(key, off), 0, false, false)
         == Using(AsRead(key.(subkeys := [])), Offs(OrphanCells(key, off)))
  {
    hide ValuesAsRead, CutName, Aligned, At, Holds, Offs, ReadCell, ParseNk, ReadValueList, ListCells, ValuesCells,
         CellWithSign, NkPayload, OrphanCells, ValuesSize, ListSize, NkSize;
    OrphanParts(h, key, off);
    OrphanAligned(key);
    NkOffAligned(key, off);
    NkAtOffset(h, key, OrphanLinks(key, off), OrphanNkOff(key, off), false);
    ValueListBack(h, key.values, off, false);
  }

  lemma NkOffAligned(key: KeySpec, off: nat)
    requires Aligned(off)
    ensures Aligned(OrphanNkOff(key, off))
  {
    hide Aligned, ListSize, ValuesSize;
    SizesAligned(key.values);
    ListAligned(|key.values|);
    SumAligned(off, ValuesSize(key.values));
    SumAligned(off + ValuesSize(key.values), ListSize(|key.values|));
  }

  lemma OrphanAligned(key: KeySpec)
    ensures Aligned(OrphanSize(key)) && Aligned(ListSize(|key.values|))
    ensures |key.values| <= ValuesSize(key.values)
  {
    hide Aligned, NkSize, ListSize, ValuesSize;
    NkAligned(key);
    SizesAligned(key.values);
    ListAligned(|key.values|);
    SumAligned(ValuesSize(key.values), ListSize(|key.values|));
    SumAligned(ValuesSize(key.values) + ListSize(|key.values|), NkSize(key));
  }

  lemma OrphanParts(h: Bytes, key: KeySpec, off: nat)
    requires Holds(h, OrphanCells(key, off))
    ensures At(h, OrphanNkOff(key, off), CellWithSign(NkPayload(key, OrphanLinks(key, off)), false))
    ensures Holds(h, ValuesCells(key.values, off, false))
    ensures Holds(h, ListCells(key.values, off, off + ValuesSize(key.values), false))
    ensures Offs(OrphanCells(key, off)) == multiset{OrphanNkOff(key, off)} + (Offs(ValuesCells(key.values, off, false))
          + Offs(ListCells(key.values, off, off + ValuesSize(key.values), false))) + multiset{}
  {
    hide Aligned, At, Holds, Offs, ValuesCells, ListCells, CellWithSign, NkPayload, OrphanLinks, ValuesSize, ListSize,
         NkSize;
    var vals := ValuesCells(key.values, off, false);
    var list := ListCells(key.values, off, off + ValuesSize(key.values), false);
    var nk := OrphanNkCell(key, off);
    HoldsConcat(h, vals + list, [nk]);
    HoldsConcat(h, vals, list);
    HoldsOne(h, nk);
    OffsConcat(vals + list, [nk]);
    OffsConcat(vals, list);
    OffsOne(nk);
  }

  // ---------- where the field widths bite ----------

  /** A name reads back exactly when its length fits the 16-bit field; longer ones lose their end. */
  lemma NameLimit(key: KeySpec, l: NkLinks, p: Bytes)
    requires NkPayload(key, l) <= p && LinksFit(l)
    ensures ParseNk(p).Some? && ParseNk(p).value.name <= key.name
    ensures ParseNk(p).value.name == key.name <==> |key.name| < 0x1_0000
  {
    hide NkPayload, ParseNk;
    NkBack(key, l, p);
  }

  /** With 2^16 subkeys or more the count stored in the list disagrees with the key's: nothing is read. */
  lemma SubkeyLimit(h: Bytes, key: KeySpec, off: nat, parent: nat, isRoot: bool)
    requires Holds(h, KeyCells(key, off, parent, isRoot)) && |key.subkeys| >= 0x1_0000
    requires Aligned(off) && off + KeySize(key) < 0x8000_0000 && parent < TWO32 && off < |h|
    ensures ReadKey(h, off, parent, isRoot, true) == None
  {
    hide Holds, KeyCells, KeySize, Aligned, ReadKey, ValuesAsRead, CutName;
    KeyBack(h, key, off, parent, isRoot);
  }

  // ---------- any bytes at all ----------

  /** At `o` lies a whole aligned cell of the given state. */
  predicate CellAt(h: Bytes, o: nat, live: bool) {
    Aligned(o) && o + 4 <= |h| &&
    var field: int := AsI32(Rd32(h, o));
    var size := if live then -field else field;
    8 <= size <= |h| - o && Aligned(size)
  }

  predicate Inside(cells: multiset<nat>, h: Bytes, live: bool) {
    forall o :: o in cells ==> CellAt(h, o, live)
  }

  lemma ReadCellInside(h: Bytes, off: nat, live: bool)
    ensures ReadCell(h, off, live).Some? <==> CellAt(h, off, live)
  {
  }

  lemma ReadValueInside(h: Bytes, off: nat, live: bool)
    requires ReadValue(h, off, live).Some?
    ensures Inside(ReadValue(h, off, live).value.cells, h, live)
  {
    hide CellAt, ReadCell, ParseVk;
    ReadCellInside(h, off, live);
    ReadCellInside(h, ParseVk(ReadCell(h, off, live).value).value.dataOffset, live);
  }

  lemma {:induction false} ReadValuesInside(h: Bytes, list: Bytes, n: nat, live: bool)
    requires 4 * n <= |list| && ReadValues(h, list, n, live).Some?
    ensures Inside(ReadValues(h, list, n, live).value.cells, h, live)
  {
    hide CellAt, ReadValue;
    if n > 0 {
      ReadValueInside(h, Rd32(list, 0), live);
      ReadValuesInside(h, list[4..], n - 1, live);
    }
  }

  lemma ReadValueListInside(h: Bytes, n: u32, listOff: u32, live: bool)
    requires ReadValueList(h, n, listOff, live).Some?
    ensures Inside(ReadValueList(h, n, listOff, live).value.cells, h, live)
  {
    hide CellAt, ReadCell, ReadValues;
    if n > 0 {
      ReadCellInside(h, listOff, live);
      ReadValuesInside(h, ReadCell(h, listOff, live).value, n, live);
    }
  }

  /** On arbitrary bytes: whatever the reader accepts lies in whole cells inside the bin, all of one state. */
  lemma {:induction false} ReadKeyInside(h: Bytes, off: nat, parent: nat, isRoot: bool, live: bool)
    requires off < |h| && ReadKey(h, off, parent, isRoot, live).Some?
    ensures Inside(ReadKey(h, off, parent, isRoot, live).value.cells, h, live)
    decreases |h| - off, 2
  {
    hide CellAt, ReadCell, ParseNk, ReadValueList, ReadLeaf;
    ReadCellInside(h, off, live);
    var nk := ParseNk(ReadCell(h, off, live).value).value;
    ReadValueListInside(h, nk.nValues, nk.valueList, live);
    ReadLeafInside(h, nk.nSub, nk.subList, off, live);
  }

  lemma {:induction false} ReadLeafInside(h: Bytes, n: u32, leafOff: u32, parent: nat, live: bool)
    requires parent < |h| && ReadLeaf(h, n, leafOff, parent, live).Some?
    ensures Inside(ReadLeaf(h, n, leafOff, parent, live).value.cells, h, live)
    decreases |h| - parent, 1
  {
    hide CellAt, ReadCell, ReadKeys;
    if n > 0 {
      ReadCellInside(h, leafOff, live);
      ReadKeysInside(h, ReadCell(h, leafOff, live).value[4..], n, parent, live);
    }
  }

  lemma {:induction false} ReadKeysInside(h: Bytes, entries: Bytes, n: nat, parent: nat, live: bool)
    requires parent < |h| && 8 * n <= |entries| && ReadKeys(h, entries, n, parent, live).Some?
    ensures Inside(ReadKeys(h, entries, n, parent, live).value.cells, h, live)
    decreases |h| - parent, 0, n
  {
    hide CellAt, ReadKey;
    if n > 0 {
      ReadKeyInside(h, Rd32(entries, 0), parent, false, live);
      ReadKeysInside(h, entries[8..], n - 1, parent, live);
    }
  }

  // ---------- which way links point ----------

  /** `child` lies behind `parent`, its record points back to it, and it reads as `key`. */
  predicate ChildAt(h: Bytes, child: nat, parent: nat, live: bool, key: KeySpec) {
    parent < child < |h| &&
    var cell := ReadCell(h, child, live);
    cell.Some? && ParseNk(cell.value).Some? && ParseNk(cell.value).value.parent == parent &&
    var read := ReadKey(h, child, parent, false, live);
    read.Some? && read.value.value == key
  }

  lemma AcceptedChildAt(h: Bytes, child: nat, parent: nat, live: bool)
    requires parent < child < |h| && ReadKey(h, child, parent, false, live).Some?
    ensures ChildAt(h, child, parent, live, ReadKey(h, child, parent, false, live).value.value)
  {
    hide ReadCell, ParseNk, ReadValueList, ReadLeaf;
  }

  lemma {:induction false} AcceptedCount(h: Bytes, entries: Bytes, n: nat, parent: nat, live: bool)
    requires parent < |h| && 8 * n <= |entries| && ReadKeys(h, entries, n, parent, live).Some?
    ensures |ReadKeys(h, entries, n, parent, live).value.value| == n
    decreases n
  {
    hide ReadKey, Hint;
    if n > 0 {
      AcceptedCount(h, entries[8..], n - 1, parent, live);
    }
  }

  lemma {:induction false} AcceptedEntry(h: Bytes, entries: Bytes, n: nat, parent: nat, live: bool, i: nat)
    requires parent < |h| && 8 * n <= |entries| && ReadKeys(h, entries, n, parent, live).Some? && i < n
    ensures var keys := ReadKeys(h, entries, n, parent, live).value.value;
      i < |keys| && ChildAt(h, Rd32(entries, 8 * i), parent, live, keys[i])
    decreases n
  {
    hide ReadKey, ChildAt, Hint;
    AcceptedCount(h, entries, n, parent, live);
    AcceptedChildAt(h, Rd32(entries, 0), parent, live);
    if i > 0 {
      AcceptedEntry(h, entries[8..], n - 1, parent, live, i - 1);
      assert Rd32(entries[8..], 8 * (i - 1)) == Rd32(entries, 8 * i);
    }
  }

  /**
   On arbitrary bytes, below any key the reader accepts: the `lf` entry of every child names a cell
   behind the key whose parent field points back to it.
   */
  lemma AcceptedChild(h: Bytes, off: nat, parent: nat, isRoot: bool, live: bool, i: nat)
    requires off < |h| && ReadKey(h, off, parent, isRoot, live).Some?
    requires i < |ReadKey(h, off, parent, isRoot, live).value.value.subkeys|
    ensures var nk := ParseNk(ReadCell(h, off, live).value).value; var list := ReadCell(h, nk.subList, live);
      list.Some? && 12 + 8 * i <= |list.value|
      && ChildAt(h, Rd32(list.value, 4 + 8 * i), off, live,
                 ReadKey(h, off, parent, isRoot, live).value.value.subkeys[i])
  {
    hide ReadCell, ParseNk, ReadValueList, ReadKeys, ChildAt;
    var nk := ParseNk(ReadCell(h, off, live).value).value;
    var list := ReadCell(h, nk.subList, live).value;
    assert ReadLeaf(h, nk.nSub, nk.subList, off, live).Some?;
    AcceptedCount(h, list[4..], nk.nSub, off, live);
    AcceptedEntry(h, list[4..], nk.nSub, off, live, i);
    assert Rd32(list[4..], 8 * i) == Rd32(list, 4 + 8 * i);
  }

  /** `vk` holds `v`, and data that is not inline lies in a cell before it. */
  predicate ValueAt(h: Bytes, vk: nat, live: bool, v: ValueSpec) {
    var cell := ReadCell(h, vk, live);
    var read := ReadValue(h, vk, live);
    cell.Some? && ParseVk(cell.value).Some? && read.Some? && read.value.value == v &&
    var record := ParseVk(cell.value).value;
    0 < record.dataSizeRaw < DATA_IS_RESIDENT ==>
      record.dataOffset < vk && ReadCell(h, record.dataOffset, live).Some?
      && |v.data| == record.dataSizeRaw && v.data <= ReadCell(h, record.dataOffset, live).value
  }

  lemma AcceptedValueAt(h: Bytes, vk: nat, live: bool)
    requires ReadValue(h, vk, live).Some?
    ensures ValueAt(h, vk, live, ReadValue(h, vk, live).value.value)
  {
    hide ReadCell, ParseVk;
  }

  lemma {:induction false} AcceptedListed(h: Bytes, list: Bytes, n: nat, live: bool, i: nat)
    requires 4 * n <= |list| && ReadValues(h, list, n, live).Some?
    ensures var vs := ReadValues(h, list, n, live).value.value;
      |vs| == n && (i < n ==> ValueAt(h, Rd32(list, 4 * i), live, vs[i]))
  {
    hide ReadValue, ValueAt;
    if n > 0 {
      AcceptedListed(h, list[4..], n - 1, live, if i == 0 then 0 else i - 1);
      AcceptedValueAt(h, Rd32(list, 0), live);
      if 0 < i < n {
        assert Rd32(list[4..], 4 * (i - 1)) == Rd32(list, 4 * i);
      }
    }
  }

  /** Likewise the value list of any accepted key names every value's `vk`, and its data lies before that. */
  lemma AcceptedValue(h: Bytes, off: nat, parent: nat, isRoot: bool, live: bool, i: nat)
    requires off < |h| && ReadKey(h, off, parent, isRoot, live).Some?
    requires i < |ReadKey(h, off, parent, isRoot, live).value.value.values|
    ensures var nk := ParseNk(ReadCell(h, off, live).value).value; var list := ReadCell(h, nk.valueList, live);
      list.Some? && 4 + 4 * i <= |list.value|
      && ValueAt(h, Rd32(list.value, 4 * i), live, ReadKey(h, off, parent, isRoot, live).value.value.values[i])
  {
    hide ReadCell, ParseNk, ReadLeaf, ReadValues, ValueAt;
    var nk := ParseNk(ReadCell(h, off, live).value).value;
    assert ReadValueList(h, nk.nValues, nk.valueList, live).Some?;
    AcceptedListed(h, ReadCell(h, nk.valueList, live).value, nk.nValues, live, i);
  }
}
