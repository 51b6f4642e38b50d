/**
 The bytes of the records of a written file and which way their links point, field by field at its
 offset, whether or not the tree can be read back.
 */
module HiveLinks {
  import opened LittleEndian
  import opened HiveCells
  import opened HiveTiling
  import opened HiveImage
  import opened HiveReader
  import opened HiveRoundTrip
  import opened Utf16
  import opened Xor32
  import BB = BaseBlock
  import T = HiveTheorems

  // ---------- records ----------

  /** The fields that link a key node to the rest. */
  datatype Links = Links(parent: int, nSub: int, subList: int, nValues: int, valueList: int)

  /** `p`, from behind a cell's size field, is the key node of `key`, with nothing but zeros behind its name. */
  predicate NkIs(p: Bytes, key: KeySpec, isRoot: bool, l: Links) {
    && 76 + |key.name| <= |p| && p[0] == 'n' as int && p[1] == 'k' as int
    && Rd16(p, 2) == (if isRoot then 0x24 else 0x20) && Rd64(p, 4) == key.lastWritten && Rd32(p, 12) == 0
    && Rd32(p, 16) == l.parent && Rd32(p, 20) == l.nSub && Rd32(p, 24) == 0 && Rd32(p, 28) == l.subList
    && Rd32(p, 32) == 0xffff_ffff && Rd32(p, 36) == l.nValues && Rd32(p, 40) == l.valueList
    && Rd32(p, 44) == 0xffff_ffff && Rd32(p, 48) == 0xffff_ffff
    && Rd32(p, 52) == 0 && Rd32(p, 56) == 0 && Rd32(p, 60) == 0 && Rd32(p, 64) == 0 && Rd32(p, 68) == 0
    && Rd16(p, 72) == |key.name| % 0x1_0000 && Rd16(p, 74) == 0
    && p[76..76 + |key.name|] == key.name && AllZero(p[76 + |key.name|..])
  }

  predicate AllZero(b: Bytes) {
    forall i :: 0 <= i < |b| ==> b[i] == 0
  }

  /** The value record at `vkOff`: up to four data bytes inline, zero padded; more in a cell before it. */
  predicate VkIs(h: Bytes, p: Bytes, v: ValueSpec, vkOff: nat, live: bool) {
    && 20 + |v.name| <= |p| && p[0] == 'v' as int && p[1] == 'k' as int
    && Rd16(p, 2) == |v.name| % 0x1_0000 && Rd32(p, 12) == v.typeRaw
    && Rd16(p, 16) == (if v.name == [] then 0 else 1) && Rd16(p, 18) == 0
    && p[20..20 + |v.name|] == v.name && AllZero(p[20 + |v.name|..])
    && (|v.data| > 4 ==>
          Rd32(p, 4) == |v.data| &&
          var at := Rd32(p, 8);
          at < vkOff && CellHas(h, at, live, v.data))
    && (0 < |v.data| <= 4 ==>
          Rd32(p, 4) == 0x8000_0000 + |v.data| && p[8..12] == v.data + Zeros(4 - |v.data|))
    && (v.data == [] ==> Rd32(p, 4) == 0 && Rd32(p, 8) == if live then 0xffff_ffff else 0)
  }

  /** A cell of that state with exactly that payload and nothing but zeros behind it. */
  predicate CellHas(h: Bytes, off: nat, live: bool, payload: Bytes) {
    var cell := ReadCell(h, off, live);
    cell.Some? && payload <= cell.value && AllZero(cell.value[|payload|..])
  }

  predicate ValueLinked(h: Bytes, v: ValueSpec, vkOff: nat, live: bool) {
    ReadCell(h, vkOff, live).Some? && VkIs(h, ReadCell(h, vkOff, live).value, v, vkOff, live)
  }

  /** The value list names every value's record, between `from` and itself. */
  predicate ValuesLinked(h: Bytes, vs: seq<ValueSpec>, from: nat, listOff: nat, live: bool) {
    var list := ReadCell(h, listOff, live);
    list.Some? && 4 * |vs| <= |list.value| &&
    forall i {:trigger vs[i]} :: 0 <= i < |vs| ==>
      from <= Rd32(list.value, 4 * i) < listOff && ValueLinked(h, vs[i], Rd32(list.value, 4 * i), live)
  }

  /** Where the `i`-th of some siblings laid out from `from` has its `nk`. */
  function ChildOff(keys: seq<KeySpec>, i: nat, from: nat): (r: nat)
    requires i < |keys|
    ensures r >= from
  {
    if i == 0 then from else ChildOff(keys[1..], i - 1, from + KeySize(keys[0]))
  }

  /** The first four bytes of a name, zero padded, stand at `at`. */
  predicate HintIs(p: Bytes, at: nat, name: Bytes)
    requires at + 4 <= |p|
  {
    && p[at] == (if |name| > 0 then name[0] else 0) && p[at + 1] == (if |name| > 1 then name[1] else 0)
    && p[at + 2] == (if |name| > 2 then name[2] else 0) && p[at + 3] == (if |name| > 3 then name[3] else 0)
  }

  /** Entry `i` of the list: the child's offset, and the first four bytes of its name, zero padded. */
  predicate EntryIs(p: Bytes, i: nat, name: Bytes, childOff: nat)
    requires 12 + 8 * i <= |p|
  {
    Rd32(p, 4 + 8 * i) == childOff && HintIs(p, 8 + 8 * i, name)
  }

  /** The `lf` list: the number of children, as far as it fits, and an entry for each, all behind the key. */
  predicate ChildrenListed(h: Bytes, keys: seq<KeySpec>, off: nat, from: nat, leafOff: nat) {
    var list := ReadCell(h, leafOff, true);
    list.Some? && 4 + 8 * |keys| <= |list.value|
    && list.value[0] == 'l' as int && list.value[1] == 'f' as int && Rd16(list.value, 2) == |keys| % 0x1_0000 &&
    forall i {:trigger keys[i]} :: 0 <= i < |keys| ==>
      EntryIs(list.value, i, keys[i].name, ChildOff(keys, i, from)) && off < ChildOff(keys, i, from) < leafOff
  }

  /**
   The key's record lies behind its parent and points back to it; its lists lie behind the key and
   name its values and children; and the same holds of every child, with this key as the parent.
   */
  predicate TreeLinked(h: Bytes, key: KeySpec, off: nat, parent: nat, isRoot: bool)
    decreases key
  {
    var cell := ReadCell(h, off, true);
    var links := Links(parent, |key.subkeys|, if key.subkeys == [] then 0 else LfOff(key, off),
                       |key.values|, if key.values == [] then 0xffff_ffff else ListOff(key, off));
    && parent < off && cell.Some? && NkIs(cell.value, key, isRoot, links)
    && (key.values != [] ==> ValuesLinked(h, key.values, off + 1, ListOff(key, off), true))
    && (key.subkeys != [] ==> ChildrenListed(h, key.subkeys, off, SubOff(key, off), LfOff(key, off)))
    && (forall i :: 0 <= i < |key.subkeys| ==>
          TreeLinked(h, key.subkeys[i], ChildOff(key.subkeys, i, SubOff(key, off)), off, false))
  }

  /** An orphan from `off` on: free cells, its record last, without parent and subkeys. */
  predicate OrphanLinked(h: Bytes, key: KeySpec, off: nat) {
    var nkOff, listOff := OrphanNkOff(key, off), off + ValuesSize(key.values);
    var cell := ReadCell(h, nkOff, false);
    && cell.Some?
    && NkIs(cell.value, key, false,
            Links(0, 0, 0, |key.values|, if key.values == [] then 0xffff_ffff else listOff))
    && (key.values != [] ==> listOff < nkOff && ValuesLinked(h, key.values, off, listOff, false))
  }

  // ---------- cells and records as written ----------

  lemma CellIsHeld(h: Bytes, off: nat, payload: Bytes, live: bool)
    requires At(h, off, CellWithSign(payload, live))
    requires Aligned(off) && off + CellSize(|payload|) < 0x8000_0000
    ensures CellHas(h, off, live, payload)
  {
    hide Aligned, CellWithSign, ReadCell, CellSize;
    CellBack(h, off, payload, live);
  }

  lemma NkIsWritten(p: Bytes, key: KeySpec, l: NkLinks)
    requires NkPayload(key, l) <= p && AllZero(p[76 + |key.name|..]) && LinksFit(l) && l.flags in {0x20, 0x24}
    ensures NkIs(p, key, l.flags == 0x24, Links(l.parent, l.nSub, l.subList, l.nValues, Stored(l.valueList)))
  {
    hide NkFixed, Rd16, Rd32, Rd64, AllZero;
    NkPrefix(key, l, p);
    NkLow(key, l, p);
    NkHigh(key, l, p);
    assert p[..2][0] == p[0] && p[..2][1] == p[1];
  }

  lemma VkIsWritten(h: Bytes, p: Bytes, v: ValueSpec, off: nat, live: bool)
    requires |v.data| < 0x8000_0000 && off < TWO32
    requires VkPayload(v, Dsr(v), Field(v, off, live)) <= p && AllZero(p[20 + |v.name|..])
    requires |v.data| > 4 ==> CellHas(h, off, live, v.data)
    ensures VkIs(h, p, v, VkOff(v, off), live)
  {
    hide VkFixed, LE32, Rd16, Rd32, AllZero, CellHas, CutName, Inline;
    var dsr, field := Dsr(v), Field(v, off, live);
    VkBack(v, dsr, field, p);
    VkNameAt(v, dsr, field, p);
    CutSlice(p, 20, v.name);
    assert p[..2][0] == p[0] && p[..2][1] == p[1];
    if 0 < |v.data| <= 4 {
      InlineIs(v.data);
    } else if |v.data| > 4 {
      DataBehind(v);
    } else if !live {
      InlineNone();
    }
  }

  lemma DataBehind(v: ValueSpec)
    requires |v.data| > 4
    ensures DataSize(v) > 0
  {
  }

  lemma InlineIs(data: Bytes)
    requires |data| <= 4
    ensures LE32(Inline(data)) == data + Zeros(4 - |data|)
  {
    LE32Inverse(data + Zeros(4 - |data|));
    assert data[..|data|] == data;
  }

  lemma InlineNone()
    ensures Inline([]) == 0
  {
  }

  lemma VkNameAt(v: ValueSpec, dsr: u32, dataOff: u32, p: Bytes)
    requires VkPayload(v, dsr, dataOff) <= p
    ensures p[20..20 + |v.name|] == v.name && p[8..12] == LE32(dataOff)
  {
    hide VkFixed, LE16, LE32;
    var f := VkFixed(v, dsr, dataOff);
    VkFields(v, dsr, dataOff);
    assert p[..|f| + |v.name|] == f + v.name;
    assert p[8..12] == p[..|f| + |v.name|][8..12] == f[8..12];
  }

  // ---------- values ----------

  lemma {:induction false} ValueIsLinked(h: Bytes, v: ValueSpec, off: nat, live: bool)
    requires Holds(h, ValueCells(v, off, live)) && Aligned(off) && off + ValueSize(v) < 0x8000_0000
    ensures ValueLinked(h, v, VkOff(v, off), live)
  {
    hide Aligned, At, CellWithSign, VkPayload, ReadCell, CellSize, AllZero, VkIs;
    DataBounded(v, off);
    var dsr, field := Dsr(v), Field(v, off, live);
    ValueParts(h, v, off, live);
    DataAligned(v);
    SumAligned(off, DataSize(v));
    CellIsHeld(h, VkOff(v, off), VkPayload(v, dsr, field), live);
    if |v.data| > 4 {
      var data := Cell(off, CellWithSign(v.data, live));
      assert data == ValueCells(v, off, live)[0] && data in ValueCells(v, off, live);
      CellIsHeld(h, off, v.data, live);
    }
    VkIsWritten(h, ReadCell(h, VkOff(v, off), live).value, v, off, live);
  }

  lemma {:induction false} ListedValues(h: Bytes, vs: seq<ValueSpec>, off: nat, list: Bytes, live: bool, i: nat)
    requires Holds(h, ValuesCells(vs, off, live)) && Aligned(off) && off + ValuesSize(vs) < 0x8000_0000
    requires ListPayload(VkOffsets(vs, off)) <= list && i < |vs|
    ensures off <= Rd32(list, 4 * i) < off + ValuesSize(vs) && ValueLinked(h, vs[i], Rd32(list, 4 * i), live)
  {
    hide Aligned, Holds, ValueCells, ValueSize, VkOff, ListPayload, Rd32, ValueLinked;
    var v, rest, mid := vs[0], vs[1..], off + ValueSize(vs[0]);
    var offs := VkOffsets(vs, off);
    ValueSizeAligned(v);
    SumAligned(off, ValueSize(v));
    HoldsConcat(h, ValueCells(v, off, live), ValuesCells(rest, mid, live));
    VkInside(v, off);
    assert offs[0] == VkOff(v, off) && offs[1..] == VkOffsets(rest, mid);
    ListHead(offs, list);
    if i == 0 {
      ValueIsLinked(h, v, off, live);
    } else {
      ListedValues(h, rest, mid, list[4..], live, i - 1);
      SameWord(list[4..], 4 * (i - 1), list, 4 * i);
    }
  }

  lemma {:induction false} ListHeld(h: Bytes, vs: seq<ValueSpec>, from: nat, live: bool)
    requires vs != [] && Aligned(from) && from + ValuesSize(vs) + ListSize(|vs|) < 0x8000_0000
    requires Holds(h, ListCells(vs, from, from + ValuesSize(vs), live))
    ensures var list := ReadCell(h, from + ValuesSize(vs), live);
      list.Some? && ListPayload(VkOffsets(vs, from)) <= list.value && 4 * |vs| <= |list.value|
  {
    hide Aligned, At, CellWithSign, ReadCell, ListPayload, ValuesSize, CellSize, VkOffsets;
    var listOff := from + ValuesSize(vs);
    var payload := ListPayload(VkOffsets(vs, from));
    var cell := Cell(listOff, CellWithSign(payload, live));
    assert ListCells(vs, from, listOff, live) == [cell];
    HoldsOne(h, cell);
    SizesAligned(vs);
    SumAligned(from, ValuesSize(vs));
    CellBack(h, listOff, payload, live);
  }

  lemma {:induction false} ValuesAreLinked(h: Bytes, vs: seq<ValueSpec>, from: nat, live: bool)
    requires vs != [] && Aligned(from) && from + ValuesSize(vs) + ListSize(|vs|) < 0x8000_0000
    requires Holds(h, ValuesCells(vs, from, live)) && Holds(h, ListCells(vs, from, from + ValuesSize(vs), live))
    ensures ValuesLinked(h, vs, from, from + ValuesSize(vs), live)
  {
    hide Aligned, Holds, ReadCell, ListPayload, VkOffsets, ValuesCells, ListCells, ValuesSize, ValueLinked, Rd32;
    var listOff := from + ValuesSize(vs);
    ListHeld(h, vs, from, live);
    var list := ReadCell(h, listOff, live).value;
    forall i | 0 <= i < |vs|
      ensures from <= Rd32(list, 4 * i) < listOff && ValueLinked(h, vs[i], Rd32(list, 4 * i), live)
    {
      ListedValues(h, vs, from, list, live, i);
    }
  }

  // ---------- children ----------

  lemma HintAt(p: Bytes, at: nat, name: Bytes)
    requires at + 4 <= |p| && p[at..at + 4] == Hint(name)
    ensures HintIs(p, at, name)
  {
    var s := p[at..at + 4];
    assert s[0] == p[at] && s[1] == p[at + 1] && s[2] == p[at + 2] && s[3] == p[at + 3];
  }

  lemma SliceOfTail(p: Bytes, at: nat, n: nat)
    requires 4 + at + n <= |p|
    ensures p[4..][at..at + n] == p[4 + at..4 + at + n]
  {
  }

  lemma {:induction false} ListedChild(keys: seq<KeySpec>, from: nat, entries: Bytes, i: nat)
    requires LfEntries(keys, from) <= entries && i < |keys| && from + KeysSize(keys) < 0x8000_0000
    ensures ChildOff(keys, i, from) < from + KeysSize(keys)
    ensures Rd32(entries, 8 * i) == ChildOff(keys, i, from) && entries[8 * i + 4..8 * i + 8] == Hint(keys[i].name)
  {
    hide Aligned, KeySize, Rd32, LfEntries, Hint;
    KeySizeAligned(keys[0]);
    EntryHead(keys, from, entries);
    if i > 0 {
      ListedChild(keys[1..], from + KeySize(keys[0]), entries[8..], i - 1);
      SameWord(entries[8..], 8 * (i - 1), entries, 8 * i);
      assert entries[8..][8 * (i - 1) + 4..8 * (i - 1) + 8] == entries[8 * i + 4..8 * i + 8];
    }
  }

  lemma {:induction false} EntryIsWritten(p: Bytes, keys: seq<KeySpec>, from: nat, i: nat)
    requires |p| >= 4 && LfEntries(keys, from) <= p[4..] && i < |keys| && from + KeysSize(keys) < 0x8000_0000
    ensures 12 + 8 * i <= |p| && EntryIs(p, i, keys[i].name, ChildOff(keys, i, from))
    ensures ChildOff(keys, i, from) < from + KeysSize(keys)
  {
    hide LfEntries, KeysSize, ChildOff, Rd32, Hint, HintIs;
    assert 8 * |keys| <= |p| - 4;
    ListedChild(keys, from, p[4..], i);
    SliceOfTail(p, 8 * i, 4);
    SliceOfTail(p, 8 * i + 4, 4);
    SameWord(p[4..], 8 * i, p, 4 + 8 * i);
    HintAt(p, 8 + 8 * i, keys[i].name);
  }

  lemma {:induction false} LeafHeld(h: Bytes, keys: seq<KeySpec>, from: nat, leafOff: nat)
    requires keys != [] && Aligned(leafOff) && leafOff + LfSize(|keys|) < 0x8000_0000
    requires Holds(h, LfCells(keys, from, leafOff))
    ensures var list := ReadCell(h, leafOff, true);
      list.Some? && 4 + 8 * |keys| <= |list.value| && LfPayload(keys, from) <= list.value
  {
    hide Aligned, At, CellWithSign, ReadCell, LfPayload;
    var payload := LfPayload(keys, from);
    var cell := Cell(leafOff, CellWithSign(payload, true));
    assert LfCells(keys, from, leafOff) == [cell];
    HoldsOne(h, cell);
    CellBack(h, leafOff, payload, true);
  }

  lemma {:induction false} ChildrenAreListed(h: Bytes, keys: seq<KeySpec>, off: nat, from: nat, leafOff: nat)
    requires keys != [] && off < from && Aligned(leafOff) && leafOff == from + KeysSize(keys)
    requires leafOff + LfSize(|keys|) < 0x8000_0000 && Holds(h, LfCells(keys, from, leafOff))
    ensures ChildrenListed(h, keys, off, from, leafOff)
  {
    hide Aligned, Holds, ReadCell, LfPayload, LfEntries, LfCells, KeysSize, ChildOff, EntryIs, Rd16;
    LeafHeld(h, keys, from, leafOff);
    var list := ReadCell(h, leafOff, true).value;
    LeafTail(keys, from, list);
    forall i | 0 <= i < |keys|
      ensures EntryIs(list, i, keys[i].name, ChildOff(keys, i, from)) && off < ChildOff(keys, i, from) < leafOff
    {
      EntryIsWritten(list, keys, from, i);
    }
  }

  lemma LeafTail(keys: seq<KeySpec>, from: nat, p: Bytes)
    requires LfPayload(keys, from) <= p
    ensures |p| >= 4 && LfEntries(keys, from) <= p[4..]
    ensures p[0] == 'l' as int && p[1] == 'f' as int && Rd16(p, 2) == |keys| % 0x1_0000
  {
    hide LE16, Rd16, LfEntries;
    var whole := LfPayload(keys, from);
    assert p[..|whole|] == whole;
    assert p[4..][..|whole| - 4] == whole[4..] == LfEntries(keys, from);
    assert p[0] == p[..|whole|][0] && p[1] == p[..|whole|][1];
    assert p[2..4] == whole[2..4] == LE16(|keys|);
    Wrapped16(|keys|);
    AtHere(p, 2, LE16(|keys| % 0x1_0000));
    Read16(p, 2, |keys| % 0x1_0000);
  }

  // ---------- trees ----------

  lemma {:induction false} TreeIsLinked(h: Bytes, key: KeySpec, off: nat, parent: nat, isRoot: bool)
    requires Holds(h, KeyCells(key, off, parent, isRoot))
    requires Aligned(off) && off + KeySize(key) < 0x8000_0000 && parent < off
    ensures TreeLinked(h, key, off, parent, isRoot)
    decreases key, 1
  {
    hide Aligned, At, Holds, Offs, ReadCell, KeyCells, ListCells, ValuesCells, CellWithSign, NkPayload, ValuesSize,
         ListSize, KeysSize, LfSize, NkSize, LfCells, KeysCells, KeySize, ChildOff, ValuesLinked, ChildrenListed, NkIs,
         AllZero;
    KeyParts(h, key, off, parent, isRoot);
    KeySizes(key, off, parent, isRoot);
    NodeIsHeld(h, key, KeyLinks(key, off, parent, isRoot), off, true);
    NkAligned(key);
    SumAligned(off, NkSize(key));
    SubOffAligned(key, off);
    if key.values != [] {
      ValuesAreLinked(h, key.values, off + NkSize(key), true);
      ListLinkedFrom(h, key.values, off + 1, off + NkSize(key), ListOff(key, off));
    }
    if key.subkeys != [] {
      ChildrenAreListed(h, key.subkeys, off, SubOff(key, off), LfOff(key, off));
    }
    forall i | 0 <= i < |key.subkeys|
      ensures TreeLinked(h, key.subkeys[i], ChildOff(key.subkeys, i, SubOff(key, off)), off, false)
    {
      SubtreeIsLinked(h, key.subkeys, SubOff(key, off), off, i);
    }
  }

  lemma ListLinkedFrom(h: Bytes, vs: seq<ValueSpec>, lower: nat, from: nat, listOff: nat)
    requires lower <= from && ValuesLinked(h, vs, from, listOff, true)
    ensures ValuesLinked(h, vs, lower, listOff, true)
  {
    hide ValueLinked, ReadCell, Rd32;
    var list := ReadCell(h, listOff, true).value;
    forall i | 0 <= i < |vs|
      ensures lower <= Rd32(list, 4 * i) < listOff && ValueLinked(h, vs[i], Rd32(list, 4 * i), true)
    {
      assert vs[i] == vs[i];
    }
  }

  lemma NodeIsHeld(h: Bytes, key: KeySpec, l: NkLinks, off: nat, live: bool)
    requires At(h, off, CellWithSign(NkPayload(key, l), live)) && l.flags in {0x20, 0x24}
    requires Aligned(off) && off + NkSize(key) < 0x8000_0000 && LinksFit(l)
    ensures ReadCell(h, off, live).Some?
    ensures NkIs(ReadCell(h, off, live).value, key, l.flags == 0x24,
                 Links(l.parent, l.nSub, l.subList, l.nValues, Stored(l.valueList)))
  {
    hide Aligned, CellWithSign, ReadCell, NkPayload, NkIs, AllZero;
    CellIsHeld(h, off, NkPayload(key, l), live);
    NkIsWritten(ReadCell(h, off, live).value, key, l);
  }

  lemma {:induction false} SubtreeIsLinked(h: Bytes, keys: seq<KeySpec>, from: nat, parent: nat, i: nat)
    requires Holds(h, KeysCells(keys, from, parent)) && i < |keys|
    requires Aligned(from) && from + KeysSize(keys) < 0x8000_0000 && parent < from
    ensures TreeLinked(h, keys[i], ChildOff(keys, i, from), parent, false)
    decreases keys, 0
  {
    hide Aligned, Holds, KeyCells, KeysCells, KeySize, TreeLinked;
    var key, mid := keys[0], from + KeySize(keys[0]);
    KeysHead(keys, from, parent);
    KeySizeAligned(key);
    SumAligned(from, KeySize(key));
    HoldsConcat(h, KeyCells(key, from, parent, false), KeysCells(keys[1..], mid, parent));
    if i == 0 {
      TreeIsLinked(h, key, from, parent, false);
    } else {
      SubtreeIsLinked(h, keys[1..], mid, parent, i - 1);
    }
  }

  lemma {:induction false} OrphanIsLinked(h: Bytes, key: KeySpec, off: nat)
    requires Holds(h, OrphanCells(key, off)) && Aligned(off) && off + OrphanSize(key) < 0x8000_0000
    ensures OrphanLinked(h, key, off)
  {
    hide Aligned, At, Holds, Offs, ReadCell, ListCells, ValuesCells, CellWithSign, NkPayload, OrphanCells, ValuesSize,
         NkSize, NkIs, ValuesLinked, CellSize;
    OrphanParts(h, key, off);
    OrphanAligned(key);
    NkOffAligned(key, off);
    NodeIsHeld(h, key, OrphanLinks(key, off), OrphanNkOff(key, off), false);
    if key.values != [] {
      ValuesAreLinked(h, key.values, off, false);
    }
  }

  lemma RootAligned()
    ensures Aligned(ROOT_OFF)
  {
  }

  /**
   In every file the writer builds, field by field: all records of the tree, parents before children,
   each child pointing back, data before values; and those of the orphans.
   */
  lemma WrittenLinks(spec: HiveSpec)
    requires LayoutFits(spec)
    ensures TreeLinked(Hbin(spec), spec.root, 32, 0, true)
    ensures forall i :: 0 <= i < |spec.deletedOrphans| ==>
      OrphanLinked(Hbin(spec), spec.deletedOrphans[i], T.OrphanStart(spec.deletedOrphans, i, OrphansOff(spec)))
  {
    hide KeyCells, OrphanCells, OrphansCells, Hbin, KeySize, Holds, TreeLinked, OrphanLinked, OrphanSize, Aligned;
    T.PartsHeld(spec);
    RootAligned();
    KeySizeAligned(spec.root);
    SumAligned(ROOT_OFF, KeySize(spec.root));
    TreeIsLinked(Hbin(spec), spec.root, ROOT_OFF, 0, true);
    forall i | 0 <= i < |spec.deletedOrphans|
      ensures OrphanLinked(Hbin(spec), spec.deletedOrphans[i],
                           T.OrphanStart(spec.deletedOrphans, i, OrphansOff(spec)))
    {
      T.OrphanPart(Hbin(spec), spec.deletedOrphans, i, OrphansOff(spec));
      OrphanIsLinked(Hbin(spec), spec.deletedOrphans[i], T.OrphanStart(spec.deletedOrphans, i, OrphansOff(spec)));
    }
  }

  // ---------- the file around them ----------

  /** The header, field by field at its offset; `size` is that of the bins. */
  predicate HeaderIs(b: Bytes, spec: HiveSpec, size: nat)
    requires |b| >= 4096
  {
    && b[0] == 'r' as int && b[1] == 'e' as int && b[2] == 'g' as int && b[3] == 'f' as int
    && Rd32(b, 4) == spec.primarySeq && Rd32(b, 8) == spec.secondarySeq && Rd64(b, 12) == spec.root.lastWritten
    && Rd32(b, 20) == 1 && Rd32(b, 24) == spec.minor && Rd32(b, 28) == 0 && Rd32(b, 32) == 1
    && Rd32(b, 36) == 32 && Rd32(b, 40) == size && Rd32(b, 44) == 1
    && AllZero(b[112..508]) && AllZero(b[512..4096])
  }

  /** At most 32 units of the file name, zeros up to there. */
  predicate NameIs(b: Bytes, filename: string)
    requires |b| >= 4096
  {
    forall k :: 0 <= k < 32 ==> NameUnitIs(b, filename, k)
  }

  predicate NameUnitIs(b: Bytes, filename: string, k: nat)
    requires |b| >= 4096 && k < 32
  {
    Rd16(b, 48 + 2 * k) == if k < |Encode(filename)| then Encode(filename)[k] else 0
  }

  /** The stored checksum is the computed one; if so requested, with its low eight bits turned over. */
  predicate ChecksumIs(b: Bytes, corrupt: bool)
    requires |b| >= 4096
  {
    BB.Checksum(b).Some? && forall k {:trigger BitAt(Rd32(b, 508), k)} :: 0 <= k < 32 ==>
      var bit := BitAt(BB.Checksum(b).value, k);
      BitAt(Rd32(b, 508), k) == if corrupt && k < 8 then 1 - bit else bit
  }

  /** The bin's header, and from `used` on a free cell of zeros up to its end. */
  predicate BinIs(h: Bytes, used: nat)
    requires 32 <= used <= |h|
  {
    && h[0] == 'h' as int && h[1] == 'b' as int && h[2] == 'i' as int && h[3] == 'n' as int
    && Rd32(h, 4) == 0 && Rd32(h, 8) == |h| && AllZero(h[12..32])
    && (used < |h| ==> used + 8 <= |h| && Rd32(h, used) == |h| - used && AllZero(h[used + 4..]))
  }

  lemma ZerosAt(h: Bytes, off: nat, n: nat)
    requires At(h, off, Zeros(n))
    ensures AllZero(h[off..off + n])
  {
  }

  lemma HeaderIsWritten(spec: HiveSpec)
    requires LayoutFits(spec)
    ensures |Hive(spec)| >= 4096 && HeaderIs(Hive(spec), spec, BinSize(spec))
  {
    hide LE32, LE64, Rd32, Rd64, HeaderFields, NameField, StoredChecksum, UsedEnd, Hive, Hbin, AllZero, RoundBin, At;
    var b, size := Hive(spec), BinSize(spec);
    var f := HeaderFields(spec, size);
    T.HeaderAt(spec, size);
    T.FileAt(spec);
    RegfAt(b, spec, size);
    AtSub(b, 0, f, 4, LE32(spec.primarySeq));         Read32(b, 4, spec.primarySeq);
    AtSub(b, 0, f, 8, LE32(spec.secondarySeq));       Read32(b, 8, spec.secondarySeq);
    AtSub(b, 0, f, 12, LE64(spec.root.lastWritten));  Read64(b, 12, spec.root.lastWritten);
    AtSub(b, 0, f, 20, LE32(1));                      Read32(b, 20, 1);
    AtSub(b, 0, f, 24, LE32(spec.minor));             Read32(b, 24, spec.minor);
    AtSub(b, 0, f, 28, LE32(0));                      Read32(b, 28, 0);
    AtSub(b, 0, f, 32, LE32(1));                      Read32(b, 32, 1);
    AtSub(b, 0, f, 36, LE32(ROOT_OFF));               Read32(b, 36, ROOT_OFF);
    AtSub(b, 0, f, 40, LE32(size));                   Read32(b, 40, size);
    AtSub(b, 0, f, 44, LE32(1));                      Read32(b, 44, 1);
    ZerosAt(b, 112, 396);
    ZerosAt(b, 512, 3584);
  }

  lemma RegfAt(b: Bytes, spec: HiveSpec, size: nat)
    requires At(b, 0, HeaderFields(spec, size)) && At(HeaderFields(spec, size), 0, BB.REGF_SIGNATURE)
    ensures |b| >= 4 && b[0] == 'r' as int && b[1] == 'e' as int && b[2] == 'g' as int && b[3] == 'f' as int
  {
    hide HeaderFields;
    AtSub(b, 0, HeaderFields(spec, size), 0, BB.REGF_SIGNATURE);
    assert b[0..4] == BB.REGF_SIGNATURE;
    assert b[0..4][0] == b[0] && b[0..4][1] == b[1] && b[0..4][2] == b[2] && b[0..4][3] == b[3];
  }

  lemma NameIsWritten(spec: HiveSpec)
    ensures |Hive(spec)| >= 4096 && NameIs(Hive(spec), spec.filename)
  {
    hide HeaderFields, NameField, StoredChecksum, Hive, Hbin, BinSize, Encode, UnitBytes, UnitsOf, Rd16;
    var b, units := Hive(spec), T.NameUnitsOf(spec.filename);
    T.FileAt(spec);
    T.NameBytes(spec.filename);
    assert b[48..112] == UnitBytes(units);
    UnitsOfBytes(units);
    forall k | 0 <= k < 32
      ensures NameUnitIs(b, spec.filename, k)
    {
      UnitAt(b[48..112], k);
      UnitOfSlice(b, 48, 112, k);
    }
  }

  lemma UnitOfSlice(b: Bytes, from: nat, to: nat, k: nat)
    requires from <= to <= |b| && 2 * k + 1 < to - from
    ensures var s := b[from..to]; var lo: int, hi: int := s[2 * k], s[2 * k + 1];
      Rd16(b, from + 2 * k) == lo + 0x100 * hi
  {
  }

  lemma ChecksumIsWritten(spec: HiveSpec)
    ensures |Hive(spec)| >= 4096 && ChecksumIs(Hive(spec), spec.corruptChecksum)
  {
    hide HeaderFields, NameField, Covered, Hive, Hbin, BinSize, Rd32, LE32, BitAt, BB.Words, XorAll, BB.Adjust, XorWord;
    var b := Hive(spec);
    T.FileAt(spec);
    BB.ChecksumPrefix(b, Covered(spec));
    assert Covered(spec)[..BB.CHECKSUM_OFFSET] == Covered(spec);
    Read32(b, 508, StoredChecksum(spec));
    forall k | 0 <= k < 32
      ensures var bit := BitAt(BB.Checksum(b).value, k);
        BitAt(Rd32(b, 508), k) == if spec.corruptChecksum && k < 8 then 1 - bit else bit
    {
      LowBitsTurned(BB.Checksum(b).value, k);
    }
  }

  lemma BinIsWritten(spec: HiveSpec)
    requires LayoutFits(spec)
    ensures 32 <= UsedEnd(spec) <= |Hbin(spec)| == BinSize(spec) && BinIs(Hbin(spec), UsedEnd(spec))
  {
    hide KeyCells, OrphansCells, KeySize, OrphansSize, Holds, LE32, Rd32, RoundBin, Aligned, AllCells, AllZero, Image;
    var h, used, size := Hbin(spec), UsedEnd(spec), BinSize(spec);
    T.PartsHeld(spec);
    UsedAligned(spec);
    assert h == HBIN_SIGNATURE + LE32(0) + LE32(size) + Zeros(20) + Image(AllCells(spec));
    assert h[4..8] == LE32(0) && h[8..12] == LE32(size) && h[12..32] == Zeros(20);
    Read32(h, 4, 0);
    Read32(h, 8, size);
    ZerosAt(h, 12, 20);
    if used < size {
      TrailerIs(h, used, size);
    }
  }

  lemma TrailerIs(h: Bytes, used: nat, size: nat)
    requires used + 8 <= size == |h| && size < TWO32 && Holds(h, Trailer(used, size))
    ensures Rd32(h, used) == size - used && AllZero(h[used + 4..])
  {
    hide LE32, Rd32;
    var c := Trailer(used, size)[0];
    assert c in Trailer(used, size);
    AtConcat(h, used, LE32(size - used), Zeros(size - used - 4));
    Read32(h, used, size - used);
    ZerosAt(h, used + 4, size - used - 4);
    assert h[used + 4..used + 4 + (size - used - 4)] == h[used + 4..];
  }

  /** Everything around the records: sizes, header, name, checksum, bin header and trailing free cell. */
  lemma WrittenFile(spec: HiveSpec)
    requires LayoutFits(spec)
    ensures var b := Hive(spec); var size := BinSize(spec); var used := UsedEnd(spec);
      && |b| == 4096 + size && b[4096..] == Hbin(spec)
      && size % 4096 == 0 && size >= 8192 && used <= size && (size == 8192 || size < used + 4096)
      && HeaderIs(b, spec, size) && NameIs(b, spec.filename) && ChecksumIs(b, spec.corruptChecksum)
      && BinIs(Hbin(spec), used)
  {
    hide KeySize, OrphansSize, HeaderIs, NameIs, ChecksumIs, BinIs, Hbin, Base, UsedEnd;
    HeaderIsWritten(spec);
    NameIsWritten(spec);
    ChecksumIsWritten(spec);
    BinIsWritten(spec);
    assert Hive(spec)[4096..] == Hbin(spec);
  }
}
