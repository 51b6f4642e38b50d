/**
 The cells a hive is made of: payloads, cell framing, and for every key, value and orphan the
 list of cells it occupies. Offsets are relative to the end of the base block. These are the
 specification functions the writer in HiveGen is proved against.
 */
module HiveCells {
  import opened LittleEndian

  const FIRST_CELL_REL: nat := 32
  const KEY_COMP_NAME: u16 := 0x0020
  const KEY_HIVE_ENTRY: u16 := 0x0004
  const VALUE_COMP_NAME_ASCII: u16 := 0x0001
  const DATA_IS_RESIDENT: u32 := 0x8000_0000
  const NO_OFFSET: u32 := 0xffff_ffff

  /** A registry value to synthesize; names are byte strings. */
  datatype ValueSpec = ValueSpec(name: Bytes, typeRaw: u32, data: Bytes)

  /** A registry key to synthesize, with its values and subkeys. */
  datatype KeySpec = KeySpec(name: Bytes, lastWritten: u64, values: seq<ValueSpec>, subkeys: seq<KeySpec>)

  /** Bytes laid out at a relative offset. */
  datatype Cell = Cell(off: nat, bytes: Bytes)

  // ---------- framing ----------

  predicate Aligned(n: int) {
    n % 8 == 0
  }

  lemma SumAligned(a: nat, b: nat)
    requires Aligned(a) && Aligned(b)
    ensures Aligned(a + b)
  {
  }

  /** Aligned bounds are equal or leave room for a cell, and their distance is aligned. */
  lemma GapAligned(a: nat, b: nat)
    requires Aligned(a) && Aligned(b) && a <= b
    ensures (a == b || a + 8 <= b) && Aligned(b - a)
  {
  }

  function Pad8(n: nat): (r: nat)
    ensures Aligned(r) && n <= r < n + 8
  {
    (n + 7) / 8 * 8
  }

  function CellSize(payloadLen: nat): (r: nat)
    ensures Aligned(r) && 4 + payloadLen <= r < payloadLen + 12
  {
    Pad8(4 + payloadLen)
  }

  /** Size field (negative when live), payload, zero padding. */
  function CellWithSign(payload: Bytes, live: bool): (r: Bytes)
    ensures |r| == CellSize(|payload|)
  {
    var total: int := Pad8(4 + |payload|);
    LE32(if live then -total else total) + payload + Zeros(total - 4 - |payload|)
  }

  // ---------- payloads ----------

  const NK_FIXED: nat := 76
  const VK_FIXED: nat := 20
  const NK_SIGNATURE: Bytes := [0x6e, 0x6b]
  const VK_SIGNATURE: Bytes := [0x76, 0x6b]
  const LF_SIGNATURE: Bytes := [0x6c, 0x66]

  /** The links an `nk` record carries to the rest of the hive. */
  datatype NkLinks = NkLinks(flags: u16, parent: int, nSub: int, subList: int, nValues: int, valueList: int)

  /** The fixed part of an `nk` payload. */
  function NkFixed(nameLen: nat, lastWritten: u64, l: NkLinks): (r: Bytes)
    ensures |r| == NK_FIXED
  {
    NK_SIGNATURE + LE16(l.flags) + LE64(lastWritten) + LE32(0)
    + (LE32(l.parent) + LE32(l.nSub) + LE32(0) + LE32(l.subList) + LE32(-1))
    + (LE32(l.nValues) + LE32(l.valueList) + LE32(NO_OFFSET) + LE32(-1))
    + (LE32(0) + LE32(0) + LE32(0) + LE32(0) + LE32(0))
    + (LE16(nameLen) + LE16(0))
  }

  function NkPayload(key: KeySpec, l: NkLinks): (r: Bytes)
    ensures |r| == NK_FIXED + |key.name|
  {
    NkFixed(|key.name|, key.lastWritten, l) + key.name
  }

  function VkFixed(v: ValueSpec, dataSizeRaw: int, dataOffset: int): (r: Bytes)
    ensures |r| == VK_FIXED
  {
    VK_SIGNATURE + LE16(|v.name|) + LE32(dataSizeRaw) + LE32(dataOffset) + LE32(v.typeRaw)
    + LE16(if v.name == [] then 0 else VALUE_COMP_NAME_ASCII) + LE16(0)
  }

  function VkPayload(v: ValueSpec, dataSizeRaw: int, dataOffset: int): (r: Bytes)
    ensures |r| == VK_FIXED + |v.name|
  {
    VkFixed(v, dataSizeRaw, dataOffset) + v.name
  }

  /** Concatenated little-endian offsets: the payload of a value-list cell. */
  function ListPayload(offs: seq<nat>): (r: Bytes)
    ensures |r| == 4 * |offs|
  {
    if offs == [] then [] else LE32(offs[0]) + ListPayload(offs[1..])
  }

  /** The first four name bytes, zero padded: the hint of an `lf` entry. */
  function Hint(name: Bytes): (r: Bytes)
    ensures |r| == 4
  {
    var take := Min(|name|, 4);
    name[..take] + Zeros(4 - take)
  }

  function LfEntries(keys: seq<KeySpec>, off: nat): (r: Bytes)
    ensures |r| == 8 * |keys|
  {
    if keys == [] then []
    else LE32(off) + Hint(keys[0].name) + LfEntries(keys[1..], off + KeySize(keys[0]))
  }

  /** The `lf` list of `keys`, laid out one after the other from `off`. */
  function LfPayload(keys: seq<KeySpec>, off: nat): (r: Bytes)
    ensures |r| == 4 + 8 * |keys|
  {
    LF_SIGNATURE + LE16(|keys|) + LfEntries(keys, off)
  }

  // ---------- sizes ----------

  function DataSize(v: ValueSpec): nat {
    if |v.data| > 4 then CellSize(|v.data|) else 0
  }

  function VkSize(v: ValueSpec): nat {
    CellSize(VK_FIXED + |v.name|)
  }

  function ValueSize(v: ValueSpec): nat {
    DataSize(v) + VkSize(v)
  }

  function ValuesSize(vs: seq<ValueSpec>): nat {
    if vs == [] then 0 else ValueSize(vs[0]) + ValuesSize(vs[1..])
  }

  function ListSize(n: nat): nat {
    if n == 0 then 0 else CellSize(4 * n)
  }

  function LfSize(n: nat): nat {
    if n == 0 then 0 else CellSize(4 + 8 * n)
  }

  function NkSize(key: KeySpec): nat {
    CellSize(NK_FIXED + |key.name|)
  }

  function KeySize(key: KeySpec): nat
    decreases key, 1
  {
    NkSize(key) + ValuesSize(key.values) + ListSize(|key.values|) + KeysSize(key.subkeys) + LfSize(|key.subkeys|)
  }

  function KeysSize(keys: seq<KeySpec>): nat
    decreases keys, 0
  {
    if keys == [] then 0 else KeySize(keys[0]) + KeysSize(keys[1..])
  }

  // ---------- where things go ----------

  function ListOff(key: KeySpec, off: nat): nat {
    off + NkSize(key) + ValuesSize(key.values)
  }

  function SubOff(key: KeySpec, off: nat): nat {
    ListOff(key, off) + ListSize(|key.values|)
  }

  function LfOff(key: KeySpec, off: nat): nat {
    SubOff(key, off) + KeysSize(key.subkeys)
  }

  function VkOff(v: ValueSpec, off: nat): nat {
    off + DataSize(v)
  }

  function VkOffsets(vs: seq<ValueSpec>, off: nat): (r: seq<nat>)
    ensures |r| == |vs|
  {
    if vs == [] then [] else [VkOff(vs[0], off)] + VkOffsets(vs[1..], off + ValueSize(vs[0]))
  }

  // ---------- cells, in address order ----------

  /** Up to four bytes, as the `u32` that carries them inline. */
  function Inline(data: Bytes): u32 {
    var take := Min(|data|, 4);
    Rd32(data[..take] + Zeros(4 - take), 0)
  }

  /** `data_size_raw` of a `vk` record: the resident bit marks inline data. */
  function DataSizeRaw(data: Bytes): int {
    if 0 < |data| <= 4 then |data| + DATA_IS_RESIDENT else |data|
  }

  /** The data-offset field. A live empty value stores all ones there, an orphan's stores zero. */
  function DataField(data: Bytes, dataOff: nat, live: bool): int {
    if |data| > 4 then dataOff
    else if data == [] && live then NO_OFFSET
    else Inline(data)
  }

  function VkCell(v: ValueSpec, off: nat, live: bool): Cell {
    Cell(VkOff(v, off),
         CellWithSign(VkPayload(v, DataSizeRaw(v.data), DataField(v.data, off, live)), live))
  }

  function ValueCells(v: ValueSpec, off: nat, live: bool): seq<Cell> {
    (if |v.data| > 4 then [Cell(off, CellWithSign(v.data, live))] else []) + [VkCell(v, off, live)]
  }

  function ValuesCells(vs: seq<ValueSpec>, off: nat, live: bool): seq<Cell> {
    if vs == [] then [] else ValueCells(vs[0], off, live) + ValuesCells(vs[1..], off + ValueSize(vs[0]), live)
  }

  function ListCells(vs: seq<ValueSpec>, off: nat, listOff: nat, live: bool): seq<Cell> {
    if vs == [] then [] else [Cell(listOff, CellWithSign(ListPayload(VkOffsets(vs, off)), live))]
  }

  function LfCells(keys: seq<KeySpec>, off: nat, lfOff: nat): seq<Cell> {
    if keys == [] then [] else [Cell(lfOff, CellWithSign(LfPayload(keys, off), true))]
  }

  function KeyLinks(key: KeySpec, off: nat, parent: nat, isRoot: bool): NkLinks {
    NkLinks(if isRoot then KEY_COMP_NAME + KEY_HIVE_ENTRY else KEY_COMP_NAME,
            parent,
            |key.subkeys|, if key.subkeys == [] then 0 else LfOff(key, off),
            |key.values|, if key.values == [] then -1 else ListOff(key, off))
  }

  function NkCell(key: KeySpec, off: nat, parent: nat, isRoot: bool): Cell {
    Cell(off, CellWithSign(NkPayload(key, KeyLinks(key, off, parent, isRoot)), true))
  }

  function BodyCells(key: KeySpec, off: nat): seq<Cell> {
    ValuesCells(key.values, off + NkSize(key), true) + ListCells(key.values, off + NkSize(key), ListOff(key, off), true)
  }

  /** The cells of a live key's subtree in address order, its own `nk` cell first. */
  function KeyCells(key: KeySpec, off: nat, parent: nat, isRoot: bool): seq<Cell>
    decreases key, 1
  {
    [NkCell(key, off, parent, isRoot)] + BodyCells(key, off)
    + KeysCells(key.subkeys, SubOff(key, off), off) + LfCells(key.subkeys, SubOff(key, off), LfOff(key, off))
  }

  function KeysCells(keys: seq<KeySpec>, off: nat, parent: nat): seq<Cell>
    decreases keys, 0
  {
    if keys == [] then []
    else KeyCells(keys[0], off, parent, false) + KeysCells(keys[1..], off + KeySize(keys[0]), parent)
  }

  /** The same cells in the order the writer places them: every `nk` after its whole subtree. */
  function KeyPlaced(key: KeySpec, off: nat, parent: nat, isRoot: bool): seq<Cell>
    decreases key, 1
  {
    BodyCells(key, off) + KeysPlaced(key.subkeys, SubOff(key, off), off)
    + LfCells(key.subkeys, SubOff(key, off), LfOff(key, off)) + [NkCell(key, off, parent, isRoot)]
  }

  function KeysPlaced(keys: seq<KeySpec>, off: nat, parent: nat): seq<Cell>
    decreases keys, 0
  {
    if keys == [] then []
    else KeyPlaced(keys[0], off, parent, false) + KeysPlaced(keys[1..], off + KeySize(keys[0]), parent)
  }

  // ---------- orphans: free cells, the nk last, subkeys ignored ----------

  function OrphanNkOff(key: KeySpec, off: nat): nat {
    off + ValuesSize(key.values) + ListSize(|key.values|)
  }

  function OrphanLinks(key: KeySpec, off: nat): NkLinks {
    NkLinks(KEY_COMP_NAME, 0, 0, 0, |key.values|,
            if key.values == [] then -1 else off + ValuesSize(key.values))
  }

  function OrphanNkCell(key: KeySpec, off: nat): Cell {
    Cell(OrphanNkOff(key, off), CellWithSign(NkPayload(key, OrphanLinks(key, off)), false))
  }

  function OrphanSize(key: KeySpec): nat {
    ValuesSize(key.values) + ListSize(|key.values|) + NkSize(key)
  }

  function OrphanCells(key: KeySpec, off: nat): seq<Cell> {
    ValuesCells(key.values, off, false) + ListCells(key.values, off, off + ValuesSize(key.values), false)
    + [OrphanNkCell(key, off)]
  }

  function OrphansSize(keys: seq<KeySpec>): nat {
    if keys == [] then 0 else OrphanSize(keys[0]) + OrphansSize(keys[1..])
  }

  function OrphansCells(keys: seq<KeySpec>, off: nat): seq<Cell> {
    if keys == [] then [] else OrphanCells(keys[0], off) + OrphansCells(keys[1..], off + OrphanSize(keys[0]))
  }

  // ---------- what the 16-bit fields allow, and what they leave ----------

  predicate ValuesFit(vs: seq<ValueSpec>) {
    forall v :: v in vs ==> |v.name| < 0x1_0000
  }

  /** Name lengths and subkey counts fit their 16-bit fields. */
  predicate KeyFits(key: KeySpec) {
    && |key.name| < 0x1_0000 && |key.subkeys| < 0x1_0000
    && ValuesFit(key.values)
    && (forall k :: k in key.subkeys ==> KeyFits(k))
  }

  /** What a 16-bit length leaves of a name. */
  function CutName(name: Bytes): (r: Bytes)
    ensures r == name <==> |name| < 0x1_0000
  {
    name[..|name| % 0x1_0000]
  }

  /** Unreadable is a value whose flags say that it has a name and whose name length says that it has none. */
  function ValueAsRead(v: ValueSpec): Option<ValueSpec> {
    if v.name != [] && CutName(v.name) == [] then None else Some(v.(name := CutName(v.name)))
  }

  function ValuesAsRead(vs: seq<ValueSpec>): Option<seq<ValueSpec>> {
    if vs == [] then Some([])
    else
      match (ValueAsRead(vs[0]), ValuesAsRead(vs[1..]))
      case (Some(v), Some(rest)) => Some([v] + rest)
      case _ => None
  }

  /**
   What is left of a key once lengths and counts have passed through their 16-bit fields; nothing
   when a field then contradicts another part of the record.
   */
  function AsRead(key: KeySpec): Option<KeySpec>
    decreases key, 2
  {
    match (ValuesAsRead(key.values), SubkeysAsRead(key.subkeys))
    case (Some(vs), Some(subs)) => Some(KeySpec(CutName(key.name), key.lastWritten, vs, subs))
    case _ => None
  }

  /** The list stores its own count in 16 bits, the key in 32: they must agree. */
  function SubkeysAsRead(keys: seq<KeySpec>): Option<seq<KeySpec>>
    decreases keys, 1
  {
    if |keys| >= 0x1_0000 then None else KeysAsRead(keys)
  }

  /** The list keeps a hint of the whole name, which the cut name must match. */
  function KeysAsRead(keys: seq<KeySpec>): Option<seq<KeySpec>>
    decreases keys, 0
  {
    if keys == [] then Some([])
    else
      match (AsRead(keys[0]), KeysAsRead(keys[1..]))
      case (Some(k), Some(rest)) => if Hint(k.name) != Hint(keys[0].name) then None else Some([k] + rest)
      case _ => None
  }

  lemma {:induction false} ValuesAsReadExact(vs: seq<ValueSpec>)
    ensures ValuesAsRead(vs) == Some(vs) <==> ValuesFit(vs)
  {
    hide CutName;
    if vs != [] {
      var v, rest := vs[0], vs[1..];
      ValuesAsReadExact(rest);
      assert vs == [v] + rest;
      assert ValuesFit(vs) <==> |v.name| < 0x1_0000 && ValuesFit(rest);
      assert ValueAsRead(v) == Some(v) <==> |v.name| < 0x1_0000;
      if ValuesAsRead(vs) == Some(vs) {
        assert ValuesAsRead(vs).value[1..] == ValuesAsRead(rest).value;
      }
    }
  }

  /** Nothing is lost exactly when every length and count fits its field. */
  lemma {:induction false} AsReadExact(key: KeySpec)
    ensures AsRead(key) == Some(key) <==> KeyFits(key)
    decreases key, 1
  {
    hide CutName, ValuesFit, ValuesAsRead;
    ValuesAsReadExact(key.values);
    KeysAsReadExact(key.subkeys);
  }

  lemma {:induction false} KeysAsReadExact(keys: seq<KeySpec>)
    ensures KeysAsRead(keys) == Some(keys) <==> forall k :: k in keys ==> KeyFits(k)
    decreases keys, 0
  {
    hide AsRead, KeyFits, Hint;
    if keys != [] {
      var key, rest := keys[0], keys[1..];
      AsReadExact(key);
      KeysAsReadExact(rest);
      assert keys == [key] + rest;
      assert (forall k :: k in keys ==> KeyFits(k)) <==> KeyFits(key) && forall k :: k in rest ==> KeyFits(k);
      if KeysAsRead(keys) == Some(keys) {
        assert KeysAsRead(keys).value[1..] == KeysAsRead(rest).value;
      }
    }
  }
}
