/**
 A reader for single-bin hives that follows offsets, after the sections "Base block", "Hive bin",
 "Cell", "Fast leaf", "Key node" and "Key value" of the Windows registry file format
 specification. It is total on arbitrary bytes. It refuses a link that leads to a cell of the
 wrong state, a child that does not lie behind its parent or does not point back to it, and a
 data cell that does not lie before its value; it returns what it read and every cell it used.
 */
module HiveReader {
  import opened LittleEndian
  import opened HiveCells
  import opened HiveImage
  import BB = BaseBlock

  datatype Found<+T> = Found(value: T, cells: multiset<nat>)

  /** The payload of a cell, with its padding, if the cell is in the expected state. */
  function ReadCell(h: Bytes, off: nat, live: bool): Option<Bytes> {
    if !Aligned(off) || off + 4 > |h| then None
    else
      var field: int := AsI32(Rd32(h, off));
      var size := if live then -field else field;
      if size < 8 || !Aligned(size) || off + size > |h| then None else Some(h[off + 4..off + size])
  }

  datatype NkRecord = NkRecord(
    flags: u16, lastWritten: u64, accessBits: u32, parent: u32, nSub: u32, nVolatile: u32, subList: u32,
    volatileList: u32, nValues: u32, valueList: u32, security: u32, className: u32, maxSubName: u32,
    maxSubClass: u32, maxValueName: u32, maxValueData: u32, workVar: u32, classNameSize: u16, name: Bytes)

  function ParseNk(p: Bytes): Option<NkRecord> {
    if |p| < 76 || p[..2] != NK_SIGNATURE || 76 + Rd16(p, 72) > |p| then None
    else Some(NkRecord(
      Rd16(p, 2), Rd64(p, 4), Rd32(p, 12), Rd32(p, 16), Rd32(p, 20), Rd32(p, 24), Rd32(p, 28), Rd32(p, 32),
      Rd32(p, 36), Rd32(p, 40), Rd32(p, 44), Rd32(p, 48), Rd32(p, 52), Rd32(p, 56), Rd32(p, 60), Rd32(p, 64),
      Rd32(p, 68), Rd16(p, 74), p[76..76 + Rd16(p, 72)]))
  }

  datatype VkRecord = VkRecord(dataSizeRaw: u32, dataOffset: u32, typeRaw: u32, flags: u16, spare: u16, name: Bytes)

  function ParseVk(p: Bytes): Option<VkRecord> {
    if |p| < 20 || p[..2] != VK_SIGNATURE || 20 + Rd16(p, 2) > |p| then None
    else Some(VkRecord(Rd32(p, 4), Rd32(p, 8), Rd32(p, 12), Rd16(p, 16), Rd16(p, 18), p[20..20 + Rd16(p, 2)]))
  }

  function ReadData(h: Bytes, vkOff: nat, dataSizeRaw: u32, dataOffset: u32, live: bool): Option<Found<Bytes>> {
    if dataSizeRaw >= DATA_IS_RESIDENT then
      var n := dataSizeRaw - DATA_IS_RESIDENT;
      if n > 4 then None else Some(Found(LE32(dataOffset)[..n], multiset{}))
    else if dataSizeRaw == 0 then Some(Found([], multiset{}))
    else if dataOffset >= vkOff then None
    else
      match ReadCell(h, dataOffset, live)
      case None => None
      case Some(body) =>
        if |body| < dataSizeRaw then None else Some(Found(body[..dataSizeRaw], multiset{dataOffset as nat}))
  }

  function ReadValue(h: Bytes, off: nat, live: bool): Option<Found<ValueSpec>> {
    match ReadCell(h, off, live)
    case None => None
    case Some(p) =>
      match ParseVk(p)
      case None => None
      case Some(vk) =>
        if vk.flags != (if vk.name == [] then 0 else VALUE_COMP_NAME_ASCII) then None
        else
          match ReadData(h, off, vk.dataSizeRaw, vk.dataOffset, live)
          case None => None
          case Some(data) =>
            Some(Found(ValueSpec(vk.name, vk.typeRaw, data.value), multiset{off} + data.cells))
  }

  /** The values named by the first `n` offsets of a list. */
  function ReadValues(h: Bytes, list: Bytes, n: nat, live: bool): Option<Found<seq<ValueSpec>>>
    requires 4 * n <= |list|
  {
    if n == 0 then Some(Found([], multiset{}))
    else
      match (ReadValue(h, Rd32(list, 0), live), ReadValues(h, list[4..], n - 1, live))
      case (Some(v), Some(rest)) => Some(Found([v.value] + rest.value, v.cells + rest.cells))
      case _ => None
  }

  function ReadValueList(h: Bytes, n: u32, listOff: u32, live: bool): Option<Found<seq<ValueSpec>>> {
    if n == 0 then (if listOff == NO_OFFSET then Some(Found([], multiset{})) else None)
    else
      match ReadCell(h, listOff, live)
      case None => None
      case Some(list) =>
        if |list| < 4 * n then None
        else
          match ReadValues(h, list, n, live)
          case None => None
          case Some(vs) => Some(Found(vs.value, multiset{listOff as nat} + vs.cells))
  }

  /** The subtree of the key at `off`; `parent` is what its parent field must say. */
  function ReadKey(h: Bytes, off: nat, parent: nat, isRoot: bool, live: bool): Option<Found<KeySpec>>
    requires off < |h|
    decreases |h| - off, 2
  {
    match ReadCell(h, off, live)
    case None => None
    case Some(p) =>
      match ParseNk(p)
      case None => None
      case Some(nk) =>
        if nk.parent != parent || nk.flags != KEY_COMP_NAME + (if isRoot then KEY_HIVE_ENTRY else 0) then None
        else
          match (ReadValueList(h, nk.nValues, nk.valueList, live), ReadLeaf(h, nk.nSub, nk.subList, off, live))
          case (Some(vs), Some(subs)) =>
            Some(Found(KeySpec(nk.name, nk.lastWritten, vs.value, subs.value), multiset{off} + vs.cells + subs.cells))
          case _ => None
  }

  /** The children listed by an `lf` cell. */
  function ReadLeaf(h: Bytes, n: u32, leafOff: u32, parent: nat, live: bool): Option<Found<seq<KeySpec>>>
    requires parent < |h|
    decreases |h| - parent, 1
  {
    if n == 0 then (if leafOff == 0 then Some(Found([], multiset{})) else None)
    else
      match ReadCell(h, leafOff, live)
      case None => None
      case Some(p) =>
        if |p| < 4 + 8 * n || p[..2] != LF_SIGNATURE || Rd16(p, 2) != n then None
        else
          match ReadKeys(h, p[4..], n, parent, live)
          case None => None
          case Some(keys) => Some(Found(keys.value, multiset{leafOff as nat} + keys.cells))
  }

  function ReadKeys(h: Bytes, entries: Bytes, n: nat, parent: nat, live: bool): Option<Found<seq<KeySpec>>>
    requires parent < |h| && 8 * n <= |entries|
    decreases |h| - parent, 0, n
  {
    if n == 0 then Some(Found([], multiset{}))
    else
      var off := Rd32(entries, 0);
      if off <= parent || off >= |h| then None
      else
        match (ReadKey(h, off, parent, false, live), ReadKeys(h, entries[8..], n - 1, parent, live))
        case (Some(key), Some(rest)) =>
          if Hint(key.value.name) != entries[4..8] then None
          else Some(Found([key.value] + rest.value, key.cells + rest.cells))
        case _ => None
  }

  /** The bin a header announces. */
  function ReadBin(blob: Bytes, binsSize: nat): Option<Bytes> {
    if BB.BASE_BLOCK_LEN + binsSize > |blob| || binsSize < HBIN_HEADER_LEN then None
    else
      var h := blob[BB.BASE_BLOCK_LEN..BB.BASE_BLOCK_LEN + binsSize];
      if h[..4] == HBIN_SIGNATURE && Rd32(h, 4) == 0 && Rd32(h, 8) == binsSize then Some(h) else None
  }

  /** The live tree of a hive file, starting from the root offset in its header. */
  function ReadHive(blob: Bytes): Option<Found<KeySpec>> {
    match BB.Parse(blob)
    case (Some(bb), WellFormed) => ReadRoot(blob, bb)
    case (Some(bb), BadChecksum) => ReadRoot(blob, bb)
    case _ => None
  }

  function ReadRoot(blob: Bytes, bb: BB.BaseBlock): Option<Found<KeySpec>> {
    match ReadBin(blob, bb.hiveBinsDataSize)
    case None => None
    case Some(h) =>
      if 0 <= bb.rootCellOffset < |h| then ReadKey(h, bb.rootCellOffset, 0, true, true) else None
  }

  // ---------- stepping ----------

  /** A cell as seen by stepping through a bin: where it is, how long, in which state. */
  datatype Tile = Tile(off: nat, size: nat, live: bool)

  /** Visit cell after cell by absolute size, up to the end of the bin exactly. */
  function Steps(h: Bytes, off: nat): Option<seq<Tile>>
    requires off <= |h|
    decreases |h| - off
  {
    if off == |h| then Some([])
    else if off + 4 > |h| then None
    else
      var field: int := AsI32(Rd32(h, off));
      var size := if field < 0 then -field else field;
      if size == 0 || off + size > |h| then None
      else
        match Steps(h, off + size)
        case None => None
        case Some(rest) => Some([Tile(off, size, field < 0)] + rest)
  }
}
