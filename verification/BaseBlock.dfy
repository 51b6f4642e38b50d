/** The 4096-byte file header: checksum, field readers, classification. */
module BaseBlock {
  import opened LittleEndian
  import opened Utf16
  import opened Xor32
  import opened Permutations

  const REGF_SIGNATURE: Bytes := [0x72, 0x65, 0x67, 0x66]
  const BASE_BLOCK_LEN: nat := 4096
  const CHECKSUM_OFFSET: nat := 508
  const CHECKSUM_WORDS: nat := 127

  datatype WellFormedKind =
    | WellFormed
    | Truncated
    | ShortBaseBlock
    | BadSignature
    | NotAHive
    | BadChecksum
    | BinSizeOverrun

  datatype BaseBlock = BaseBlock(
    primarySeq: u32,
    secondarySeq: u32,
    lastWritten: u64,
    major: u32,
    minor: u32,
    fileType: u32,
    rootCellOffset: int,
    hiveBinsDataSize: u32,
    filename: string,
    checksumStored: u32,
    checksumComputed: u32)
  {
    predicate ChecksumBad() {
      checksumStored != checksumComputed
    }

    predicate IsDirty() {
      ChecksumBad() || primarySeq != secondarySeq
    }
  }

  // ---------- checksum ----------

  /** The first `n` little-endian words. */
  function Words(b: Bytes, n: nat): (r: seq<u32>)
    requires 4 * n <= |b|
    ensures |r| == n
  {
    if n == 0 then [] else Words(b, n - 1) + [Rd32(b, 4 * (n - 1))]
  }

  /** 0 and all ones are never stored. */
  function Adjust(raw: u32): u32 {
    if raw == 0 then 1 else if raw == 0xffff_ffff then 0xffff_fffe else raw
  }

  function Checksum(blob: Bytes): Option<u32> {
    if |blob| < CHECKSUM_OFFSET then None else Some(Adjust(XorAll(Words(blob, CHECKSUM_WORDS))))
  }

  method Xor32Checksum(blob: Bytes) returns (r: Option<u32>)
    ensures r == Checksum(blob) && r != Some(0) && r != Some(0xffff_ffff)
  {
    hide XorWord, XorAll, Words, Rd32;
    ChecksumRange(blob);
    if |blob| < CHECKSUM_OFFSET {
      return None;
    }
    NoWords(blob);
    var acc: u32 := 0;
    var off := 0;
    while off < CHECKSUM_OFFSET
      invariant 0 <= off <= CHECKSUM_OFFSET && off % 4 == 0
      invariant acc == XorAll(Words(blob, off / 4))
    {
      var word := Rd32(blob, off);
      WordsStep(blob, off / 4);
      XorAllSnoc(Words(blob, off / 4), word);
      acc := XorWord(acc, word);
      off := off + 4;
    }
    r := Some(if acc == 0 then 1 else if acc == 0xffff_ffff then 0xffff_fffe else acc);
  }

  lemma NoWords(b: Bytes)
    ensures Words(b, 0) == [] && XorAll([]) == 0
  {
  }

  lemma WordsStep(b: Bytes, n: nat)
    requires 4 * n + 4 <= |b|
    ensures Words(b, n + 1) == Words(b, n) + [Rd32(b, 4 * n)]
  {
    hide Rd32;
  }

  /** The checksum never takes the two reserved values. */
  lemma ChecksumRange(blob: Bytes)
    ensures Checksum(blob) != Some(0) && Checksum(blob) != Some(0xffff_ffff)
    ensures Checksum(blob).None? <==> |blob| < CHECKSUM_OFFSET
  {
  }

  /** How many of the dwords before `end` have bit `k` set. */
  function DwordsSetting(blob: Bytes, k: nat, end: nat): nat
    requires end <= |blob|
    decreases end
  {
    if end < 4 then 0 else BitAt(Rd32(blob, end - 4), k) + DwordsSetting(blob, k, end - 4)
  }

  lemma {:induction false} SettingWords(blob: Bytes, k: nat, n: nat)
    requires 4 * n <= |blob|
    ensures Setting(Words(blob, n), k) == DwordsSetting(blob, k, 4 * n)
  {
    hide Rd32, BitAt;
    if n > 0 {
      SettingWords(blob, k, n - 1);
      SettingSnoc(Words(blob, n - 1), Rd32(blob, 4 * (n - 1)), k);
    }
  }

  lemma {:induction false} SettingSnoc(words: seq<u32>, w: u32, k: nat)
    ensures Setting(words + [w], k) == Setting(words, k) + BitAt(w, k)
  {
    hide BitAt;
    if words == [] {
      assert Setting([w], k) == BitAt(w, k) + Setting([], k);
    } else {
      assert (words + [w])[1..] == words[1..] + [w];
      SettingSnoc(words[1..], w, k);
    }
  }

  /**
   The value of the checksum: let `raw` have each bit set exactly if an odd number of the 127 dwords
   before offset 508 have it set. The checksum is that, but for the two values it avoids.
   */
  lemma ChecksumValue(blob: Bytes, raw: u32)
    requires |blob| >= 508
    requires forall k {:trigger BitAt(raw, k)} :: 0 <= k < 32 ==> BitAt(raw, k) == DwordsSetting(blob, k, 508) % 2
    ensures Checksum(blob) == Some(if raw == 0 then 1 else if raw == 0xffff_ffff then 0xffff_fffe else raw)
  {
    hide BitAt, Words, XorAll, DwordsSetting;
    var fold := XorAll(Words(blob, 127));
    forall k | 0 <= k < 32
      ensures BitAt(fold, k) == BitAt(raw, k)
    {
      XorAllBit(Words(blob, 127), k);
      SettingWords(blob, k, 127);
    }
    Pow2Of32();
    BitsDetermine(fold, raw, 32);
  }

  /** There is such a value for every blob that long. */
  lemma ChecksumRaw(blob: Bytes) returns (raw: u32)
    requires |blob| >= 508
    ensures forall k {:trigger BitAt(raw, k)} :: 0 <= k < 32 ==> BitAt(raw, k) == DwordsSetting(blob, k, 508) % 2
  {
    hide BitAt, Words, XorAll, DwordsSetting;
    raw := XorAll(Words(blob, 127));
    forall k | 0 <= k < 32
      ensures BitAt(raw, k) == DwordsSetting(blob, k, 508) % 2
    {
      XorAllBit(Words(blob, 127), k);
      SettingWords(blob, k, 127);
    }
  }

  /** Only the covered words count, and not their order. */
  lemma ChecksumOrder(a: Bytes, b: Bytes)
    requires |a| >= CHECKSUM_OFFSET && |b| >= CHECKSUM_OFFSET
    requires multiset(Words(a, CHECKSUM_WORDS)) == multiset(Words(b, CHECKSUM_WORDS))
    ensures Checksum(a) == Checksum(b)
  {
    XorAllPermutes(Words(a, CHECKSUM_WORDS), Words(b, CHECKSUM_WORDS));
  }

  lemma {:induction false} WordsPrefix(a: Bytes, b: Bytes, n: nat)
    requires 4 * n <= |a| && 4 * n <= |b| && a[..4 * n] == b[..4 * n]
    ensures Words(a, n) == Words(b, n)
  {
    if n > 0 {
      assert a[..4 * n][..4 * (n - 1)] == a[..4 * (n - 1)] && b[..4 * n][..4 * (n - 1)] == b[..4 * (n - 1)];
      WordsPrefix(a, b, n - 1);
      assert forall k :: 0 <= k < 4 * n ==> a[..4 * n][k] == b[..4 * n][k];
    }
  }

  /** Bytes from 508 on, the stored checksum among them, do not matter. */
  lemma ChecksumPrefix(a: Bytes, b: Bytes)
    requires |a| >= CHECKSUM_OFFSET && |b| >= CHECKSUM_OFFSET && a[..CHECKSUM_OFFSET] == b[..CHECKSUM_OFFSET]
    ensures Checksum(a) == Checksum(b)
  {
    WordsPrefix(a, b, CHECKSUM_WORDS);
  }

  /**
   A change to a single covered word is detected, except when the raw folds are the two values
   one of the sentinel adjustments merges.
   */
  lemma ChecksumSingleWord(a: Bytes, b: Bytes, i: nat)
    requires |a| >= CHECKSUM_OFFSET && |b| >= CHECKSUM_OFFSET && i < CHECKSUM_WORDS
    requires Words(a, CHECKSUM_WORDS)[i] != Words(b, CHECKSUM_WORDS)[i]
    requires Without(Words(a, CHECKSUM_WORDS), i) == Without(Words(b, CHECKSUM_WORDS), i)
    ensures var x := XorAll(Words(a, CHECKSUM_WORDS)); var y := XorAll(Words(b, CHECKSUM_WORDS));
      Checksum(a) == Checksum(b) <==> {x, y} == {0, 1} || {x, y} == {0xffff_fffe, 0xffff_ffff}
  {
    var wa, wb := Words(a, CHECKSUM_WORDS), Words(b, CHECKSUM_WORDS);
    XorAllPull(wa, i);
    XorAllPull(wb, i);
    var x, y := XorAll(wa), XorAll(wb);
    if x == y {
      XorCancels(wa[i], wb[i], XorAll(Without(wa, i)));
    }
    assert {x, y} == {0, 1} <==> (x == 0 && y == 1) || (x == 1 && y == 0) by {
      assert x in {x, y} && y in {x, y};
      if {x, y} == {0, 1} {
        assert x in {0, 1} && y in {0, 1};
      }
    }
    assert {x, y} == {0xffff_fffe, 0xffff_ffff}
      <==> (x == 0xffff_fffe && y == 0xffff_ffff) || (x == 0xffff_ffff && y == 0xffff_fffe) by {
      assert x in {x, y} && y in {x, y};
      if {x, y} == {0xffff_fffe, 0xffff_ffff} {
        assert x in {0xffff_fffe, 0xffff_ffff} && y in {0xffff_fffe, 0xffff_ffff};
      }
    }
  }

  // ---------- fields ----------

  function Get32(b: Bytes, off: nat): Option<u32> {
    if off + 4 <= |b| then Some(Rd32(b, off)) else None
  }

  function Get64(b: Bytes, off: nat): Option<u64> {
    if off + 8 <= |b| then Some(Rd64(b, off)) else None
  }

  function Or0(x: Option<int>): int {
    if x.Some? then x.value else 0
  }

  function UntilNul(units: seq<u16>): seq<u16> {
    if units == [] || units[0] == 0 then [] else [units[0]] + UntilNul(units[1..])
  }

  /** The lossily decoded units before the first NUL. */
  function NameText(bytes: Bytes): string {
    Lossy(DecodeItems(UntilNul(UnitsOf(bytes))))
  }

  /** The text before the first NUL unit, or of all units if there is none, stray surrogates as U+FFFD. */
  lemma NameAny(bytes: Bytes, marks: seq<Mark>)
    requires Marked(marks)
    requires var spelled := Spelling(marks);
      0 !in spelled && (UnitsOf(bytes) == spelled || spelled + [0] <= UnitsOf(bytes))
    ensures NameText(bytes) == MarkText(marks)
  {
    hide DecodeItems, Lossy, UnitsOf, Spelling, Marked;
    var spelled, units := Spelling(marks), UnitsOf(bytes);
    MarksDecoded(marks);
    if units != spelled {
      assert units == spelled + [0] + units[|spelled| + 1..];
      assert spelled + [0] + units[|spelled| + 1..] == spelled + ([0] + units[|spelled| + 1..]);
      NulStops(spelled, [0] + units[|spelled| + 1..]);
    } else {
      assert units == spelled + [];
      NulStops(spelled, []);
    }
  }

  lemma {:induction false} NulStops(head: seq<u16>, rest: seq<u16>)
    requires 0 !in head && (rest == [] || rest[0] == 0)
    ensures UntilNul(head + rest) == head
  {
    if head == [] {
      assert head + rest == rest;
    } else {
      assert (head + rest)[1..] == head[1..] + rest;
      assert head == [head[0]] + head[1..];
      NulStops(head[1..], rest);
    }
  }

  method DecodeUtf16le(bytes: Bytes) returns (text: string)
    ensures text == NameText(bytes)
  {
    hide DecodeItems, Lossy, UnitsOf, Rd16;
    var units := [];
    var i := 0;
    ghost var all := UnitsOf(bytes);
    while i + 1 < |bytes|
      invariant i % 2 == 0 && 0 <= i <= |bytes|
      invariant UntilNul(all) == units + UntilNul(all[i / 2..])
    {
      var u := Rd16(bytes, i);
      UnitsOfSnoc(bytes, i / 2);
      assert all[i / 2] == all[..i / 2 + 1][i / 2] == u;
      assert all[i / 2..][1..] == all[i / 2 + 1..];
      if u == 0 {
        break;
      }
      units := units + [u];
      i := i + 2;
    }
    assert UntilNul(all) == units;
    text := Lossy(DecodeItems(units));
  }

  /** Best effort: a field beyond the end reads as 0; nothing at all without the first field. */
  function ReadFields(blob: Bytes): Option<BaseBlock> {
    if Get32(blob, 4).None? then None
    else Some(BaseBlock(
      Or0(Get32(blob, 4)),
      Or0(Get32(blob, 8)),
      Or0(Get64(blob, 12)),
      Or0(Get32(blob, 20)),
      Or0(Get32(blob, 24)),
      Or0(Get32(blob, 28)),
      AsI32(Or0(Get32(blob, 36))),
      Or0(Get32(blob, 40)),
      if 112 <= |blob| then NameText(blob[48..112]) else "",
      Or0(Get32(blob, CHECKSUM_OFFSET)),
      Or0(Checksum(blob))))
  }

  function Parse(blob: Bytes): (Option<BaseBlock>, WellFormedKind) {
    if |blob| < 4 then (None, Truncated)
    else if blob[..4] != REGF_SIGNATURE then (None, BadSignature)
    else if |blob| < BASE_BLOCK_LEN then (ReadFields(blob), ShortBaseBlock)
    else
      match ReadFields(blob)
      case None => (None, ShortBaseBlock)
      case Some(bb) =>
        if bb.fileType != 0 then (Some(bb), NotAHive)
        else if bb.hiveBinsDataSize > 0 && BASE_BLOCK_LEN + bb.hiveBinsDataSize > |blob| then (Some(bb), BinSizeOverrun)
        else if bb.ChecksumBad() then (Some(bb), BadChecksum)
        else (Some(bb), WellFormed)
  }

  // ---------- verdicts ----------

  /** The first four bytes spell "regf". */
  predicate Regf(blob: Bytes) {
    |blob| >= 4 && blob[0] == 'r' as int && blob[1] == 'e' as int && blob[2] == 'g' as int && blob[3] == 'f' as int
  }

  /** More bins are announced than follow the header. */
  predicate Overrun(blob: Bytes)
    requires |blob| >= 4096
  {
    Rd32(blob, 40) > 0 && 4096 + Rd32(blob, 40) > |blob|
  }

  /** Every verdict in terms of the bytes, for every blob; and when there are fields at all. */
  lemma ParseExact(blob: Bytes)
    ensures Parse(blob).1
         == if |blob| < 4 then Truncated
            else if !Regf(blob) then BadSignature
            else if |blob| < 4096 then ShortBaseBlock
            else if Rd32(blob, 28) != 0 then NotAHive
            else if Overrun(blob) then BinSizeOverrun
            else if Checksum(blob) != Some(Rd32(blob, 508)) then BadChecksum
            else WellFormed
    ensures Parse(blob).0.Some? <==> Regf(blob) && |blob| >= 8
  {
    hide Words, XorAll, Adjust, NameText, Rd32;
    if |blob| >= 4 {
      RegfSignature(blob);
    }
    if |blob| >= 4096 {
      ChecksumRange(blob);
    }
  }

  lemma RegfSignature(blob: Bytes)
    requires |blob| >= 4
    ensures blob[..4] == REGF_SIGNATURE <==> Regf(blob)
  {
    assert blob[..4] == [blob[0], blob[1], blob[2], blob[3]];
  }

  /** The fields of every blob with a whole header, by their offsets, and when it is dirty. */
  lemma FieldsExact(blob: Bytes)
    requires Regf(blob) && |blob| >= 512
    ensures Parse(blob).0.Some?
    ensures var bb := Parse(blob).0.value;
      && bb.primarySeq == Rd32(blob, 4) && bb.secondarySeq == Rd32(blob, 8) && bb.lastWritten == Rd64(blob, 12)
      && bb.major == Rd32(blob, 20) && bb.minor == Rd32(blob, 24) && bb.fileType == Rd32(blob, 28)
      && bb.rootCellOffset == AsI32(Rd32(blob, 36)) && bb.hiveBinsDataSize == Rd32(blob, 40)
      && bb.filename == NameText(blob[48..112])
      && bb.checksumStored == Rd32(blob, 508) && Checksum(blob) == Some(bb.checksumComputed)
      && (bb.IsDirty() <==> Rd32(blob, 4) != Rd32(blob, 8) || Checksum(blob) != Some(Rd32(blob, 508)))
  {
    hide Words, XorAll, Adjust, NameText, Rd32, Rd64;
    RegfSignature(blob);
    ChecksumRange(blob);
  }

  // ---------- truncation ----------

  predicate FieldOf(prefix: int, full: int, end: nat, k: nat) {
    prefix == if end <= k then full else 0
  }

  /**
   Whatever is cut off, each integer field of a parsed prefix is the whole blob's if it lies wholly
   inside the prefix, and 0 otherwise; and a prefix yields fields exactly from eight bytes on.
   */
  lemma PrefixFields(blob: Bytes, k: nat)
    requires 8 <= |blob| && k <= |blob| && blob[..4] == REGF_SIGNATURE
    ensures Parse(blob[..k]).0.Some? <==> k >= 8
    ensures k >= 8 ==>
      var p := Parse(blob[..k]).0.value; var f := ReadFields(blob).value;
      && FieldOf(p.primarySeq, f.primarySeq, 8, k)
      && FieldOf(p.secondarySeq, f.secondarySeq, 12, k)
      && FieldOf(p.lastWritten, f.lastWritten, 20, k)
      && FieldOf(p.major, f.major, 24, k)
      && FieldOf(p.minor, f.minor, 28, k)
      && FieldOf(p.fileType, f.fileType, 32, k)
      && FieldOf(p.rootCellOffset, f.rootCellOffset, 40, k)
      && FieldOf(p.hiveBinsDataSize, f.hiveBinsDataSize, 44, k)
      && FieldOf(p.checksumStored, f.checksumStored, 512, k)
      && FieldOf(p.checksumComputed, f.checksumComputed, 508, k)
      && p.filename == if 112 <= k then f.filename else ""
  {
    hide Words, XorAll, Adjust, NameText;
    var cut := blob[..k];
    if k >= 4 {
      assert cut[..4] == blob[..4];
    }
    if k >= 8 {
      assert Parse(cut).0 == ReadFields(cut);
      if k >= 508 {
        assert cut[..508] == blob[..508];
        ChecksumPrefix(cut, blob);
      }
      if k >= 112 {
        assert cut[48..112] == blob[48..112];
      }
    }
  }

  /** A file whose bins end exactly where it ends is classified, cut short, by the cut alone. */
  lemma PrefixKind(blob: Bytes, k: nat)
    requires |blob| > BASE_BLOCK_LEN && k < |blob| && blob[..4] == REGF_SIGNATURE
    requires ReadFields(blob).value.fileType == 0
    requires BASE_BLOCK_LEN + ReadFields(blob).value.hiveBinsDataSize == |blob|
    ensures Parse(blob[..k]).1
         == if k < 4 then Truncated else if k < BASE_BLOCK_LEN then ShortBaseBlock else BinSizeOverrun
  {
    hide ReadFields;
    if k >= 4 {
      assert blob[..k][..4] == blob[..4];
      PrefixFields(blob, k);
    }
  }
}
