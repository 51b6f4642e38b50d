/** Transaction-log inspection: the walk over `HvLE` entries and what truncation does to it. */
module LogParse {
  import opened LittleEndian
  import BB = BaseBlock

  const HVLE_SIGNATURE: Bytes := [0x48, 0x76, 0x4c, 0x45]
  const ENTRY_HEADER: nat := 40
  const GUARD: nat := 1_000_000
  const U32_MAX: int := 0xffff_ffff

  datatype LogFormat = NoLog | OldLog | NewLog
  {
    function Rank(): nat {
      match this case NoLog => 0 case OldLog => 1 case NewLog => 2
    }
  }

  datatype LogSummary = LogSummary(format: LogFormat, entries: u32, dirtyPages: u32, maxSequence: u32)

  function Cap(n: nat): u32 {
    Min(n, U32_MAX)
  }

  /** `a.saturating_add(b)` */
  function SatAdd(a: u32, b: u32): u32 {
    Cap(a + b)
  }

  // ---------- the chain of entries ----------

  datatype Entry = Entry(off: nat, size: u32, sequence: u32, pages: u32)

  function EntryAt(blob: Bytes, off: nat): Option<Entry> {
    if off + ENTRY_HEADER > |blob| || blob[off..off + 4] != HVLE_SIGNATURE || Rd32(blob, off + 4) < 40 then None
    else Some(Entry(off, Rd32(blob, off + 4), Rd32(blob, off + 12), Rd32(blob, off + 20)))
  }

  /** Every entry reached by following sizes from `off`, without any bound on their number. */
  function Chain(blob: Bytes, off: nat): seq<Entry>
    decreases |blob| - off
  {
    match EntryAt(blob, off)
    case None => []
    case Some(e) => [e] + Chain(blob, off + e.size)
  }

  function Pages(entries: seq<Entry>): nat {
    if entries == [] then 0 else entries[0].pages + Pages(entries[1..])
  }

  function MaxSequence(entries: seq<Entry>): u32 {
    if entries == [] then 0 else Max(entries[0].sequence, MaxSequence(entries[1..]))
  }

  /** The entries the bounded walk visits. */
  function Walked(blob: Bytes): seq<Entry> {
    var chain := Chain(blob, BB.BASE_BLOCK_LEN);
    chain[..Min(|chain|, GUARD)]
  }

  function NewSummary(entries: seq<Entry>): LogSummary {
    LogSummary(if entries == [] then OldLog else NewLog, Cap(|entries|), Cap(Pages(entries)), MaxSequence(entries))
  }

  predicate HasHeader(blob: Bytes) {
    |blob| >= BB.BASE_BLOCK_LEN && blob[..4] == BB.REGF_SIGNATURE
  }

  function Summarize(blob: Bytes): LogSummary {
    if !HasHeader(blob) then LogSummary(NoLog, 0, 0, 0)
    else if BB.BASE_BLOCK_LEN + 4 <= |blob| && blob[BB.BASE_BLOCK_LEN..BB.BASE_BLOCK_LEN + 4] == HVLE_SIGNATURE
      then NewSummary(Walked(blob))
    else LogSummary(OldLog, 0, 0, 0)
  }

  method SummarizeNew(blob: Bytes) returns (s: LogSummary)
    requires |blob| >= BB.BASE_BLOCK_LEN
    ensures s == NewSummary(Walked(blob))
  {
    hide Rd32, Chain, Pages, MaxSequence, EntryAt, Max;
    NoTotals();
    var entries: u32, dirtyPages: u32, maxSequence: u32 := 0, 0, 0;
    var off: nat := BB.BASE_BLOCK_LEN;
    var guard: nat := 0;
    ghost var all := Chain(blob, off);
    ghost var done: seq<Entry> := [];
    assert all == [] + all;
    while off + 40 <= |blob| && guard < GUARD
      invariant guard == |done| <= GUARD && all == done + Chain(blob, off)
      invariant entries == Cap(|done|) && dirtyPages == Cap(Pages(done)) && maxSequence == MaxSequence(done)
      decreases GUARD - guard
    {
      guard := guard + 1;
      ChainUnfold(blob, off);
      if blob[off..off + 4] != HVLE_SIGNATURE {
        break;
      }
      var size := Rd32(blob, off + 4);
      if size < 40 {
        break;
      }
      var sequence := Rd32(blob, off + 12);
      var pages := Rd32(blob, off + 20);
      ghost var e := Entry(off, size, sequence, pages);
      Regroup(done, [e], Chain(blob, off + size));
      TotalsSnoc(done, e);
      entries := SatAdd(entries, 1);
      dirtyPages := SatAdd(dirtyPages, pages);
      maxSequence := Max(maxSequence, sequence);
      done := done + [e];
      off := off + size;
    }
    ChainUnfold(blob, off);
    WalkedSoFar(blob, done, Chain(blob, off));
    s := LogSummary(if entries > 0 then NewLog else OldLog, entries, dirtyPages, maxSequence);
  }

  lemma WalkedSoFar(blob: Bytes, done: seq<Entry>, rest: seq<Entry>)
    requires Chain(blob, BB.BASE_BLOCK_LEN) == done + rest
    requires |done| == GUARD || (|done| < GUARD && rest == [])
    ensures done == Walked(blob)
  {
    hide Chain;
  }

  lemma NoTotals()
    ensures Pages([]) == 0 && MaxSequence([]) == 0
  {
  }

  /** One step of the chain, in the terms the loop tests. */
  lemma ChainUnfold(blob: Bytes, off: nat)
    ensures Chain(blob, off)
         == (if off + 40 > |blob| || blob[off..off + 4] != HVLE_SIGNATURE || Rd32(blob, off + 4) < 40 then []
             else [Entry(off, Rd32(blob, off + 4), Rd32(blob, off + 12), Rd32(blob, off + 20))]
                  + Chain(blob, off + Rd32(blob, off + 4)))
  {
    hide Rd32;
  }

  /** The whole inspection. */
  method InspectLog(blob: Bytes) returns (s: LogSummary)
    ensures s == Summarize(blob)
  {
    hide Walked, NewSummary;
    if !HasHeader(blob) {
      s := LogSummary(NoLog, 0, 0, 0);
    } else if BB.BASE_BLOCK_LEN + 4 <= |blob| && blob[BB.BASE_BLOCK_LEN..BB.BASE_BLOCK_LEN + 4] == HVLE_SIGNATURE {
      s := SummarizeNew(blob);
    } else {
      s := LogSummary(OldLog, 0, 0, 0);
    }
  }

  lemma {:induction false} TotalsSnoc(entries: seq<Entry>, e: Entry)
    ensures Pages(entries + [e]) == Pages(entries) + e.pages
    ensures MaxSequence(entries + [e]) == Max(MaxSequence(entries), e.sequence)
  {
    if entries != [] {
      assert (entries + [e])[1..] == entries[1..] + [e];
      TotalsSnoc(entries[1..], e);
    } else {
      assert entries + [e] == [e] && [e][1..] == [];
    }
  }

  // ---------- what a summary means ----------

  /** Each entry takes at least its 40-byte header, so the chain is no longer than the blob allows. */
  lemma {:induction false} ChainFits(blob: Bytes, off: nat)
    ensures Chain(blob, off) != [] ==> off + 40 * |Chain(blob, off)| <= |blob|
    decreases |blob| - off
  {
    hide Rd32;
    match EntryAt(blob, off)
    case None =>
    case Some(e) =>
      ChainFits(blob, off + e.size);
  }

  /**
   Below about 40 MB the million-step guard never cuts the walk short: the summary is that of the
   whole chain. The format is "new" exactly when there is an entry.
   */
  lemma SummaryExact(blob: Bytes)
    ensures |blob| < BB.BASE_BLOCK_LEN + 40 * (GUARD + 1) ==> Walked(blob) == Chain(blob, BB.BASE_BLOCK_LEN)
    ensures Summarize(blob).entries > 0 ==> BB.BASE_BLOCK_LEN + 40 * Summarize(blob).entries <= |blob|
    ensures Summarize(blob).format == NewLog <==> Summarize(blob).entries > 0
    ensures HasHeader(blob) ==> Summarize(blob) == NewSummary(Walked(blob))
  {
    hide Rd32;
    ChainFits(blob, BB.BASE_BLOCK_LEN);
    var chain := Chain(blob, BB.BASE_BLOCK_LEN);
    if |chain| <= GUARD {
      assert chain[..|chain|] == chain;
    }
    assert Summarize(blob).entries <= |Walked(blob)|;
  }

  // ---------- the summary in terms of the bytes ----------

  /** An entry header lies at `off`: 40 bytes beginning with "HvLE" and a size that covers them. */
  predicate EntryHeader(blob: Bytes, off: nat) {
    off + 40 <= |blob|
    && blob[off] == 'H' as int && blob[off + 1] == 'v' as int
    && blob[off + 2] == 'L' as int && blob[off + 3] == 'E' as int
    && Rd32(blob, off + 4) >= 40
  }

  /** Entry headers at exactly these offsets from `from` on, each as far behind the last as that one's size says. */
  predicate Trail(blob: Bytes, from: nat, offs: seq<nat>)
    decreases |offs|
  {
    if offs == [] then !EntryHeader(blob, from)
    else offs[0] == from && EntryHeader(blob, from) && Trail(blob, from + Rd32(blob, from + 4), offs[1..])
  }

  /** The sum of the numbers found `field` bytes into the entries. */
  function SumAt(blob: Bytes, offs: seq<nat>, field: nat): nat {
    if offs == [] then 0
    else (if offs[0] + field + 4 <= |blob| then Rd32(blob, offs[0] + field) else 0) + SumAt(blob, offs[1..], field)
  }

  /** `max` is the largest of them; 0 if there is none. */
  predicate LargestAt(blob: Bytes, offs: seq<nat>, field: nat, max: nat) {
    && (forall o :: o in offs && o + field + 4 <= |blob| ==> Rd32(blob, o + field) <= max)
    && (max == 0 || exists o :: o in offs && o + field + 4 <= |blob| && Rd32(blob, o + field) == max)
  }

  /** `entries` are those at `offs`. */
  predicate ReadAt(blob: Bytes, entries: seq<Entry>, offs: seq<nat>) {
    |entries| == |offs| && forall i :: 0 <= i < |offs| ==>
      offs[i] + 40 <= |blob|
      && entries[i] == Entry(offs[i], Rd32(blob, offs[i] + 4), Rd32(blob, offs[i] + 12), Rd32(blob, offs[i] + 20))
  }

  lemma HeaderIsEntry(blob: Bytes, off: nat)
    ensures EntryAt(blob, off).Some? <==> EntryHeader(blob, off)
  {
    hide Rd32;
    if off + 40 <= |blob| {
      assert blob[off..off + 4] == [blob[off], blob[off + 1], blob[off + 2], blob[off + 3]];
    }
  }

  lemma {:induction false} TrailIsChain(blob: Bytes, from: nat, offs: seq<nat>)
    requires Trail(blob, from, offs)
    ensures ReadAt(blob, Chain(blob, from), offs)
    decreases |offs|
  {
    hide Rd32, EntryHeader;
    HeaderIsEntry(blob, from);
    if offs != [] {
      var next := from + Rd32(blob, from + 4);
      TrailIsChain(blob, next, offs[1..]);
      var chain := Chain(blob, from);
      assert chain[0] == EntryAt(blob, from).value && chain[1..] == Chain(blob, next);
      forall i | 0 <= i < |offs|
        ensures offs[i] + 40 <= |blob| && chain[i]
             == Entry(offs[i], Rd32(blob, offs[i] + 4), Rd32(blob, offs[i] + 12), Rd32(blob, offs[i] + 20))
      {
        if i > 0 {
          assert chain[i] == chain[1..][i - 1] && offs[i] == offs[1..][i - 1];
        }
      }
    }
  }

  lemma ReadAtTail(blob: Bytes, entries: seq<Entry>, offs: seq<nat>)
    requires ReadAt(blob, entries, offs) && offs != []
    ensures ReadAt(blob, entries[1..], offs[1..])
    ensures offs[0] + 40 <= |blob| && entries[0].sequence == Rd32(blob, offs[0] + 12)
    ensures entries[0].pages == Rd32(blob, offs[0] + 20)
  {
    hide Rd32;
    var rest := offs[1..];
    forall i | 0 <= i < |rest|
      ensures rest[i] + 40 <= |blob| && entries[1..][i]
           == Entry(rest[i], Rd32(blob, rest[i] + 4), Rd32(blob, rest[i] + 12), Rd32(blob, rest[i] + 20))
    {
      assert entries[1..][i] == entries[i + 1] && rest[i] == offs[i + 1];
    }
  }

  lemma LargestOfMore(blob: Bytes, offs: seq<nat>, field: nat, max: nat)
    requires offs != [] && offs[0] + field + 4 <= |blob| && LargestAt(blob, offs[1..], field, max)
    ensures LargestAt(blob, offs, field, Max(Rd32(blob, offs[0] + field), max))
  {
    hide Rd32;
    assert offs == [offs[0]] + offs[1..];
    assert offs[0] in offs && forall o :: o in offs[1..] ==> o in offs;
  }

  lemma {:induction false} TotalsAt(blob: Bytes, entries: seq<Entry>, offs: seq<nat>)
    requires ReadAt(blob, entries, offs)
    ensures Pages(entries) == SumAt(blob, offs, 20) && LargestAt(blob, offs, 12, MaxSequence(entries))
  {
    hide Rd32;
    if offs != [] {
      hide LargestAt, ReadAt;
      ReadAtTail(blob, entries, offs);
      TotalsAt(blob, entries[1..], offs[1..]);
      LargestOfMore(blob, offs, 12, MaxSequence(entries[1..]));
      assert entries != [] by { ReadAtLength(blob, entries, offs); }
    }
  }

  lemma ReadAtLength(blob: Bytes, entries: seq<Entry>, offs: seq<nat>)
    requires ReadAt(blob, entries, offs)
    ensures |entries| == |offs|
  {
  }

  /**
   The summary of any log in terms of its bytes. There is none for what does not begin as a header
   of 4096 bytes with "regf". Otherwise the entries counted are those behind the header, one behind
   the other, a million at most; pages are added up and the highest sequence taken.
   */
  lemma SummaryMeaning(blob: Bytes, offs: seq<nat>)
    requires |blob| >= 4096 && BB.Regf(blob) && Trail(blob, 4096, offs)
    ensures var seen := offs[..Min(|offs|, 1_000_000)]; var s := Summarize(blob);
      && s.format == (if seen == [] then OldLog else NewLog)
      && s.entries == Min(|seen|, 0xffff_ffff) && s.dirtyPages == Min(SumAt(blob, seen, 20), 0xffff_ffff)
      && LargestAt(blob, seen, 12, s.maxSequence)
  {
    hide Rd32, Chain, Trail, SumAt, LargestAt, Pages, MaxSequence;
    BB.RegfSignature(blob);
    TrailIsChain(blob, 4096, offs);
    var n := Min(|offs|, 1_000_000);
    assert ReadAt(blob, Walked(blob), offs[..n]);
    TotalsAt(blob, Walked(blob), offs[..n]);
    SummaryExact(blob);
  }

  lemma NoSummary(blob: Bytes)
    ensures Summarize(blob).format == NoLog <==> |blob| < 4096 || !BB.Regf(blob)
    ensures Summarize(blob).format == NoLog ==> Summarize(blob) == LogSummary(NoLog, 0, 0, 0)
    ensures HasHeader(blob) <==> |blob| >= 4096 && BB.Regf(blob)
  {
    hide Walked;
    if |blob| >= 4 {
      BB.RegfSignature(blob);
    }
  }

  /** Every log has such a trail of entries. */
  lemma {:induction false} TrailOf(blob: Bytes, from: nat) returns (offs: seq<nat>)
    ensures Trail(blob, from, offs)
    decreases |blob| - from
  {
    hide Rd32;
    offs := [];
    if EntryHeader(blob, from) {
      var rest := TrailOf(blob, from + Rd32(blob, from + 4));
      offs := [from] + rest;
      assert offs[1..] == rest;
    }
  }

  // ---------- truncation ----------

  /** The leading entries whose header ends by `k`. */
  function Fitting(entries: seq<Entry>, k: nat): (r: seq<Entry>)
    ensures r <= entries
  {
    if entries == [] || entries[0].off + ENTRY_HEADER > k then [] else [entries[0]] + Fitting(entries[1..], k)
  }

  lemma {:induction false} ChainTruncated(blob: Bytes, k: nat, off: nat)
    requires k <= |blob|
    ensures Chain(blob[..k], off) == Fitting(Chain(blob, off), k)
    decreases |blob| - off
  {
    hide Rd32;
    EntryTruncated(blob, k, off);
    match EntryAt(blob, off)
    case None =>
    case Some(e) =>
      ChainTruncated(blob, k, off + e.size);
      var chain := Chain(blob, off);
      assert chain[0] == e && chain[1..] == Chain(blob, off + e.size);
  }

  lemma EntryTruncated(blob: Bytes, k: nat, off: nat)
    requires k <= |blob|
    ensures EntryAt(blob[..k], off) == if off + ENTRY_HEADER <= k then EntryAt(blob, off) else None
  {
    if off + ENTRY_HEADER <= k {
      assert blob[..k][off..off + 4] == blob[off..off + 4];
    }
  }

  lemma {:induction false} TotalsPrefix(a: seq<Entry>, b: seq<Entry>)
    requires a <= b
    ensures Pages(a) <= Pages(b) && MaxSequence(a) <= MaxSequence(b)
  {
    if a != [] {
      TotalsPrefix(a[1..], b[1..]);
    }
  }

  /** Offsets rise along the chain, so what fits is exactly the entries whose header fits. */
  lemma {:induction false} FittingIsExact(blob: Bytes, off: nat, k: nat, e: Entry)
    ensures e in Fitting(Chain(blob, off), k) <==> e in Chain(blob, off) && e.off + ENTRY_HEADER <= k
    ensures e in Chain(blob, off) ==> e.off >= off
    decreases |blob| - off
  {
    hide Rd32;
    match EntryAt(blob, off)
    case None =>
    case Some(first) =>
      FittingIsExact(blob, off + first.size, k, e);
      var chain := Chain(blob, off);
      assert chain[0] == first && chain[1..] == Chain(blob, off + first.size);
      assert e in chain <==> e == first || e in chain[1..];
  }

  /**
   Cutting a log short visits exactly the leading entries whose header still fits, up to the guard,
   and never raises the rank of the format, the entry count, the page count or the highest sequence.
   */
  lemma Truncation(blob: Bytes, k: nat)
    requires k <= |blob|
    ensures var fit := Fitting(Chain(blob, BB.BASE_BLOCK_LEN), k); Walked(blob[..k]) == fit[..Min(|fit|, GUARD)]
    ensures var cut := Summarize(blob[..k]); var whole := Summarize(blob);
      && cut.format.Rank() <= whole.format.Rank() && cut.entries <= whole.entries
      && cut.dirtyPages <= whole.dirtyPages && cut.maxSequence <= whole.maxSequence
  {
    hide Chain, Fitting, Rd32;
    ChainTruncated(blob, k, BB.BASE_BLOCK_LEN);
    if HasHeader(blob[..k]) {
      assert blob[..k][..4] == blob[..4];
      SummaryExact(blob[..k]);
      SummaryExact(blob);
      assert Walked(blob[..k]) <= Walked(blob);
      TotalsPrefix(Walked(blob[..k]), Walked(blob));
    }
  }
}
