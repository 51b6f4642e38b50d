/** Combining log summaries, and the replay report for a primary hive and its logs. */
module LogsApplied {
  import opened LittleEndian
  import opened LogParse
  import opened Permutations
  import BB = BaseBlock

  function EntrySum(logs: seq<LogSummary>): nat {
    if logs == [] then 0 else logs[0].entries + EntrySum(logs[1..])
  }

  function PageSum(logs: seq<LogSummary>): nat {
    if logs == [] then 0 else logs[0].dirtyPages + PageSum(logs[1..])
  }

  function HighestSequence(logs: seq<LogSummary>): u32 {
    if logs == [] then 0 else Max(logs[0].maxSequence, HighestSequence(logs[1..]))
  }

  function Better(a: LogFormat, b: LogFormat): LogFormat {
    if a.Rank() >= b.Rank() then a else b
  }

  function BestFormat(logs: seq<LogSummary>): LogFormat {
    if logs == [] then NoLog else Better(logs[0].format, BestFormat(logs[1..]))
  }

  /** Capped totals, highest sequence, best format. */
  function Combined(logs: seq<LogSummary>): LogSummary {
    LogSummary(BestFormat(logs), Cap(EntrySum(logs)), Cap(PageSum(logs)), HighestSequence(logs))
  }

  method Combine(logs: seq<LogSummary>) returns (r: LogSummary)
    ensures r == Combined(logs)
  {
    var entries: u32, dirty: u32, maxSeq: u32 := 0, 0, 0;
    var fmt := NoLog;
    for i := 0 to |logs|
      invariant entries == Cap(EntrySum(logs[..i])) && dirty == Cap(PageSum(logs[..i]))
      invariant maxSeq == HighestSequence(logs[..i]) && fmt == BestFormat(logs[..i])
    {
      assert logs[..i + 1] == logs[..i] + [logs[i]];
      CombinedSnoc(logs[..i], logs[i]);
      entries := SatAdd(entries, logs[i].entries);
      dirty := SatAdd(dirty, logs[i].dirtyPages);
      maxSeq := Max(maxSeq, logs[i].maxSequence);
      if logs[i].format == NewLog {
        fmt := NewLog;
      } else if logs[i].format == OldLog && fmt != NewLog {
        fmt := OldLog;
      }
    }
    assert logs[..|logs|] == logs;
    r := LogSummary(fmt, entries, dirty, maxSeq);
  }

  lemma {:induction false} CombinedSnoc(logs: seq<LogSummary>, s: LogSummary)
    ensures EntrySum(logs + [s]) == EntrySum(logs) + s.entries
    ensures PageSum(logs + [s]) == PageSum(logs) + s.dirtyPages
    ensures HighestSequence(logs + [s]) == Max(HighestSequence(logs), s.maxSequence)
    ensures BestFormat(logs + [s]) == Better(BestFormat(logs), s.format)
  {
    if logs != [] {
      assert (logs + [s])[1..] == logs[1..] + [s];
      CombinedSnoc(logs[1..], s);
    } else {
      assert logs + [s] == [s] && [s][1..] == [];
    }
  }

  lemma {:induction false} Pull(logs: seq<LogSummary>, i: nat)
    requires i < |logs|
    ensures EntrySum(logs) == logs[i].entries + EntrySum(Without(logs, i))
    ensures PageSum(logs) == logs[i].dirtyPages + PageSum(Without(logs, i))
    ensures HighestSequence(logs) == Max(logs[i].maxSequence, HighestSequence(Without(logs, i)))
    ensures BestFormat(logs) == Better(logs[i].format, BestFormat(Without(logs, i)))
  {
    if i == 0 {
      WithoutHead(logs);
    } else {
      Pull(logs[1..], i - 1);
      WithoutTail(logs, i);
    }
  }

  lemma {:induction false} SumsPermute(a: seq<LogSummary>, b: seq<LogSummary>)
    requires multiset(a) == multiset(b)
    ensures EntrySum(a) == EntrySum(b) && PageSum(a) == PageSum(b)
    ensures HighestSequence(a) == HighestSequence(b) && BestFormat(a) == BestFormat(b)
    decreases |a|
  {
    if a == [] {
      assert |multiset(b)| == 0;
    } else {
      var i := MatchHead(a, b);
      Pull(b, i);
      SumsPermute(a[1..], Without(b, i));
    }
  }

  /** The order of the logs does not matter. */
  lemma CombinePermutes(a: seq<LogSummary>, b: seq<LogSummary>)
    requires multiset(a) == multiset(b)
    ensures Combined(a) == Combined(b)
  {
    SumsPermute(a, b);
  }

  // ---------- totals over the logs themselves ----------

  function Summaries(blobs: seq<Bytes>): seq<LogSummary> {
    if blobs == [] then [] else [Summarize(blobs[0])] + Summaries(blobs[1..])
  }

  /** The entries the walks visit in a log; none without a header. */
  function Visited(blob: Bytes): seq<Entry> {
    if HasHeader(blob) then Walked(blob) else []
  }

  function AllVisited(blobs: seq<Bytes>): seq<Entry> {
    if blobs == [] then [] else Visited(blobs[0]) + AllVisited(blobs[1..])
  }

  /**
   Although every step saturates, the combined totals are the capped true count, true page sum and
   highest sequence over all entries of all logs; the format is "new" exactly when there is an
   entry, and there is no usable log exactly when no log has a header.
   */
  lemma CombineTotals(blobs: seq<Bytes>)
    ensures var c := Combined(Summaries(blobs)); var all := AllVisited(blobs);
      && c.entries == Cap(|all|) && c.dirtyPages == Cap(Pages(all)) && c.maxSequence == MaxSequence(all)
      && (c.format == NewLog <==> all != [])
      && (c.format == NoLog <==> forall b :: b in blobs ==> !HasHeader(b))
  {
    hide Visited, Summarize, MaxSequence, Pages;
    TotalsAdd(blobs);
  }

  /** A capped sum of terms each of which may be capped already is the capped true sum. */
  predicate CapsTo(capped: nat, sum: nat) {
    Cap(capped) == Cap(sum)
  }

  lemma {:induction false} TotalsAdd(blobs: seq<Bytes>)
    ensures var logs := Summaries(blobs); var all := AllVisited(blobs);
      && CapsTo(EntrySum(logs), |all|) && CapsTo(PageSum(logs), Pages(all)) && HighestSequence(logs) == MaxSequence(all)
      && (BestFormat(logs) == NewLog <==> all != [])
      && (BestFormat(logs) == NoLog <==> forall b :: b in blobs ==> !HasHeader(b))
  {
    hide Visited, Summarize, HasHeader, Pages, MaxSequence;
    NoTotals();
    if blobs != [] {
      var first, rest := Visited(blobs[0]), AllVisited(blobs[1..]);
      TotalsAdd(blobs[1..]);
      OneTotal(blobs[0]);
      TotalsConcat(first, rest);
      assert Summaries(blobs)[1..] == Summaries(blobs[1..]);
      assert blobs == [blobs[0]] + blobs[1..];
      assert forall b :: b in blobs <==> b == blobs[0] || b in blobs[1..];
    }
  }

  lemma OneTotal(blob: Bytes)
    ensures var s := Summarize(blob); var v := Visited(blob);
      && s.entries == Cap(|v|) && s.dirtyPages == Cap(Pages(v)) && s.maxSequence == MaxSequence(v)
      && (s.format == NewLog <==> v != []) && (s.format == NoLog <==> !HasHeader(blob))
  {
    hide Walked;
    SummaryExact(blob);
  }

  lemma {:induction false} TotalsConcat(a: seq<Entry>, b: seq<Entry>)
    ensures Pages(a + b) == Pages(a) + Pages(b) && MaxSequence(a + b) == Max(MaxSequence(a), MaxSequence(b))
  {
    if a == [] {
      assert a + b == b;
    } else {
      assert (a + b)[1..] == a[1..] + b;
      TotalsConcat(a[1..], b);
    }
  }

  // ---------- the report ----------

  datatype ReplayReport = ReplayReport(applied: bool, entries: u32, dirtyPages: u32, becameClean: bool,
                                       format: LogFormat)

  datatype ReplayInput = ReplayInput(primary: Option<Bytes>, log1: Option<Bytes>, log2: Option<Bytes>)

  function Present(log: Option<Bytes>): seq<Bytes> {
    if log.Some? then [log.value] else []
  }

  function Logs(input: ReplayInput): seq<Bytes> {
    Present(input.log1) + Present(input.log2)
  }

  function Header(input: ReplayInput): Option<BB.BaseBlock> {
    if input.primary.None? then None else BB.Parse(input.primary.value).0
  }

  /** One report per row, none where the primary has no readable header. */
  method Process(rows: seq<ReplayInput>) returns (reports: seq<Option<ReplayReport>>)
    ensures |reports| == |rows|
    ensures forall i :: 0 <= i < |rows| ==> IsReport(rows[i], reports[i])
  {
    reports := [];
    for i := 0 to |rows|
      invariant |reports| == i
      invariant forall j :: 0 <= j < i ==> IsReport(rows[j], reports[j])
    {
      var report := ReportRow(rows[i]);
      reports := reports + [report];
    }
  }

  method ReportRow(input: ReplayInput) returns (r: Option<ReplayReport>)
    ensures IsReport(input, r)
  {
    hide Summarize, Combined, BB.Parse, Pages, MaxSequence, Cap, AllVisited, Summaries, Logs, HasHeader;
    var header := Header(input);
    if header.None? {
      return None;
    }
    var base := header.value;
    var wasDirty := base.IsDirty();
    var summaries: seq<LogSummary> := [];
    if input.log1.Some? {
      var s1 := InspectLog(input.log1.value);
      summaries := summaries + [s1];
    }
    if input.log2.Some? {
      var s2 := InspectLog(input.log2.value);
      summaries := summaries + [s2];
    }
    SummariesOfLogs(input);
    var c := Combine(summaries);
    var applied := wasDirty && c.format != NoLog;
    var clean := applied && (c.format == OldLog || c.maxSequence >= Max(base.primarySeq, base.secondarySeq));
    r := Some(ReplayReport(applied, c.entries, c.dirtyPages, clean, c.format));
    assert summaries == Summaries(Logs(input));
    CombineTotals(Logs(input));
    assert c.format == NoLog <==> !Usable(input);
  }

  lemma SummariesOfLogs(input: ReplayInput)
    ensures Summaries(Logs(input))
         == (if input.log1.Some? then [Summarize(input.log1.value)] else [])
          + (if input.log2.Some? then [Summarize(input.log2.value)] else [])
  {
    hide Summarize;
    var first, second := Present(input.log1), Present(input.log2);
    assert second != [] ==> second[1..] == [];
    assert Summaries(second) == if second == [] then [] else [Summarize(second[0])] + Summaries(second[1..]);
    if first == [] {
      assert first + second == second;
    } else {
      var logs := first + second;
      assert logs[0] == input.log1.value && logs[1..] == second;
      assert Summaries(logs) == [Summarize(logs[0])] + Summaries(logs[1..]);
    }
  }

  predicate Usable(input: ReplayInput) {
    exists b :: b in Logs(input) && HasHeader(b)
  }

  /**
   The report in terms of the blobs alone: a replay applies exactly when the primary is dirty and
   some log has a header; the hive becomes clean exactly when, besides, no log holds an entry or
   the highest entry sequence reaches both sequence numbers of the header.
   */
  predicate IsReport(input: ReplayInput, r: Option<ReplayReport>) {
    var all := AllVisited(Logs(input));
    match Header(input)
    case None => r == None
    case Some(base) =>
      && r.Some?
      && (r.value.applied <==> base.IsDirty() && Usable(input))
      && (r.value.becameClean <==>
            && base.IsDirty() && Usable(input)
            && (all == [] || (MaxSequence(all) >= base.primarySeq && MaxSequence(all) >= base.secondarySeq)))
      && r.value.entries == Cap(|all|) && r.value.dirtyPages == Cap(Pages(all))
      && r.value.format == (if all != [] then NewLog else if Usable(input) then OldLog else NoLog)
  }
  /** A log that can be used: present, with a whole header that begins with "regf". */
  predicate IsLog(log: Option<Bytes>) {
    log.Some? && |log.value| >= 4096 && BB.Regf(log.value)
  }

  /** The entries of a log, none if it cannot be used. */
  function EntriesOf(log: Option<Bytes>): seq<Entry> {
    if IsLog(log) then Walked(log.value) else []
  }

  lemma VisitedIs(blob: Bytes)
    ensures Visited(blob) == EntriesOf(Some(blob)) && (HasHeader(blob) <==> IsLog(Some(blob)))
  {
    hide Walked;
    NoSummary(blob);
  }

  lemma LogsOf(input: ReplayInput)
    ensures AllVisited(Logs(input)) == EntriesOf(input.log1) + EntriesOf(input.log2)
    ensures Usable(input) <==> IsLog(input.log1) || IsLog(input.log2)
  {
    hide EntriesOf, Visited, HasHeader, IsLog;
    NoEntries();
    if input.log1.Some? {
      VisitedIs(input.log1.value);
    }
    if input.log2.Some? {
      VisitedIs(input.log2.value);
    }
    var first, second := Present(input.log1), Present(input.log2);
    assert AllVisited(second) == EntriesOf(input.log2) by {
      if input.log2.Some? {
        assert second[1..] == [];
        assert AllVisited(second) == Visited(second[0]) + AllVisited([]) == Visited(second[0]);
      }
    }
    if input.log1.Some? {
      assert (first + second)[0] == input.log1.value && (first + second)[1..] == second;
      assert input.log1.value in Logs(input);
    } else {
      assert first + second == second;
    }
    if input.log2.Some? {
      assert Logs(input)[|first|] == input.log2.value;
    }
    assert forall b :: b in Logs(input) ==> Some(b) == input.log1 || Some(b) == input.log2;
  }

  lemma NoEntries()
    ensures EntriesOf(None) == [] && !IsLog(None) && AllVisited([]) == []
  {
  }

  /**
   What a report says, without reference to how it is put together: whether there is one, what it
   counts over both logs, and when it claims a replay or a clean hive.
   */
  lemma ReportMeaning(input: ReplayInput, r: Option<ReplayReport>)
    requires IsReport(input, r)
    ensures r.Some? <==> input.primary.Some? && |input.primary.value| >= 8 && BB.Regf(input.primary.value)
    ensures r.Some? ==>
      var base := BB.Parse(input.primary.value).0.value;
      var e1, e2 := EntriesOf(input.log1), EntriesOf(input.log2);
      var newest := Max(MaxSequence(e1), MaxSequence(e2));
      && r.value.entries == Min(|e1| + |e2|, 0xffff_ffff)
      && r.value.dirtyPages == Min(Pages(e1) + Pages(e2), 0xffff_ffff)
      && (r.value.format == NewLog <==> e1 != [] || e2 != [])
      && (r.value.format == NoLog <==> !IsLog(input.log1) && !IsLog(input.log2))
      && (r.value.applied <==> base.IsDirty() && (IsLog(input.log1) || IsLog(input.log2)))
      && (r.value.becameClean <==>
            r.value.applied
            && ((e1 == [] && e2 == []) || (newest >= base.primarySeq && newest >= base.secondarySeq)))
  {
    hide BB.Parse, Pages, MaxSequence, AllVisited, Logs, IsLog, EntriesOf, Usable;
    if input.primary.Some? {
      BB.ParseExact(input.primary.value);
    }
    LogsOf(input);
    TotalsConcat(EntriesOf(input.log1), EntriesOf(input.log2));
    NotLogNoEntries(input.log1);
    NotLogNoEntries(input.log2);
  }

  lemma NotLogNoEntries(log: Option<Bytes>)
    ensures EntriesOf(log) != [] ==> IsLog(log)
  {
    hide Walked;
  }
}
