/**
 The `read_hive` producer: one batch per non-empty file of a glob, resumable between batches, or
 the single batch of an in-memory blob. Reading files and building rows are parameters, fixed for
 the duration of a scan.
 */
module ReadHive {
  import opened LittleEndian
  import opened Cursor

  /** What the scan sees of the outside. */
  datatype Env<!Row> = Env(
    read: string -> Option<Bytes>,
    siblingLogs: string -> seq<Bytes>,
    buildRows: (Bytes, string, seq<Bytes>) -> seq<Row>)
  {
    /** The rows of one file; none when it cannot be read. */
    function RowsOf(file: string): seq<Row> {
      match read(file)
      case None => []
      case Some(bytes) => buildRows(bytes, file, siblingLogs(file))
    }
  }

  const BLOB_SOURCE: string := "<blob>"

  datatype PlanState = BlobState(bytes: Bytes, done: bool) | GlobState(cursor: CursorState)

  // ---------- one call, on values ----------

  /** Skip files without rows; stop at the first batch or at the end. */
  function NextGlob<Row>(env: Env<Row>, c: CursorState): (CursorState, Option<seq<Row>>)
    decreases |c.pending|, c.current.Some?
  {
    if c.current.None? then (c, None)
    else
      var rows := env.RowsOf(c.current.value);
      var next := Advanced(c);
      if rows != [] then (next, Some(rows))
      else if Done(next) then (next, None)
      else NextGlob(env, next)
  }

  function NextPlan<Row>(env: Env<Row>, s: PlanState): (PlanState, Option<seq<Row>>) {
    match s
    case BlobState(bytes, done) =>
      if done then (s, None) else (BlobState([], true), Some(env.buildRows(bytes, BLOB_SOURCE, [])))
    case GlobState(c) => var (next, batch) := NextGlob(env, c); (GlobState(next), batch)
  }

  function ResumeBytes(s: PlanState): Bytes {
    if s.GlobState? then Encode(s.cursor) else []
  }

  function Restored(s: PlanState, bytes: Bytes): PlanState {
    if s.GlobState? then GlobState(Decode(bytes)) else s
  }

  // ---------- the producer ----------

  datatype Plan = BlobPlan(bytes: Bytes, done: bool) | GlobPlan(cursor: HiveGlobCursor)

  class ReadHiveProducer<Row> {
    const env: Env<Row>
    var plan: Plan

    ghost function Repr(): set<object>
      reads this
    {
      {this} + if plan.GlobPlan? then {plan.cursor} else {}
    }

    function State(): PlanState
      reads this, Repr()
    {
      match plan
      case BlobPlan(bytes, done) => BlobState(bytes, done)
      case GlobPlan(cursor) => GlobState(cursor.State())
    }

    constructor Blob(env: Env<Row>, bytes: Bytes)
      ensures this.env == env && State() == BlobState(bytes, false) && fresh(Repr())
    {
      this.env := env;
      plan := BlobPlan(bytes, false);
    }

    constructor Glob(env: Env<Row>, files: seq<string>)
      ensures this.env == env && State() == GlobState(Opened(files)) && fresh(Repr())
    {
      var cursor := new HiveGlobCursor(files);
      this.env := env;
      plan := GlobPlan(cursor);
    }

    method NextBatch() returns (batch: Option<seq<Row>>)
      modifies Repr()
      ensures (State(), batch) == NextPlan(env, old(State()))
      ensures fresh(Repr() - old(Repr()))
    {
      match plan
      case BlobPlan(bytes, done) =>
        if done {
          return None;
        }
        plan := BlobPlan([], true);
        batch := Some(env.buildRows(bytes, BLOB_SOURCE, []));
      case GlobPlan(cursor) =>
        while true
          invariant plan == old(plan)
          invariant NextGlob(env, cursor.State()) == old(NextGlob(env, plan.cursor.State()))
          decreases |cursor.pendingFiles|, cursor.currentFile.Some?
        {
          if cursor.currentFile.None? {
            return None;
          }
          var file := cursor.currentFile.value;
          var rows: seq<Row> := [];
          var bytes := env.read(file);
          var logs := env.siblingLogs(file);
          if bytes.Some? {
            rows := env.buildRows(bytes.value, file, logs);
          }
          cursor.AdvanceFile();
          if rows == [] {
            if cursor.IsExhausted() {
              return None;
            }
          } else {
            return Some(rows);
          }
        }
    }

    function ResumeSupported(): (r: bool)
      reads this, Repr()
      ensures r == State().GlobState?
    {
      plan.GlobPlan?
    }

    method EncodeResume() returns (bytes: Bytes)
      ensures bytes == ResumeBytes(State())
      ensures if ResumeSupported() then Decode(bytes) == State().cursor else bytes == []
    {
      if plan.GlobPlan? {
        CursorRoundTrip(plan.cursor.State());
      }
      match plan
      case GlobPlan(cursor) => bytes := cursor.ToBytes();
      case BlobPlan(_, _) => bytes := [];
    }

    method RestoreResume(bytes: Bytes)
      modifies this
      ensures State() == Restored(old(State()), bytes)
      ensures fresh(Repr() - old(Repr()))
    {
      if plan.GlobPlan? {
        var cursor := new HiveGlobCursor.FromBytes(bytes);
        plan := GlobPlan(cursor);
      }
    }
  }

  // ---------- whole runs ----------

  /** The batches a scan owes: the non-empty row lists of the files, in file order. */
  function Batches<Row>(env: Env<Row>, files: seq<string>): seq<seq<Row>> {
    if files == [] then []
    else (if env.RowsOf(files[0]) == [] then [] else [env.RowsOf(files[0])]) + Batches(env, files[1..])
  }

  /** A cursor between files: no file in progress only when none is pending. */
  predicate Between(c: CursorState) {
    c.current.None? ==> c.pending == []
  }

  lemma {:induction false} NextGlobEmits<Row>(env: Env<Row>, c: CursorState)
    requires Between(c)
    ensures var (next, batch) := NextGlob(env, c); var owed := Batches(env, Remaining(c));
      && Between(next)
      && (owed == [] ==> batch == None && Remaining(next) == [])
      && (owed != [] ==> batch == Some(owed[0]) && Batches(env, Remaining(next)) == owed[1..])
    decreases |Remaining(c)|
  {
    if c.current.Some? {
      var next := Advanced(c);
      assert Remaining(c)[0] == c.current.value && Remaining(c)[1..] == c.pending;
      assert Remaining(next) == c.pending;
      var owed, rest := Batches(env, Remaining(c)), Batches(env, c.pending);
      if env.RowsOf(c.current.value) == [] {
        assert owed == rest;
        if Done(next) {
          assert c.pending == [];
        } else {
          NextGlobEmits(env, next);
        }
      } else {
        assert owed[1..] == rest;
      }
    }
  }

  /** A step of the caller: ask for a batch, or carry the position over into a fresh producer. */
  datatype Event = Next | Resume(files: seq<string>)

  /** The results of the `Next` events of a run over positions. */
  function Run<Row>(env: Env<Row>, s: PlanState, events: seq<Event>): seq<Option<seq<Row>>>
    decreases |events|
  {
    if events == [] then []
    else
      match events[0]
      case Next => var (next, batch) := NextPlan(env, s); [batch] + Run(env, next, events[1..])
      case Resume(files) => Run(env, Restored(GlobState(Opened(files)), ResumeBytes(s)), events[1..])
  }

  /** `results` are the owed batches in order, then only `None`. */
  predicate ExactlyOnce<Row(==)>(results: seq<Option<seq<Row>>>, owed: seq<seq<Row>>) {
    forall i :: 0 <= i < |results| ==> results[i] == if i < |owed| then Some(owed[i]) else None
  }

  lemma {:induction false} RunFrom<Row>(env: Env<Row>, c: CursorState, events: seq<Event>)
    requires Between(c)
    ensures ExactlyOnce(Run(env, GlobState(c), events), Batches(env, Remaining(c)))
    decreases |events|
  {
    hide NextGlob, Batches, Remaining, ExactlyOnce, Encode, Decode;
    if events == [] {
      OnceNone(Batches(env, Remaining(c)));
    } else if events[0].Next? {
      var (next, batch) := NextGlob(env, c);
      NextGlobEmits(env, c);
      RunFrom(env, next, events[1..]);
      NoBatches(env);
      OnceStep(batch, Run(env, GlobState(next), events[1..]), Batches(env, Remaining(c)),
               Batches(env, Remaining(next)));
    } else {
      CursorRoundTrip(c);
      RunFrom(env, c, events[1..]);
    }
  }

  lemma NoBatches<Row>(env: Env<Row>)
    ensures Batches(env, []) == []
  {
  }

  lemma OnceNone<Row>(owed: seq<seq<Row>>)
    ensures ExactlyOnce([], owed)
  {
  }

  lemma OnceStep<Row>(first: Option<seq<Row>>, later: seq<Option<seq<Row>>>, owed: seq<seq<Row>>, left: seq<seq<Row>>)
    requires ExactlyOnce(later, left)
    requires if owed == [] then first == None && left == [] else first == Some(owed[0]) && left == owed[1..]
    ensures ExactlyOnce([first] + later, owed)
  {
    var results := [first] + later;
    forall i | 0 <= i < |results|
      ensures results[i] == if i < |owed| then Some(owed[i]) else None
    {
      if i > 0 {
        assert results[i] == later[i - 1];
      }
    }
  }

  /**
   Exactly once: over any file list and any interleaving of batches with resumption in fresh
   producers, the results are the files' non-empty row lists, in order, each once, then `None`.
   */
  lemma ScanExactlyOnce<Row>(env: Env<Row>, files: seq<string>, events: seq<Event>)
    ensures ExactlyOnce(Run(env, GlobState(Opened(files)), events), Batches(env, files))
  {
    assert Remaining(Opened(files)) == files;
    RunFrom(env, Opened(files), events);
  }

  /** The same run on real producers. */
  method Scan<Row(==)>(env: Env<Row>, files: seq<string>, events: seq<Event>) returns (results: seq<Option<seq<Row>>>)
    ensures results == Run(env, GlobState(Opened(files)), events)
    ensures ExactlyOnce(results, Batches(env, files))
  {
    hide Run, NextPlan, Restored, ResumeBytes, Opened;
    var producer := new ReadHiveProducer<Row>.Glob(env, files);
    results := [];
    ghost var all := Run(env, GlobState(Opened(files)), events);
    for i := 0 to |events|
      invariant producer.env == env && producer.State().GlobState? && fresh(producer.Repr())
      invariant results + Run(env, producer.State(), events[i..]) == all
    {
      RunUnfold(env, producer.State(), events, i);
      if events[i].Next? {
        var batch := producer.NextBatch();
        results := results + [batch];
      } else {
        var bytes := producer.EncodeResume();
        producer := new ReadHiveProducer<Row>.Glob(env, events[i].files);
        producer.RestoreResume(bytes);
      }
    }
    RunEnd(env, producer.State());
    assert events[|events|..] == [] && results + [] == results;
    ScanExactlyOnce(env, files, events);
  }

  lemma RunUnfold<Row>(env: Env<Row>, s: PlanState, events: seq<Event>, i: nat)
    requires i < |events|
    ensures events[i].Next? ==>
      Run(env, s, events[i..]) == [NextPlan(env, s).1] + Run(env, NextPlan(env, s).0, events[i + 1..])
    ensures events[i].Resume? ==>
      Run(env, s, events[i..])
      == Run(env, Restored(GlobState(Opened(events[i].files)), ResumeBytes(s)), events[i + 1..])
    ensures s.GlobState? ==> NextPlan(env, s).0.GlobState?
    ensures events[i].Resume? ==> Restored(GlobState(Opened(events[i].files)), ResumeBytes(s)).GlobState?
  {
    assert events[i..][1..] == events[i + 1..];
  }

  lemma RunEnd<Row>(env: Env<Row>, s: PlanState)
    ensures Run(env, s, []) == []
  {
  }

  // ---------- blobs ----------

  /** What a caller may do with one producer. */
  datatype Call = Ask | Restore(bytes: Bytes)

  /** The results of the `Ask` calls. */
  function Calls<Row>(env: Env<Row>, s: PlanState, calls: seq<Call>): seq<Option<seq<Row>>>
    decreases |calls|
  {
    if calls == [] then []
    else
      match calls[0]
      case Ask => var (next, batch) := NextPlan(env, s); [batch] + Calls(env, next, calls[1..])
      case Restore(bytes) => Calls(env, Restored(s, bytes), calls[1..])
  }

  lemma {:induction false} BlobDone<Row>(env: Env<Row>, calls: seq<Call>)
    ensures ExactlyOnce(Calls(env, BlobState([], true), calls), [])
  {
    hide ExactlyOnce;
    OnceNone<Row>([]);
    if calls != [] {
      BlobDone(env, calls[1..]);
      OnceStep(None, Calls(env, BlobState([], true), calls[1..]), [], []);
    }
  }

  /** A blob is one batch, empty or not, and then nothing, whatever is restored in between. */
  lemma {:induction false} BlobOnce<Row>(env: Env<Row>, bytes: Bytes, calls: seq<Call>)
    ensures ExactlyOnce(Calls(env, BlobState(bytes, false), calls), [env.buildRows(bytes, "<blob>", [])])
  {
    hide ExactlyOnce;
    var owed := [env.buildRows(bytes, BLOB_SOURCE, [])];
    OnceNone(owed);
    if calls != [] {
      if calls[0].Ask? {
        BlobDone(env, calls[1..]);
        assert owed[1..] == [];
        OnceStep(Some(owed[0]), Calls(env, BlobState([], true), calls[1..]), owed, []);
      } else {
        BlobOnce(env, bytes, calls[1..]);
      }
    }
  }

  /** The same calls on a real producer of a blob. */
  method AskBlob<Row(==)>(env: Env<Row>, bytes: Bytes, calls: seq<Call>) returns (results: seq<Option<seq<Row>>>)
    ensures results == Calls(env, BlobState(bytes, false), calls)
    ensures ExactlyOnce(results, [env.buildRows(bytes, "<blob>", [])])
  {
    hide Calls, NextPlan, ExactlyOnce;
    var producer := new ReadHiveProducer<Row>.Blob(env, bytes);
    results := [];
    ghost var all := Calls(env, BlobState(bytes, false), calls);
    for i := 0 to |calls|
      invariant producer.env == env && !producer.ResumeSupported() && fresh(producer.Repr())
      invariant results + Calls(env, producer.State(), calls[i..]) == all
    {
      CallsUnfold(env, producer.State(), calls, i);
      if calls[i].Ask? {
        var batch := producer.NextBatch();
        results := results + [batch];
      } else {
        producer.RestoreResume(calls[i].bytes);
      }
    }
    CallsEnd(env, producer.State());
    assert calls[|calls|..] == [] && results + [] == results;
    BlobOnce(env, bytes, calls);
  }

  lemma CallsUnfold<Row>(env: Env<Row>, s: PlanState, calls: seq<Call>, i: nat)
    requires i < |calls| && s.BlobState?
    ensures NextPlan(env, s).0.BlobState?
    ensures calls[i].Ask? ==>
      Calls(env, s, calls[i..]) == [NextPlan(env, s).1] + Calls(env, NextPlan(env, s).0, calls[i + 1..])
    ensures calls[i].Restore? ==> Calls(env, s, calls[i..]) == Calls(env, s, calls[i + 1..])
  {
    assert calls[i..][1..] == calls[i + 1..];
  }

  lemma CallsEnd<Row>(env: Env<Row>, s: PlanState)
    ensures Calls(env, s, []) == []
  {
  }

  // ---------- positions that do not parse ----------

  /** A position that does not parse ends the scan: every later result is `None`. */
  lemma {:induction false} CorruptCursorEnds<Row>(env: Env<Row>, files: seq<string>, bytes: Bytes, events: seq<Event>)
    requires Parse(bytes) == None
    ensures ExactlyOnce(Run(env, Restored(GlobState(Opened(files)), bytes), events), [])
  {
    RunFrom(env, EXHAUSTED, events);
    assert Batches(env, Remaining(EXHAUSTED)) == [];
  }

  lemma {:induction false} RunLength<Row>(env: Env<Row>, s: PlanState, t: PlanState, events: seq<Event>)
    ensures |Run(env, s, events)| == |Run(env, t, events)|
    decreases |events|
  {
    hide NextPlan, Restored, ResumeBytes;
    if events != [] {
      match events[0]
      case Next => RunLength(env, NextPlan(env, s).0, NextPlan(env, t).0, events[1..]);
      case Resume(files) =>
        var blank := GlobState(Opened(files));
        RunLength(env, Restored(blank, ResumeBytes(s)), Restored(blank, ResumeBytes(t)), events[1..]);
    }
  }

  /** After unparsable bytes the scan goes on as if it had been started over. */
  ghost predicate StartsOver<Row(!new)>(env: Env<Row>, files: seq<string>, bytes: Bytes) {
    forall events: seq<Event> ::
      Run(env, Restored(GlobState(Opened(files)), bytes), events) == Run(env, GlobState(Opened(files)), events)
  }

  /** Ending the scan is starting over exactly when no file of the list has a row. */
  lemma StartsOverExactly<Row(!new)>(env: Env<Row>, files: seq<string>, bytes: Bytes)
    requires Parse(bytes) == None
    ensures StartsOver(env, files, bytes) <==> Batches(env, files) == []
  {
    hide Run, Batches, Opened;
    var corrupt, start := Restored(GlobState(Opened(files)), bytes), GlobState(Opened(files));
    if Batches(env, files) == [] {
      forall events: seq<Event>
        ensures Run(env, corrupt, events) == Run(env, start, events)
      {
        CorruptCursorEnds(env, files, bytes, events);
        ScanExactlyOnce(env, files, events);
        RunLength(env, corrupt, start, events);
      }
    } else {
      CorruptCursorEnds(env, files, bytes, [Next]);
      ScanExactlyOnce(env, files, [Next]);
      RunOne(env, corrupt);
      RunOne(env, start);
      assert Run(env, corrupt, [Next])[0] != Run(env, start, [Next])[0];
    }
  }

  lemma RunOne<Row>(env: Env<Row>, s: PlanState)
    ensures |Run(env, s, [Next])| == 1
  {
    assert Run(env, NextPlan(env, s).0, []) == [];
  }

  /** One file with one row, and no bytes for a position: started over it is emitted, restored it is lost. */
  lemma EmptyPositionLosesAFile()
    ensures var env: Env<int> := Env(_ => Some([]), _ => [], (_, _, _) => [7]);
      !StartsOver(env, ["a.dat"], [])
  {
    var env: Env<int> := Env(_ => Some([]), _ => [], (_, _, _) => [7]);
    EmptyIsExhausted();
    assert env.RowsOf("a.dat") == [7];
    assert Batches(env, ["a.dat"]) == [[7]] + Batches(env, []);
    StartsOverExactly(env, ["a.dat"], []);
  }

  // ---------- the row offset of a position ----------

  /** The row offset a cursor carries has no influence: a file in progress is emitted from its first row. */
  lemma {:induction false} OffsetIgnored<Row>(env: Env<Row>, c: CursorState, emitted: u64, events: seq<Event>)
    ensures Run(env, GlobState(c.(emitted := emitted)), events) == Run(env, GlobState(c), events)
    decreases |events|
  {
    hide Encode, Decode;
    var other := c.(emitted := emitted);
    if events != [] {
      if events[0].Next? {
        assert Advanced(other) == Advanced(c);
        if c.current.None? {
          OffsetIgnored(env, c, emitted, events[1..]);
        }
      } else {
        CursorRoundTrip(c);
        CursorRoundTrip(other);
        OffsetIgnored(env, c, emitted, events[1..]);
      }
    }
  }

  /** What the row offset is documented to mean: the file in progress is owed from that row on. */
  function OwedFromOffset<Row>(env: Env<Row>, c: CursorState): seq<seq<Row>> {
    if c.current.None? then Batches(env, c.pending)
    else
      var rows := env.RowsOf(c.current.value);
      var left := if c.emitted < |rows| then rows[c.emitted..] else [];
      (if left == [] then [] else [left]) + Batches(env, c.pending)
  }

  /** In every run from this position the results are those batches, each once. */
  ghost predicate ResumesAtOffset<Row(!new)>(env: Env<Row>, c: CursorState) {
    forall events: seq<Event> :: ExactlyOnce(Run(env, GlobState(c), events), OwedFromOffset(env, c))
  }

  function Nexts(n: nat): (r: seq<Event>)
    ensures |r| == n
  {
    if n == 0 then [] else [Next] + Nexts(n - 1)
  }

  lemma {:induction false} NextsLength<Row>(env: Env<Row>, s: PlanState, n: nat)
    ensures |Run(env, s, Nexts(n))| == n
    decreases n
  {
    hide NextPlan;
    if n > 0 {
      assert Nexts(n)[1..] == Nexts(n - 1);
      NextsLength(env, NextPlan(env, s).0, n - 1);
    }
  }

  lemma SomeWithin<Row>(results: seq<Option<seq<Row>>>, owed: seq<seq<Row>>, i: nat)
    requires ExactlyOnce(results, owed) && i < |results|
    ensures results[i] == if i < |owed| then Some(owed[i]) else None
  {
  }

  /** Long runs determine what is owed. */
  lemma OwedOnce<Row>(results: seq<Option<seq<Row>>>, a: seq<seq<Row>>, b: seq<seq<Row>>)
    requires ExactlyOnce(results, a) && ExactlyOnce(results, b) && |results| == Max(|a|, |b|)
    ensures a == b
  {
    hide ExactlyOnce;
    if |a| != |b| {
      var i := Min(|a|, |b|);
      SomeWithin(results, a, i);
      SomeWithin(results, b, i);
    } else {
      forall i | 0 <= i < |a|
        ensures a[i] == b[i]
      {
        SomeWithin(results, a, i);
        SomeWithin(results, b, i);
      }
    }
  }

  /** So the scan resumes at the row a position names exactly when that is the first, or there are none. */
  lemma ResumesAtOffsetExactly<Row(!new)>(env: Env<Row>, c: CursorState)
    requires Between(c)
    ensures ResumesAtOffset(env, c)
       <==> c.current.None? || c.emitted == 0 || env.RowsOf(c.current.value) == []
  {
    hide Run, ExactlyOnce, Nexts;
    var owed, all := OwedFromOffset(env, c), Batches(env, Remaining(c));
    OffsetOwed(env, c);
    if owed == all {
      forall events: seq<Event>
        ensures ExactlyOnce(Run(env, GlobState(c), events), owed)
      {
        RunFrom(env, c, events);
      }
    } else {
      var n := Max(|owed|, |all|);
      var results := Run(env, GlobState(c), Nexts(n));
      RunFrom(env, c, Nexts(n));
      NextsLength(env, GlobState(c), n);
      if ExactlyOnce(results, owed) {
        OwedOnce(results, owed, all);
      }
    }
  }

  lemma OffsetOwed<Row>(env: Env<Row>, c: CursorState)
    requires Between(c)
    ensures OwedFromOffset(env, c) == Batches(env, Remaining(c))
       <==> c.current.None? || c.emitted == 0 || env.RowsOf(c.current.value) == []
  {
    if c.current.Some? {
      var rows, rest := env.RowsOf(c.current.value), Batches(env, c.pending);
      assert Remaining(c)[0] == c.current.value && Remaining(c)[1..] == c.pending;
      assert Batches(env, Remaining(c)) == (if rows == [] then [] else [rows]) + rest;
      if c.emitted > 0 && rows != [] {
        assert ([rows] + rest)[0] == rows;
      }
    }
  }

  /** The positions a run carries over from one producer to the next. */
  function Saved<Row>(env: Env<Row>, s: PlanState, events: seq<Event>): seq<Bytes>
    decreases |events|
  {
    if events == [] then []
    else
      match events[0]
      case Next => Saved(env, NextPlan(env, s).0, events[1..])
      case Resume(files) =>
        [ResumeBytes(s)] + Saved(env, Restored(GlobState(Opened(files)), ResumeBytes(s)), events[1..])
  }

  /** At the start of a file: nothing of it is emitted yet, and no file is pending behind no file. */
  predicate AtFileStart(c: CursorState) {
    Between(c) && c.emitted == 0
  }

  lemma {:induction false} NextGlobStarts<Row>(env: Env<Row>, c: CursorState)
    requires AtFileStart(c)
    ensures AtFileStart(NextGlob(env, c).0)
    decreases |c.pending|, c.current.Some?
  {
    if c.current.Some? && env.RowsOf(c.current.value) == [] && !Done(Advanced(c)) {
      NextGlobStarts(env, Advanced(c));
    }
  }

  lemma {:induction false} SavedFrom<Row>(env: Env<Row>, c: CursorState, events: seq<Event>)
    requires AtFileStart(c)
    ensures forall bytes :: bytes in Saved(env, GlobState(c), events) ==> AtFileStart(Decode(bytes))
    decreases |events|
  {
    hide AtFileStart, Encode, Decode, NextGlob;
    if events != [] {
      if events[0].Next? {
        NextGlobStarts(env, c);
        SavedFrom(env, NextGlob(env, c).0, events[1..]);
      } else {
        CursorRoundTrip(c);
        SavedFrom(env, c, events[1..]);
      }
    }
  }

  /** Every position any run serializes lies at the start of a file, so ignoring the row offset is harmless. */
  lemma SavedAtFileStart<Row>(env: Env<Row>, files: seq<string>, events: seq<Event>)
    ensures forall bytes :: bytes in Saved(env, GlobState(Opened(files)), events) ==> AtFileStart(Decode(bytes))
  {
    SavedFrom(env, Opened(files), events);
  }
}
