/**
 Walking a hive's keys into rows. The parser's output is a sequence of key records; this module
 normalizes paths, filters by subtree, and tags recovered rows.
 */
module Walk {
  import opened LittleEndian
  import opened Text
  import VT = ValueType

  datatype Mode = Values | Keys | All

  datatype ValueRecord = ValueRecord(name: string, typeRaw: u32, raw: Bytes, deleted: bool)

  datatype KeyRecord = KeyRecord(path: string, deleted: bool, lastWrite: int, values: seq<ValueRecord>)

  datatype Row = Row(
    keyPath: string,
    valueName: Option<string>,
    valueType: Option<u32>,
    valueData: Option<string>,
    valueRaw: Option<Bytes>,
    valueDword: Option<int>,
    lastWrite: int,
    deleted: bool,
    hiveType: string,
    source: string,
    recovery: Option<string>,
    diagnostics: Option<string>)

  /** The per-hive arguments of a walk. */
  datatype Hive = Hive(
    rootName: string,
    hiveType: string,
    source: string,
    baseRecovery: Option<string>,
    hiveDiag: Option<string>)

  const SEP: char := '\\'
  const LOGS_APPLIED: string := "logs-applied"
  const DIRTY_NO_LOGS: string := "dirty-no-logs"
  const DELETED_ORPHAN: string := "deleted-orphan"
  const DELETED_REPARENTED: string := "deleted-reparented"
  const DELETED_PREFIX: string := "$Deleted\\"

  function BaseRecoveryLabel(wasDirty: bool, logsPresent: bool, applyLogs: bool): Option<string> {
    if !wasDirty then None
    else if applyLogs && logsPresent then Some(LOGS_APPLIED)
    else Some(DIRTY_NO_LOGS)
  }

  // ---------- paths ----------

  /** The path from the hive root, and whether the key does not descend from the root. */
  function Normalize(path: string, rootName: string): (string, bool) {
    var p := if [SEP] <= path then path[1..] else path;
    if rootName != "" && p == rootName then ("", false)
    else if rootName != "" && StripPrefix(p, rootName + [SEP]).Some? then
      (StripPrefix(p, rootName + [SEP]).value, false)
    else if rootName == "" && p == "" then ("", false)
    else (DELETED_PREFIX + p, true)
  }

  function DeletedLabel(isOrphan: bool): string {
    if isOrphan then DELETED_ORPHAN else DELETED_REPARENTED
  }

  function LowerChar(c: char): char {
    if 'A' <= c <= 'Z' then c - 'A' + 'a' else c
  }

  function Lower(s: string): (r: string)
    ensures |r| == |s|
  {
    if s == "" then "" else [LowerChar(s[0])] + Lower(s[1..])
  }

  function TrimStart(s: string): string {
    if s == "" || s[0] != SEP then s else TrimStart(s[1..])
  }

  function NormalizeFilter(f: string): string {
    Lower(TrimStart(f))
  }

  predicate SubtreeMatch(keyPath: string, filterLower: string) {
    filterLower == "" || Lower(keyPath) == filterLower || filterLower + [SEP] <= Lower(keyPath)
  }

  // ---------- rows ----------

  function KeyRow(h: Hive, key: KeyRecord): Row {
    var (path, isOrphan) := Normalize(key.path, h.rootName);
    Row(path, None, None, None, None, None, key.lastWrite, key.deleted, h.hiveType, h.source,
        if key.deleted then Some(DeletedLabel(isOrphan)) else h.baseRecovery, h.hiveDiag)
  }

  function ValueRow(h: Hive, key: KeyRecord, v: ValueRecord): Row {
    var (path, isOrphan) := Normalize(key.path, h.rootName);
    var c := VT.Coerce(v.typeRaw, v.raw);
    var deleted := key.deleted || v.deleted;
    Row(path, if v.name == "" then None else Some(v.name), Some(v.typeRaw), Some(c.valueData), Some(v.raw),
        c.valueDword, key.lastWrite, deleted, h.hiveType, h.source,
        if deleted then Some(DeletedLabel(isOrphan)) else h.baseRecovery,
        if c.diagnostics.Some? then c.diagnostics else h.hiveDiag)
  }

  function ValueRows(h: Hive, key: KeyRecord, values: seq<ValueRecord>): (r: seq<Row>)
    ensures |r| == |values|
  {
    if values == [] then [] else [ValueRow(h, key, values[0])] + ValueRows(h, key, values[1..])
  }

  predicate WantsKeyRow(mode: Mode, key: KeyRecord) {
    mode != Values || key.values == []
  }

  function RowsOfKey(h: Hive, mode: Mode, key: KeyRecord): seq<Row> {
    (if WantsKeyRow(mode, key) then [KeyRow(h, key)] else [])
    + (if mode != Keys then ValueRows(h, key, key.values) else [])
  }

  predicate Kept(h: Hive, filter: Option<string>, key: KeyRecord) {
    filter.None? || SubtreeMatch(Normalize(key.path, h.rootName).0, NormalizeFilter(filter.value))
  }

  function Rows(h: Hive, mode: Mode, filter: Option<string>, keys: seq<KeyRecord>): seq<Row> {
    if keys == [] then []
    else (if Kept(h, filter, keys[0]) then RowsOfKey(h, mode, keys[0]) else []) + Rows(h, mode, filter, keys[1..])
  }

  method Walk(h: Hive, mode: Mode, filter: Option<string>, keys: seq<KeyRecord>) returns (rows: seq<Row>)
    ensures rows == Rows(h, mode, filter, keys)
  {
    hide RowsOfKey, NormalizeFilter, SubtreeMatch, Normalize, Rows;
    rows := [];
    for i := 0 to |keys|
      invariant rows + Rows(h, mode, filter, keys[i..]) == Rows(h, mode, filter, keys)
    {
      RowsUnfold(h, mode, filter, keys, i);
      var key := keys[i];
      ghost var before, rest := rows, Rows(h, mode, filter, keys[i + 1..]);
      if filter.Some? && !SubtreeMatch(Normalize(key.path, h.rootName).0, NormalizeFilter(filter.value)) {
        continue;
      }
      rows := PushKey(h, mode, key, rows);
      Regroup(before, RowsOfKey(h, mode, key), rest);
    }
    NoRows(h, mode, filter);
    assert keys[|keys|..] == [];
  }

  lemma RowsUnfold(h: Hive, mode: Mode, filter: Option<string>, keys: seq<KeyRecord>, i: nat)
    requires i < |keys|
    ensures var rest := Rows(h, mode, filter, keys[i + 1..]);
      Rows(h, mode, filter, keys[i..]) == if Kept(h, filter, keys[i]) then RowsOfKey(h, mode, keys[i]) + rest else rest
  {
    hide RowsOfKey, Kept;
    assert keys[i..][1..] == keys[i + 1..];
  }

  lemma NoRows(h: Hive, mode: Mode, filter: Option<string>)
    ensures Rows(h, mode, filter, []) == []
  {
  }

  /** The body of the walk for one key that passed the filter. */
  method PushKey(h: Hive, mode: Mode, key: KeyRecord, before: seq<Row>) returns (rows: seq<Row>)
    ensures rows == before + RowsOfKey(h, mode, key)
  {
    hide KeyRow, ValueRow;
    rows := before;
    ghost var head := if WantsKeyRow(mode, key) then [KeyRow(h, key)] else [];
    Regroup(before, head, ValueRows(h, key, key.values));
    var wantKeyRow := match mode { case Keys => true case All => true case Values => key.values == [] };
    if wantKeyRow {
      rows := rows + [KeyRow(h, key)];
    }
    assert rows == before + head;
    if mode == Values || mode == All {
      ghost var start := rows;
      for i := 0 to |key.values|
        invariant rows + ValueRows(h, key, key.values[i..]) == start + ValueRows(h, key, key.values)
      {
        assert key.values[i..][1..] == key.values[i + 1..];
        Regroup(rows, [ValueRow(h, key, key.values[i])], ValueRows(h, key, key.values[i + 1..]));
        rows := rows + [ValueRow(h, key, key.values[i])];
      }
    }
  }

  // ---------- filter push-down ----------

  function Select(rows: seq<Row>, filterLower: string): seq<Row> {
    if rows == [] then []
    else (if SubtreeMatch(rows[0].keyPath, filterLower) then [rows[0]] else []) + Select(rows[1..], filterLower)
  }

  lemma {:induction false} SelectConcat(a: seq<Row>, b: seq<Row>, f: string)
    ensures Select(a + b, f) == Select(a, f) + Select(b, f)
  {
    hide SubtreeMatch;
    if a == [] {
      assert a + b == b;
    } else {
      var head := if SubtreeMatch(a[0].keyPath, f) then [a[0]] else [];
      assert (a + b)[0] == a[0] && (a + b)[1..] == a[1..] + b;
      SelectConcat(a[1..], b, f);
      Regroup(head, Select(a[1..], f), Select(b, f));
    }
  }

  lemma {:induction false} SelectUniform(rows: seq<Row>, path: string, f: string)
    requires forall r :: r in rows ==> r.keyPath == path
    ensures Select(rows, f) == if SubtreeMatch(path, f) then rows else []
  {
    hide SubtreeMatch;
    if rows != [] {
      assert rows[0] in rows && forall r :: r in rows[1..] ==> r in rows;
      SelectUniform(rows[1..], path, f);
      assert rows == [rows[0]] + rows[1..];
    }
  }

  lemma {:induction false} ValueRowsAre(h: Hive, key: KeyRecord, values: seq<ValueRecord>)
    ensures forall r :: r in ValueRows(h, key, values) ==> exists v :: v in values && r == ValueRow(h, key, v)
  {
    hide ValueRow;
    if values != [] {
      ValueRowsAre(h, key, values[1..]);
      assert values == [values[0]] + values[1..];
    }
  }

  lemma RowsOfKeyPath(h: Hive, mode: Mode, key: KeyRecord)
    ensures forall r :: r in RowsOfKey(h, mode, key) ==> r.keyPath == Normalize(key.path, h.rootName).0
  {
    hide Normalize, VT.Coerce;
    ValueRowsAre(h, key, key.values);
  }

  /** A subtree scan is the full scan with the rows outside the subtree dropped, in every mode. */
  lemma {:induction false} FilterPushDown(h: Hive, mode: Mode, f: string, keys: seq<KeyRecord>)
    ensures Rows(h, mode, Some(f), keys) == Select(Rows(h, mode, None, keys), NormalizeFilter(f))
  {
    hide RowsOfKey, SubtreeMatch, NormalizeFilter, Normalize;
    if keys != [] {
      var n := NormalizeFilter(f);
      FilterPushDown(h, mode, f, keys[1..]);
      RowsOfKeyPath(h, mode, keys[0]);
      SelectUniform(RowsOfKey(h, mode, keys[0]), Normalize(keys[0].path, h.rootName).0, n);
      SelectConcat(RowsOfKey(h, mode, keys[0]), Rows(h, mode, None, keys[1..]), n);
    }
  }

  // ---------- what a filter matches ----------

  /** The backslash-separated components; a path without separators is one component. */
  function Components(path: string): (r: seq<string>)
    ensures |r| >= 1
  {
    Split(path, SEP)
  }

  function LowerAll(parts: seq<string>): (r: seq<string>)
    ensures |r| == |parts|
  {
    if parts == [] then [] else [Lower(parts[0])] + LowerAll(parts[1..])
  }

  lemma {:induction false} SplitLower(s: string)
    ensures Components(Lower(s)) == LowerAll(Components(s))
  {
    if s != "" {
      SplitLower(s[1..]);
      assert Lower(s)[1..] == Lower(s[1..]);
      var rest := Components(s[1..]);
      assert LowerChar(s[0]) == SEP <==> s[0] == SEP;
      if s[0] != SEP {
        var joined := [s[0]] + rest[0];
        assert joined[1..] == rest[0];
        assert Components(s)[1..] == rest[1..];
        assert LowerAll(rest)[0] == Lower(rest[0]) && LowerAll(rest)[1..] == LowerAll(rest[1..]);
      } else {
        assert Components(s)[1..] == rest;
      }
    }
  }

  /** Equality or a prefix up to a separator is the prefix relation on components. */
  lemma {:induction false} ComponentPrefix(f: string, p: string)
    ensures f == p || f + [SEP] <= p <==> Components(f) <= Components(p)
    decreases |f|
  {
    if f == "" {
      if p != "" {
        assert p[0] == SEP <==> Components(p)[0] == "";
      }
    } else if p == "" {
      if f[0] != SEP {
        assert Components(f)[0] != "";
      }
    } else {
      ComponentPrefix(f[1..], p[1..]);
      var sf, sp := Components(f[1..]), Components(p[1..]);
      assert f == [f[0]] + f[1..] && p == [p[0]] + p[1..];
      assert f + [SEP] <= p <==> f[0] == p[0] && f[1..] + [SEP] <= p[1..] by {
        assert f + [SEP] == [f[0]] + (f[1..] + [SEP]);
        HeadTail(f + [SEP], p);
        assert (f + [SEP])[1..] == f[1..] + [SEP];
      }
      SplitStep(f[0], sf, p[0], sp);
    }
  }

  lemma HeadTail(a: string, b: string)
    requires a != "" && b != ""
    ensures a <= b <==> a[0] == b[0] && a[1..] <= b[1..]
  {
    if a[0] == b[0] && a[1..] <= b[1..] {
      assert a == [a[0]] + a[1..];
      assert b == [b[0]] + b[1..];
    }
  }

  function Extended(c: char, parts: seq<string>): seq<string>
    requires |parts| >= 1
  {
    if c == SEP then [""] + parts else [[c] + parts[0]] + parts[1..]
  }

  lemma SplitStep(c: char, sf: seq<string>, d: char, sp: seq<string>)
    requires |sf| >= 1 && |sp| >= 1
    ensures Extended(c, sf) <= Extended(d, sp) <==> c == d && sf <= sp
  {
    var ef, ep := Extended(c, sf), Extended(d, sp);
    if ef <= ep {
      assert c == SEP <==> ef[0] == "";
      assert d == SEP <==> ep[0] == "";
      assert ef[0] == ep[0];
      if c != SEP {
        assert ef[0][0] == c && ep[0][0] == d;
      }
      if c == SEP {
        assert sf == ef[1..] && sp == ep[1..];
        assert forall i :: 0 <= i < |sf| ==> sf[i] == ef[i + 1] == ep[i + 1];
      } else {
        assert sf[0] == ef[0][1..] && sp[0] == ep[0][1..];
        assert forall i :: 1 <= i < |sf| ==> sf[i] == ef[i] == ep[i];
      }
    }
  }

  /** Equal, or the two cases of one of the letters A to Z, which lie 32 apart. */
  predicate SameLetter(c: char, d: char) {
    c == d || ('A' <= c <= 'Z' && d as int == c as int + 32) || ('A' <= d <= 'Z' && c as int == d as int + 32)
  }

  predicate SameText(a: string, b: string) {
    |a| == |b| && forall i :: 0 <= i < |a| ==> SameLetter(a[i], b[i])
  }

  lemma SameLower(c: char, d: char)
    ensures LowerChar(c) == LowerChar(d) <==> SameLetter(c, d)
  {
  }

  lemma {:induction false} LowerExact(a: string, b: string)
    ensures Lower(a) == Lower(b) <==> SameText(a, b)
  {
    if a != "" && b != "" {
      LowerExact(a[1..], b[1..]);
      SameLower(a[0], b[0]);
      assert Lower(a)[1..] == Lower(a[1..]) && Lower(b)[1..] == Lower(b[1..]);
      assert Lower(a)[0] == LowerChar(a[0]) && Lower(b)[0] == LowerChar(b[0]);
      assert SameText(a, b) <==> SameLetter(a[0], b[0]) && SameText(a[1..], b[1..]) by {
        if SameLetter(a[0], b[0]) && SameText(a[1..], b[1..]) {
          forall i | 0 <= i < |a|
            ensures SameLetter(a[i], b[i])
          {
            if i > 0 {
              assert a[i] == a[1..][i - 1] && b[i] == b[1..][i - 1];
            }
          }
        }
      }
    }
  }

  /** The first components of `path` are `parts`, but for the case of letters. */
  predicate LeadsTo(parts: seq<string>, path: seq<string>) {
    |parts| <= |path| && forall i :: 0 <= i < |parts| ==> SameText(parts[i], path[i])
  }

  lemma {:induction false} LowerAllPrefix(parts: seq<string>, path: seq<string>)
    ensures LowerAll(parts) <= LowerAll(path) <==> LeadsTo(parts, path)
  {
    hide SameText, Lower;
    if parts != [] && path != [] {
      LowerAllPrefix(parts[1..], path[1..]);
      LowerExact(parts[0], path[0]);
      PrefixHead(LowerAll(parts), LowerAll(path));
      assert LowerAll(parts)[1..] == LowerAll(parts[1..]) && LowerAll(path)[1..] == LowerAll(path[1..]);
      assert LeadsTo(parts, path) <==> SameText(parts[0], path[0]) && LeadsTo(parts[1..], path[1..]) by {
        if SameText(parts[0], path[0]) && LeadsTo(parts[1..], path[1..]) {
          forall i | 0 <= i < |parts|
            ensures SameText(parts[i], path[i])
          {
            if i > 0 {
              assert parts[i] == parts[1..][i - 1] && path[i] == path[1..][i - 1];
            }
          }
        }
      }
    }
  }

  lemma PrefixHead(a: seq<string>, b: seq<string>)
    requires a != [] && b != []
    ensures a <= b <==> a[0] == b[0] && a[1..] <= b[1..]
  {
    if a[0] == b[0] && a[1..] <= b[1..] {
      assert a == [a[0]] + a[1..];
      assert b == [b[0]] + b[1..];
    }
  }

  function Backslashes(n: nat): string {
    seq(n, _ => SEP)
  }

  lemma OneMore(n: nat, s: string)
    ensures [SEP] + (Backslashes(n) + s) == Backslashes(n + 1) + s
  {
    assert Backslashes(n + 1) == [SEP] + Backslashes(n);
  }

  /** A filter loses its leading backslashes and nothing else. */
  lemma {:induction false} TrimExact(f: string)
    ensures |TrimStart(f)| <= |f| && f == Backslashes(|f| - |TrimStart(f)|) + TrimStart(f)
    ensures TrimStart(f) == "" || TrimStart(f)[0] != SEP
  {
    hide Backslashes;
    if f != "" && f[0] == SEP {
      var trimmed := TrimStart(f[1..]);
      TrimExact(f[1..]);
      OneMore(|f[1..]| - |trimmed|, trimmed);
      assert f == [SEP] + f[1..];
    } else {
      assert Backslashes(0) + f == f by { NoBackslashes(); }
    }
  }

  lemma NoBackslashes()
    ensures Backslashes(0) == ""
  {
  }

  /**
   A filter that is more than leading backslashes matches exactly the paths whose first components
   are its own but for the case of the letters A to Z; any other filter matches every path. No other
   difference between two characters is ignored.
   */
  lemma FilterMeaning(keyPath: string, f: string)
    ensures SubtreeMatch(keyPath, NormalizeFilter(f))
       <==> TrimStart(f) == "" || LeadsTo(Components(TrimStart(f)), Components(keyPath))
  {
    hide Components, LeadsTo;
    ComponentPrefix(NormalizeFilter(f), Lower(keyPath));
    SplitLower(TrimStart(f));
    SplitLower(keyPath);
    LowerAllPrefix(Components(TrimStart(f)), Components(keyPath));
  }

  lemma {:induction false} TrimConcat(a: string, b: string)
    ensures TrimStart(a + b) == if TrimStart(a) == "" then TrimStart(b) else TrimStart(a) + b
    ensures |TrimStart(a)| <= |a|
  {
    if a == "" {
      assert a + b == b;
    } else {
      assert (a + b)[1..] == a[1..] + b;
      TrimConcat(a[1..], b);
    }
  }

  /** The two filters let the same paths through. */
  ghost predicate SameFilter(f: string, g: string) {
    forall path :: SubtreeMatch(path, NormalizeFilter(f)) <==> SubtreeMatch(path, NormalizeFilter(g))
  }

  /**
   A leading root-name segment in a filter makes no difference exactly when the root name is nothing
   but backslashes; otherwise it is not stripped, and the path the rest names is not found.
   */
  lemma RootSegmentKept(rootName: string, f: string)
    ensures SameFilter(rootName + [SEP] + f, f) <==> TrimStart(rootName) == ""
  {
    hide SubtreeMatch;
    var a := rootName + [SEP];
    TrimConcat(rootName, [SEP]);
    TrimConcat(a, f);
    if TrimStart(rootName) != "" {
      var path := TrimStart(f);
      TrimConcat(f, "");
      LongFilterMisses(path, NormalizeFilter(a + f));
      LongFilterMisses(path, NormalizeFilter(f));
      assert SubtreeMatch(path, NormalizeFilter(f));
      assert !SubtreeMatch(path, NormalizeFilter(a + f));
    }
  }

  /** A filter longer than the path does not match it; one that is the path does. */
  lemma LongFilterMisses(path: string, filterLower: string)
    ensures |filterLower| > |path| ==> !SubtreeMatch(path, filterLower)
    ensures filterLower == Lower(path) ==> SubtreeMatch(path, filterLower)
  {
  }

  /** With the root's name in front, as the parser reports paths, a filter misses the subtree it names. */
  lemma RootSegmentMisses()
    ensures SubtreeMatch("Software", NormalizeFilter("\\Software"))
    ensures !SubtreeMatch("Software", NormalizeFilter("\\ROOT\\Software"))
  {
    hide SubtreeMatch, Lower;
    var f, g := "Software", "ROOT\\Software";
    assert ("\\" + f)[1..] == f && ("\\" + g)[1..] == g;
    assert TrimStart("\\" + f) == f && TrimStart("\\" + g) == g;
    assert "\\Software" == "\\" + f && "\\ROOT\\Software" == "\\" + g;
    LongFilterMisses(f, Lower(f));
    LongFilterMisses(f, Lower(g));
  }

  // ---------- modes ----------

  predicate IsKeyRow(r: Row) {
    r.valueType.None?
  }

  function OfKind(rows: seq<Row>, keyRows: bool): seq<Row> {
    if rows == [] then []
    else (if IsKeyRow(rows[0]) == keyRows then [rows[0]] else []) + OfKind(rows[1..], keyRows)
  }

  lemma {:induction false} OfKindConcat(a: seq<Row>, b: seq<Row>, keyRows: bool)
    ensures OfKind(a + b, keyRows) == OfKind(a, keyRows) + OfKind(b, keyRows)
  {
    if a == [] {
      assert a + b == b;
    } else {
      var head := if IsKeyRow(a[0]) == keyRows then [a[0]] else [];
      assert (a + b)[0] == a[0] && (a + b)[1..] == a[1..] + b;
      OfKindConcat(a[1..], b, keyRows);
      Regroup(head, OfKind(a[1..], keyRows), OfKind(b, keyRows));
    }
  }

  lemma {:induction false} OfKindValueRows(h: Hive, key: KeyRecord, values: seq<ValueRecord>)
    ensures OfKind(ValueRows(h, key, values), false) == ValueRows(h, key, values)
    ensures OfKind(ValueRows(h, key, values), true) == []
  {
    hide Normalize, VT.Coerce;
    if values != [] {
      OfKindValueRows(h, key, values[1..]);
      var rows := ValueRows(h, key, values);
      assert rows[1..] == ValueRows(h, key, values[1..]);
      assert !IsKeyRow(rows[0]);
    }
  }

  lemma HeadKind(h: Hive, key: KeyRecord)
    ensures OfKind([KeyRow(h, key)], true) == [KeyRow(h, key)] && OfKind([KeyRow(h, key)], false) == []
    ensures OfKind([], true) == [] && OfKind([], false) == []
  {
    hide Normalize;
    assert [KeyRow(h, key)][1..] == [];
  }

  lemma OfKindKey(h: Hive, mode: Mode, key: KeyRecord)
    ensures OfKind(RowsOfKey(h, mode, key), true) == if WantsKeyRow(mode, key) then [KeyRow(h, key)] else []
    ensures OfKind(RowsOfKey(h, mode, key), false) == if mode != Keys then ValueRows(h, key, key.values) else []
  {
    hide Normalize, ValueRows, KeyRow, OfKind;
    var head := if WantsKeyRow(mode, key) then [KeyRow(h, key)] else [];
    var tail := if mode != Keys then ValueRows(h, key, key.values) else [];
    HeadKind(h, key);
    OfKindValueRows(h, key, key.values);
    OfKindConcat(head, tail, true);
    OfKindConcat(head, tail, false);
  }

  /**
   All mode merges, each in its own order, the rows of Keys mode and the value rows of Values mode;
   Values mode adds to those the row of each key without values.
   */
  lemma {:induction false} ModesAgree(h: Hive, filter: Option<string>, keys: seq<KeyRecord>)
    ensures OfKind(Rows(h, All, filter, keys), true) == Rows(h, Keys, filter, keys)
    ensures OfKind(Rows(h, All, filter, keys), false) == OfKind(Rows(h, Values, filter, keys), false)
    ensures OfKind(Rows(h, Values, filter, keys), true) == Rows(h, Keys, filter, Valueless(keys))
  {
    hide RowsOfKey, Kept, ValueRows, KeyRow;
    if keys != [] {
      var key, rest := keys[0], keys[1..];
      ModesAgree(h, filter, rest);
      ModesAgreeHead(h, filter, keys);
    }
  }

  lemma ModesAgreeHead(h: Hive, filter: Option<string>, keys: seq<KeyRecord>)
    requires keys != []
    requires OfKind(Rows(h, All, filter, keys[1..]), true) == Rows(h, Keys, filter, keys[1..])
    requires OfKind(Rows(h, All, filter, keys[1..]), false) == OfKind(Rows(h, Values, filter, keys[1..]), false)
    requires OfKind(Rows(h, Values, filter, keys[1..]), true) == Rows(h, Keys, filter, Valueless(keys[1..]))
    ensures OfKind(Rows(h, All, filter, keys), true) == Rows(h, Keys, filter, keys)
    ensures OfKind(Rows(h, All, filter, keys), false) == OfKind(Rows(h, Values, filter, keys), false)
    ensures OfKind(Rows(h, Values, filter, keys), true) == Rows(h, Keys, filter, Valueless(keys))
  {
    hide RowsOfKey, Kept, ValueRows, KeyRow, OfKind;
    var key, rest := keys[0], keys[1..];
    var all, values := Rows(h, All, filter, rest), Rows(h, Values, filter, rest);
    RowsSplit(h, All, filter, keys);
    RowsSplit(h, Values, filter, keys);
    RowsSplit(h, Keys, filter, keys);
    OfKindKey(h, All, key);
    OfKindKey(h, Values, key);
    KeysRow(h, key);
    OfKindConcat(RowsOfKey(h, All, key), all, true);
    OfKindConcat(RowsOfKey(h, All, key), all, false);
    OfKindConcat(RowsOfKey(h, Values, key), values, true);
    OfKindConcat(RowsOfKey(h, Values, key), values, false);
    if key.values == [] {
      assert Valueless(keys) == [key] + Valueless(rest);
      RowsSplit(h, Keys, filter, [key] + Valueless(rest));
      assert ([key] + Valueless(rest))[1..] == Valueless(rest);
    } else {
      assert Valueless(keys) == [] + Valueless(rest) == Valueless(rest);
      assert [] + Rows(h, Keys, filter, Valueless(rest)) == Rows(h, Keys, filter, Valueless(rest));
    }
  }

  lemma RowsSplit(h: Hive, mode: Mode, filter: Option<string>, keys: seq<KeyRecord>)
    requires keys != []
    ensures var rest := Rows(h, mode, filter, keys[1..]);
      Rows(h, mode, filter, keys) == if Kept(h, filter, keys[0]) then RowsOfKey(h, mode, keys[0]) + rest else rest
  {
    hide RowsOfKey, Kept;
  }

  lemma KeysRow(h: Hive, key: KeyRecord)
    ensures RowsOfKey(h, Keys, key) == [KeyRow(h, key)]
  {
    hide KeyRow;
  }

  function Valueless(keys: seq<KeyRecord>): seq<KeyRecord> {
    if keys == [] then [] else (if keys[0].values == [] then [keys[0]] else []) + Valueless(keys[1..])
  }

  /** Row count of a key: one per value, the key itself where the mode asks for it. */
  function RowCount(mode: Mode, keys: seq<KeyRecord>): nat {
    if keys == [] then 0
    else
      (match mode
       case Keys => 1
       case Values => Max(1, |keys[0].values|)
       case All => 1 + |keys[0].values|) + RowCount(mode, keys[1..])
  }

  lemma {:induction false} Counts(h: Hive, mode: Mode, keys: seq<KeyRecord>)
    ensures |Rows(h, mode, None, keys)| == RowCount(mode, keys)
  {
    hide KeyRow, ValueRow;
    if keys != [] {
      Counts(h, mode, keys[1..]);
    }
  }

  // ---------- what the columns hold ----------

  /** The columns of a key's own row. */
  predicate IsRowOfKey(h: Hive, key: KeyRecord, r: Row) {
    && r.keyPath == Normalize(key.path, h.rootName).0 && r.lastWrite == key.lastWrite && r.deleted == key.deleted
    && r.hiveType == h.hiveType && r.source == h.source && r.diagnostics == h.hiveDiag
    && r.valueName == None && r.valueType == None && r.valueData == None && r.valueRaw == None && r.valueDword == None
  }

  /** The columns of a value's row: the key's, the value's, and the rendering of its bytes. */
  predicate IsRowOfValue(h: Hive, key: KeyRecord, v: ValueRecord, r: Row) {
    var c := VT.Coerce(v.typeRaw, v.raw);
    && r.keyPath == Normalize(key.path, h.rootName).0 && r.lastWrite == key.lastWrite
    && r.deleted == (key.deleted || v.deleted)
    && r.hiveType == h.hiveType && r.source == h.source
    && (v.name == "" <==> r.valueName.None?) && (r.valueName.Some? ==> r.valueName.value == v.name)
    && r.valueType == Some(v.typeRaw) && r.valueRaw == Some(v.raw)
    && r.valueData == Some(c.valueData) && r.valueDword == c.valueDword
    && (c.diagnostics.Some? ==> r.diagnostics == c.diagnostics) && (c.diagnostics.None? ==> r.diagnostics == h.hiveDiag)
  }

  /** The rows of All mode, taken apart without reference to how they are made: the key's, then its values'. */
  predicate Tabulates(h: Hive, keys: seq<KeyRecord>, rows: seq<Row>)
    decreases |keys|
  {
    if keys == [] then rows == []
    else
      var n := |keys[0].values|;
      && n + 1 <= |rows| && IsRowOfKey(h, keys[0], rows[0])
      && (forall i {:trigger keys[0].values[i]} :: 0 <= i < n ==>
            IsRowOfValue(h, keys[0], keys[0].values[i], rows[i + 1]))
      && Tabulates(h, keys[1..], rows[n + 1..])
  }

  lemma ValueRowColumns(h: Hive, key: KeyRecord, v: ValueRecord)
    ensures IsRowOfValue(h, key, v, ValueRow(h, key, v))
  {
    hide Normalize, VT.Coerce;
  }

  lemma KeyRowColumns(h: Hive, key: KeyRecord)
    ensures IsRowOfKey(h, key, KeyRow(h, key))
  {
    hide Normalize;
  }

  lemma {:induction false} ValueRowAt(h: Hive, key: KeyRecord, values: seq<ValueRecord>, i: nat)
    requires i < |values|
    ensures ValueRows(h, key, values)[i] == ValueRow(h, key, values[i])
  {
    hide ValueRow;
    if i > 0 {
      ValueRowAt(h, key, values[1..], i - 1);
    }
  }

  /** Every column of every row of a full scan in All mode. */
  lemma {:induction false} AllColumns(h: Hive, keys: seq<KeyRecord>)
    ensures Tabulates(h, keys, Rows(h, All, None, keys))
  {
    hide KeyRow, ValueRow, IsRowOfKey, IsRowOfValue, ValueRows;
    if keys != [] {
      var key, rest := keys[0], Rows(h, All, None, keys[1..]);
      var rows := Rows(h, All, None, keys);
      AllColumns(h, keys[1..]);
      assert rows == [KeyRow(h, key)] + ValueRows(h, key, key.values) + rest;
      assert rows[0] == KeyRow(h, key) && rows[|key.values| + 1..] == rest;
      KeyRowColumns(h, key);
      forall i | 0 <= i < |key.values|
        ensures IsRowOfValue(h, key, key.values[i], rows[i + 1])
      {
        assert rows[i + 1] == ValueRows(h, key, key.values)[i];
        ValueRowAt(h, key, key.values, i);
        ValueRowColumns(h, key, key.values[i]);
      }
    }
  }

  /** What a walk tells of a value and of a key. */
  datatype SeenValue = SeenValue(name: string, typeRaw: u32, raw: Bytes, deleted: bool)
  datatype SeenKey = SeenKey(path: string, lastWrite: int, deleted: bool, values: seq<SeenValue>)

  /** The value rows at the head of some rows. */
  function LeadingValues(rows: seq<Row>): (n: nat)
    ensures n <= |rows| && forall i :: 0 <= i < n ==> rows[i].valueType.Some? && rows[i].valueRaw.Some?
  {
    if rows == [] || rows[0].valueType.None? || rows[0].valueRaw.None? then 0 else 1 + LeadingValues(rows[1..])
  }

  function SeenValues(rows: seq<Row>): (r: seq<SeenValue>)
    requires forall i :: 0 <= i < |rows| ==> rows[i].valueType.Some? && rows[i].valueRaw.Some?
    ensures |r| == |rows|
  {
    if rows == [] then []
    else
      var r := rows[0];
      [SeenValue(if r.valueName.Some? then r.valueName.value else "", r.valueType.value, r.valueRaw.value, r.deleted)]
      + SeenValues(rows[1..])
  }

  /** The keys a table of rows in All mode tells of. */
  function Seen(rows: seq<Row>): seq<SeenKey>
    decreases |rows|
  {
    if rows == [] then []
    else
      var r, n := rows[0], LeadingValues(rows[1..]);
      [SeenKey(r.keyPath, r.lastWrite, r.deleted, SeenValues(rows[1..n + 1]))] + Seen(rows[n + 1..])
  }

  function ValuesToSee(key: KeyRecord, values: seq<ValueRecord>): (r: seq<SeenValue>)
    ensures |r| == |values|
  {
    if values == [] then []
    else
      var v := values[0];
      [SeenValue(v.name, v.typeRaw, v.raw, key.deleted || v.deleted)] + ValuesToSee(key, values[1..])
  }

  function KeysToSee(h: Hive, keys: seq<KeyRecord>): seq<SeenKey> {
    if keys == [] then []
    else
      var key := keys[0];
      [SeenKey(Normalize(key.path, h.rootName).0, key.lastWrite, key.deleted, ValuesToSee(key, key.values))]
      + KeysToSee(h, keys[1..])
  }

  lemma SeenValue1(h: Hive, key: KeyRecord, v: ValueRecord, r: Row)
    requires IsRowOfValue(h, key, v, r)
    ensures r.valueType.Some? && r.valueRaw.Some?
    ensures var name := if r.valueName.Some? then r.valueName.value else "";
      SeenValue(name, r.valueType.value, r.valueRaw.value, r.deleted)
      == SeenValue(v.name, v.typeRaw, v.raw, key.deleted || v.deleted)
  {
    hide Normalize, VT.Coerce;
  }

  lemma {:induction false} ValueRowsSeen(h: Hive, key: KeyRecord, values: seq<ValueRecord>, rows: seq<Row>)
    requires |rows| == |values|
    requires forall i {:trigger values[i]} :: 0 <= i < |values| ==> IsRowOfValue(h, key, values[i], rows[i])
    ensures (forall i :: 0 <= i < |rows| ==> rows[i].valueType.Some? && rows[i].valueRaw.Some?)
         && SeenValues(rows) == ValuesToSee(key, values)
  {
    hide IsRowOfValue;
    if values != [] {
      forall i | 0 <= i < |values|
        ensures rows[i].valueType.Some? && rows[i].valueRaw.Some?
      {
        SeenValue1(h, key, values[i], rows[i]);
      }
      forall i | 0 <= i < |values[1..]|
        ensures IsRowOfValue(h, key, values[1..][i], rows[1..][i])
      {
        assert values[1..][i] == values[i + 1] && rows[1..][i] == rows[i + 1];
      }
      SeenValue1(h, key, values[0], rows[0]);
      ValueRowsSeen(h, key, values[1..], rows[1..]);
    }
  }

  lemma {:induction false} LeadingExact(rows: seq<Row>, more: seq<Row>)
    requires forall i :: 0 <= i < |rows| ==> rows[i].valueType.Some? && rows[i].valueRaw.Some?
    requires more == [] || more[0].valueType.None?
    ensures LeadingValues(rows + more) == |rows|
  {
    if rows == [] {
      assert rows + more == more;
    } else {
      assert (rows + more)[1..] == rows[1..] + more && (rows + more)[0] == rows[0];
      LeadingExact(rows[1..], more);
    }
  }

  /** The walk loses nothing: from its rows in All mode every key and value comes back, in order. */
  lemma {:induction false} RecordsComeBack(h: Hive, keys: seq<KeyRecord>, rows: seq<Row>)
    requires Tabulates(h, keys, rows)
    ensures Seen(rows) == KeysToSee(h, keys)
    decreases |keys|
  {
    hide Normalize, VT.Coerce, IsRowOfValue, SeenValues, ValuesToSee, LeadingValues;
    if keys != [] {
      var key, n := keys[0], |keys[0].values|;
      var mine, more := rows[1..n + 1], rows[n + 1..];
      RecordsComeBack(h, keys[1..], more);
      assert rows[1..] == mine + more;
      forall i | 0 <= i < n
        ensures IsRowOfValue(h, key, key.values[i], mine[i])
      {
        assert mine[i] == rows[i + 1];
      }
      assert more == [] || more[0].valueType.None?;
      ValueRowsSeen(h, key, key.values, mine);
      LeadingExact(mine, more);
    }
  }

  /** Both together, for what the walk computes. */
  lemma WalkLosesNothing(h: Hive, keys: seq<KeyRecord>)
    ensures Tabulates(h, keys, Rows(h, All, None, keys))
    ensures Seen(Rows(h, All, None, keys)) == KeysToSee(h, keys)
  {
    AllColumns(h, keys);
    RecordsComeBack(h, keys, Rows(h, All, None, keys));
  }

  // ---------- labels ----------

  /** The state of a live row, by the three facts it depends on. */
  lemma BaseRecoveryExact(wasDirty: bool, logsPresent: bool, applyLogs: bool)
    ensures BaseRecoveryLabel(wasDirty, logsPresent, applyLogs) == None <==> !wasDirty
    ensures BaseRecoveryLabel(wasDirty, logsPresent, applyLogs) == Some("logs-applied")
       <==> wasDirty && logsPresent && applyLogs
    ensures BaseRecoveryLabel(wasDirty, logsPresent, applyLogs) == Some("dirty-no-logs")
       <==> wasDirty && !(logsPresent && applyLogs)
  {
    assert LOGS_APPLIED[0] != DIRTY_NO_LOGS[0];
  }

  /** What a row says about recovery, given where its key lies. */
  predicate LabelOk(h: Hive, key: KeyRecord, r: Row) {
    && (r.deleted <==> r.recovery == Some("deleted-orphan") || r.recovery == Some("deleted-reparented"))
    && (r.recovery == Some("deleted-orphan") <==> r.deleted && Normalize(key.path, h.rootName).1)
    && (!r.deleted ==> r.recovery == h.baseRecovery)
  }

  /**
   A row carries a deleted label exactly when it is flagged deleted; the label names an orphan
   exactly when the row's own key does not descend from the root; a live row carries the hive's state.
   */
  lemma {:induction false} Labels(h: Hive, mode: Mode, filter: Option<string>, keys: seq<KeyRecord>,
                                  wasDirty: bool, logsPresent: bool, applyLogs: bool)
    requires h.baseRecovery == BaseRecoveryLabel(wasDirty, logsPresent, applyLogs)
    ensures forall r :: r in Rows(h, mode, filter, keys) ==>
      exists key :: key in keys && r in RowsOfKey(h, mode, key) && LabelOk(h, key, r)
  {
    hide RowsOfKey, Kept, LabelOk;
    if keys != [] {
      var key := keys[0];
      Labels(h, mode, filter, keys[1..], wasDirty, logsPresent, applyLogs);
      KeyLabels(h, mode, key, wasDirty, logsPresent, applyLogs);
      assert key in keys && forall k :: k in keys[1..] ==> k in keys;
      forall r | r in Rows(h, mode, filter, keys)
        ensures exists k :: k in keys && r in RowsOfKey(h, mode, k) && LabelOk(h, k, r)
      {
        if r !in RowsOfKey(h, mode, key) {
          assert r in Rows(h, mode, filter, keys[1..]);
        }
      }
    }
  }

  lemma KeyLabels(h: Hive, mode: Mode, key: KeyRecord, wasDirty: bool, logsPresent: bool, applyLogs: bool)
    requires h.baseRecovery == BaseRecoveryLabel(wasDirty, logsPresent, applyLogs)
    ensures forall r :: r in RowsOfKey(h, mode, key) ==> LabelOk(h, key, r)
  {
    hide Normalize, VT.Coerce, ValueRows;
    ValueRowsAre(h, key, key.values);
    assert DELETED_ORPHAN[8] != DELETED_REPARENTED[8];
    assert LOGS_APPLIED[0] != DELETED_ORPHAN[0] && LOGS_APPLIED[0] != DELETED_REPARENTED[0];
    assert DIRTY_NO_LOGS[1] != DELETED_ORPHAN[1] && DIRTY_NO_LOGS[1] != DELETED_REPARENTED[1];
  }

  /** `path` is `rest`, possibly behind one leading backslash; a backslash of `rest` itself does not count as that. */
  predicate Spells(path: string, rest: string) {
    path == [SEP] + rest || (path == rest && !([SEP] <= rest))
  }

  /**
   Exactly the root and the paths below it are no orphans; they normalize to what follows the root
   name. Below a nameless root there is nothing. An orphan keeps its whole path.
   */
  lemma NormalizeMeaning(path: string, rootName: string, p: string)
    ensures Normalize(path, rootName) == (p, false)
       <==> (p == "" && Spells(path, rootName)) || (rootName != "" && Spells(path, rootName + [SEP] + p))
    ensures Normalize(path, rootName) == ("$Deleted\\" + p, true)
       <==> Spells(path, p) && p != rootName && (rootName == "" || !(rootName + [SEP] <= p))
  {
    var s := if [SEP] <= path then path[1..] else path;
    var prefix := rootName + [SEP];
    OneSpelling(path, s);
    if prefix <= s {
      assert s == prefix + s[|prefix|..];
    }
    assert (prefix + p)[|prefix|..] == p;
    assert (DELETED_PREFIX + p)[|DELETED_PREFIX|..] == p;
    assert (DELETED_PREFIX + s)[|DELETED_PREFIX|..] == s;
  }

  lemma OneSpelling(path: string, s: string)
    requires s == if [SEP] <= path then path[1..] else path
    ensures forall x :: Spells(path, x) <==> x == s
  {
    if [SEP] <= path {
      assert path == [SEP] + s;
    }
    forall x
      ensures Spells(path, x) <==> x == s
    {
      if path == [SEP] + x {
        assert path[1..] == x;
      }
    }
  }
}
