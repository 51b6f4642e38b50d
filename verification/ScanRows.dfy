/**
 From file bytes to rows: the header check, the parser, the walk. Where the parser answers as the
 reader and the recovery of this project do, what was written comes out, through every layer.
 */
module ScanRows {
  import opened LittleEndian
  import opened HiveCells
  import opened HiveImage
  import opened HiveReader
  import opened HiveRecovery
  import BB = BaseBlock
  import C = Cursor
  import RH = ReadHive
  import T = HiveTheorems
  import W = Walk

  /** What the hive parser yields: the root's name, the hive type, the keys in walk order. */
  datatype Parsed = Parsed(rootName: string, hiveType: string, keys: seq<W.KeyRecord>)

  /** Bytes, whether to recover deleted cells, and the logs to replay. */
  type Parser = (Bytes, bool, seq<Bytes>) -> Option<Parsed>

  const BAD_CHECKSUM: string := "bad-checksum"

  /** The rows of one source; none for a malformed hive. */
  function BuildRows(parser: Parser, applyLogs: bool, recover: bool, mode: W.Mode,
                     bytes: Bytes, source: string, logs: seq<Bytes>): seq<W.Row>
  {
    var (base, kind) := BB.Parse(bytes);
    if kind != BB.WellFormed && kind != BB.BadChecksum then []
    else
      match parser(bytes, recover, if applyLogs then logs else [])
      case None => []
      case Some(p) =>
        var wasDirty := base.Some? && base.value.IsDirty();
        var h := W.Hive(p.rootName, p.hiveType, source, W.BaseRecoveryLabel(wasDirty, logs != [], applyLogs),
                        if kind == BB.BadChecksum then Some(BAD_CHECKSUM) else None);
        W.Rows(h, mode, None, p.keys)
  }

  /** Whatever the parser would make of it, a built hive cut short anywhere yields no rows. */
  lemma TruncatedYieldsNothing(parser: Parser, applyLogs: bool, recover: bool, mode: W.Mode,
                               spec: HiveSpec, k: nat, source: string, logs: seq<Bytes>)
    requires LayoutFits(spec) && k < |Hive(spec)|
    ensures BuildRows(parser, applyLogs, recover, mode, Hive(spec)[..k], source, logs) == []
  {
    hide Hive, LayoutFits, BB.Parse;
    T.PrefixKinds(spec, k);
  }

  /** Nor does anything else that is no hive, in terms of the bytes. */
  lemma NoHiveNoRows(parser: Parser, applyLogs: bool, recover: bool, mode: W.Mode, bytes: Bytes, source: string,
                     logs: seq<Bytes>)
    requires |bytes| < 4096 || !BB.Regf(bytes) || Rd32(bytes, 28) != 0 || BB.Overrun(bytes)
    ensures BuildRows(parser, applyLogs, recover, mode, bytes, source, logs) == []
  {
    hide BB.Parse, Rd32;
    BB.ParseExact(bytes);
  }

  // ---------- the reader as the parser ----------

  /** A byte string as text, one character per byte. */
  function Chars(b: Bytes): (r: string)
    ensures |r| == |b|
  {
    if b == [] then "" else [b[0] as char] + Chars(b[1..])
  }

  function ValueRecords(vs: seq<ValueSpec>, deleted: bool): seq<W.ValueRecord> {
    if vs == [] then []
    else [W.ValueRecord(Chars(vs[0].name), vs[0].typeRaw, vs[0].data, deleted)] + ValueRecords(vs[1..], deleted)
  }

  function KeyPath(parent: string, name: Bytes): string {
    parent + [W.SEP] + Chars(name)
  }

  function KeyRecord(key: KeySpec, parent: string, deleted: bool): W.KeyRecord {
    W.KeyRecord(KeyPath(parent, key.name), deleted, key.lastWritten, ValueRecords(key.values, deleted))
  }

  /** A key and, after it, its subtree. */
  function Records(key: KeySpec, parent: string, deleted: bool): seq<W.KeyRecord>
    decreases key, 1
  {
    [KeyRecord(key, parent, deleted)] + AllRecords(key.subkeys, KeyPath(parent, key.name), deleted)
  }

  function AllRecords(keys: seq<KeySpec>, parent: string, deleted: bool): seq<W.KeyRecord>
    decreases keys, 0
  {
    if keys == [] then [] else Records(keys[0], parent, deleted) + AllRecords(keys[1..], parent, deleted)
  }

  /** The live tree and, if asked for, the keys recovered from free cells, which have no parent. */
  function ReaderParser(bytes: Bytes, recover: bool, hiveType: string): Option<Parsed> {
    match ReadHive(bytes)
    case None => None
    case Some(found) =>
      Some(Parsed(Chars(found.value.name), hiveType,
                  Records(found.value, "", false) + if recover then AllRecords(Recovered(bytes), "", true) else []))
  }

  /**
   What is assumed of the parser, whose source is not part of the repository: on this file, for the
   recovery asked for and the logs passed, it answers as `ReaderParser` does.
   */
  predicate AnswersAsReader(parser: Parser, spec: HiveSpec, recover: bool, logs: seq<Bytes>, hiveType: string) {
    parser(Hive(spec), recover, logs) == ReaderParser(Hive(spec), recover, hiveType)
  }

  /** The data of every value of the tree, in walk order. */
  function DataOf(vs: seq<ValueSpec>): seq<Bytes> {
    if vs == [] then [] else [vs[0].data] + DataOf(vs[1..])
  }

  function TreeData(key: KeySpec): seq<Bytes>
    decreases key, 1
  {
    DataOf(key.values) + TreesData(key.subkeys)
  }

  function TreesData(keys: seq<KeySpec>): seq<Bytes>
    decreases keys, 0
  {
    if keys == [] then [] else TreeData(keys[0]) + TreesData(keys[1..])
  }

  /** The raw bytes of the value rows, in row order. */
  function RawColumn(rows: seq<W.Row>): seq<Bytes> {
    if rows == [] then []
    else (if rows[0].valueRaw.Some? then [rows[0].valueRaw.value] else []) + RawColumn(rows[1..])
  }

  lemma {:induction false} RawConcat(a: seq<W.Row>, b: seq<W.Row>)
    ensures RawColumn(a + b) == RawColumn(a) + RawColumn(b)
  {
    if a == [] {
      assert a + b == b;
    } else {
      assert (a + b)[1..] == a[1..] + b;
      RawConcat(a[1..], b);
    }
  }

  lemma {:induction false} RowsConcat(h: W.Hive, mode: W.Mode, a: seq<W.KeyRecord>, b: seq<W.KeyRecord>)
    ensures W.Rows(h, mode, None, a + b) == W.Rows(h, mode, None, a) + W.Rows(h, mode, None, b)
  {
    hide W.RowsOfKey;
    if a == [] {
      assert a + b == b;
    } else {
      assert (a + b)[1..] == a[1..] + b;
      RowsConcat(h, mode, a[1..], b);
    }
  }

  lemma {:induction false} RawOfValues(h: W.Hive, key: W.KeyRecord, vs: seq<ValueSpec>, deleted: bool)
    ensures RawColumn(W.ValueRows(h, key, ValueRecords(vs, deleted))) == DataOf(vs)
  {
    hide W.Normalize;
    if vs != [] {
      RawOfValues(h, key, vs[1..], deleted);
      var v := W.ValueRecord(Chars(vs[0].name), vs[0].typeRaw, vs[0].data, deleted);
      var rest := ValueRecords(vs[1..], deleted);
      assert ValueRecords(vs, deleted)[0] == v && ValueRecords(vs, deleted)[1..] == rest;
      assert W.ValueRow(h, key, v).valueRaw == Some(vs[0].data);
      RawConcat([W.ValueRow(h, key, v)], W.ValueRows(h, key, rest));
      assert RawColumn([W.ValueRow(h, key, v)]) == [vs[0].data] + RawColumn([]);
    }
  }

  lemma RawOfKey(h: W.Hive, mode: W.Mode, key: KeySpec, parent: string, deleted: bool)
    requires mode != W.Keys
    ensures RawColumn(W.RowsOfKey(h, mode, KeyRecord(key, parent, deleted))) == DataOf(key.values)
  {
    hide W.Normalize, W.ValueRows, DataOf;
    var record := KeyRecord(key, parent, deleted);
    var head := if W.WantsKeyRow(mode, record) then [W.KeyRow(h, record)] else [];
    RawOfValues(h, record, key.values, deleted);
    RawConcat(head, W.ValueRows(h, record, record.values));
    assert RawColumn(head) == [] by {
      if head != [] {
        assert head[1..] == [] && head[0].valueRaw.None?;
      }
    }
  }

  lemma {:induction false} RawOfTree(h: W.Hive, mode: W.Mode, key: KeySpec, parent: string, deleted: bool)
    requires mode != W.Keys
    ensures RawColumn(W.Rows(h, mode, None, Records(key, parent, deleted))) == TreeData(key)
    decreases key, 1
  {
    hide W.RowsOfKey, DataOf, KeyRecord, RawColumn;
    var record, rest := KeyRecord(key, parent, deleted), AllRecords(key.subkeys, KeyPath(parent, key.name), deleted);
    RawOfTrees(h, mode, key.subkeys, KeyPath(parent, key.name), deleted);
    RawOfKey(h, mode, key, parent, deleted);
    assert ([record] + rest)[1..] == rest;
    RawConcat(W.RowsOfKey(h, mode, record), W.Rows(h, mode, None, rest));
  }

  lemma {:induction false} RawOfTrees(h: W.Hive, mode: W.Mode, keys: seq<KeySpec>, parent: string, deleted: bool)
    requires mode != W.Keys
    ensures RawColumn(W.Rows(h, mode, None, AllRecords(keys, parent, deleted))) == TreesData(keys)
    decreases keys, 0
  {
    hide Records, TreeData;
    if keys != [] {
      var first, rest := Records(keys[0], parent, deleted), AllRecords(keys[1..], parent, deleted);
      RawOfTree(h, mode, keys[0], parent, deleted);
      RawOfTrees(h, mode, keys[1..], parent, deleted);
      RowsConcat(h, mode, first, rest);
      RawConcat(W.Rows(h, mode, None, first), W.Rows(h, mode, None, rest));
    }
  }

  // ---------- paths and labels of a written tree ----------

  /** At the root or below it. */
  predicate UnderRoot(path: string, rootName: string) {
    path == [W.SEP] + rootName || [W.SEP] + rootName + [W.SEP] <= path
  }

  /** A live key at or below the root, with live values only. */
  predicate LiveRecord(k: W.KeyRecord, rootName: string) {
    !k.deleted && UnderRoot(k.path, rootName) && forall v :: v in k.values ==> !v.deleted
  }

  lemma {:induction false} ValueRecordsLive(vs: seq<ValueSpec>)
    ensures forall v :: v in ValueRecords(vs, false) ==> !v.deleted
  {
    if vs != [] {
      ValueRecordsLive(vs[1..]);
    }
  }

  lemma {:induction false} RecordsUnderRoot(key: KeySpec, parent: string, rootName: string)
    requires UnderRoot(KeyPath(parent, key.name), rootName)
    ensures forall r :: r in Records(key, parent, false) ==> LiveRecord(r, rootName)
    decreases key, 1
  {
    hide UnderRoot, KeyPath, ValueRecords;
    ValueRecordsLive(key.values);
    AllRecordsUnderRoot(key.subkeys, KeyPath(parent, key.name), rootName);
  }

  lemma {:induction false} AllRecordsUnderRoot(keys: seq<KeySpec>, parent: string, rootName: string)
    requires UnderRoot(parent, rootName)
    ensures forall r :: r in AllRecords(keys, parent, false) ==> LiveRecord(r, rootName)
    decreases keys, 0
  {
    hide Records, UnderRoot, LiveRecord;
    if keys != [] {
      Deeper(parent, keys[0].name, rootName);
      RecordsUnderRoot(keys[0], parent, rootName);
      AllRecordsUnderRoot(keys[1..], parent, rootName);
    }
  }

  lemma Deeper(parent: string, name: Bytes, rootName: string)
    requires UnderRoot(parent, rootName)
    ensures UnderRoot(KeyPath(parent, name), rootName)
  {
  }

  lemma NoOrphan(path: string, rootName: string)
    requires rootName != "" && UnderRoot(path, rootName)
    ensures !W.Normalize(path, rootName).1
  {
    var s := path[1..];
    assert path == [W.SEP] + s;
    if path == [W.SEP] + rootName {
      assert s == rootName;
    } else {
      var prefix := rootName + [W.SEP];
      assert [W.SEP] + rootName + [W.SEP] == [W.SEP] + prefix;
      assert path == [W.SEP] + prefix + path[|prefix| + 1..];
      assert s == prefix + path[|prefix| + 1..];
    }
  }

  // ---------- built files ----------

  /** The walk's arguments for a built file whose root is `root`. */
  function WrittenHive(spec: HiveSpec, root: KeySpec, hiveType: string, applyLogs: bool, source: string,
                       hasLogs: bool): W.Hive
  {
    var dirty := spec.corruptChecksum || spec.primarySeq != spec.secondarySeq;
    W.Hive(Chars(root.name), hiveType, source, W.BaseRecoveryLabel(dirty, hasLogs, applyLogs),
           if spec.corruptChecksum then Some("bad-checksum") else None)
  }

  /** The rows of a tree, live or recovered. */
  function RowsOf(h: W.Hive, mode: W.Mode, keys: seq<KeySpec>, deleted: bool): seq<W.Row> {
    W.Rows(h, mode, None, AllRecords(keys, "", deleted))
  }

  /** Whatever the tree: the rows are those of what its 16-bit fields leave of it, none if that is nothing. */
  lemma WrittenRows(parser: Parser, spec: HiveSpec, mode: W.Mode, applyLogs: bool, recover: bool, source: string,
                    logs: seq<Bytes>, hiveType: string)
    requires LayoutFits(spec) && AnswersAsReader(parser, spec, recover, if applyLogs then logs else [], hiveType)
    ensures BuildRows(parser, applyLogs, recover, mode, Hive(spec), source, logs)
         == match AsRead(spec.root)
            case None => []
            case Some(root) =>
              var h := WrittenHive(spec, root, hiveType, applyLogs, source, logs != []);
              RowsOf(h, mode, [root], false) + if recover then RowsOf(h, mode, Recovered(Hive(spec)), true) else []
  {
    hide Hive, LayoutFits, BB.Parse, ReadHive, AsRead, Records, Recovered, W.Rows, BinSize, KeyCells;
    T.HeaderBack(spec);
    T.RoundTrip(spec);
    if AsRead(spec.root).Some? {
      var root := AsRead(spec.root).value;
      var h := WrittenHive(spec, root, hiveType, applyLogs, source, logs != []);
      var free := if recover then AllRecords(Recovered(Hive(spec)), "", true) else [];
      RowsConcat(h, mode, Records(root, "", false), free);
      OneRecord(root);
      W.NoRows(h, mode, None);
    }
  }

  lemma OneRecord(key: KeySpec)
    ensures AllRecords([key], "", false) == Records(key, "", false)
  {
    hide Records;
    assert [key][1..] == [];
    assert Records(key, "", false) + AllRecords([], "", false) == Records(key, "", false);
  }

  /** A row of a deleted key without parents, given the root's name. */
  predicate OrphanRow(h: W.Hive, key: KeySpec, r: W.Row) {
    var name := Chars(key.name);
    r.deleted &&
    if (name == h.rootName || (h.rootName != "" && h.rootName + [W.SEP] <= name)) then
      r.recovery == Some(W.DELETED_REPARENTED)
    else
      r.recovery == Some(W.DELETED_ORPHAN) && r.keyPath == W.DELETED_PREFIX + name
  }

  lemma OrphanKeyRows(h: W.Hive, mode: W.Mode, key: KeySpec)
    ensures forall r :: r in W.RowsOfKey(h, mode, KeyRecord(key, "", true)) ==> OrphanRow(h, key, r)
  {
    hide W.Normalize, W.ValueRows, W.VT.Coerce, ValueRecords;
    var record, name := KeyRecord(key, "", true), Chars(key.name);
    assert record.path == [W.SEP] + name;
    W.NormalizeMeaning(record.path, h.rootName, name);
    OrphanPath(h.rootName, name);
    W.ValueRowsAre(h, record, record.values);
  }

  /** Behind one backslash, a name is no orphan exactly when it spells the root or something below it. */
  lemma OrphanPath(rootName: string, name: string)
    ensures W.Normalize([W.SEP] + name, rootName).1
       <==> name != rootName && (rootName == "" || !(rootName + [W.SEP] <= name))
  {
    assert ([W.SEP] + name)[1..] == name;
  }

  lemma {:induction false} OrphanRows(h: W.Hive, mode: W.Mode, keys: seq<KeySpec>)
    requires forall k :: k in keys ==> k.subkeys == []
    ensures forall r :: r in RowsOf(h, mode, keys, true) ==>
      exists k :: k in keys && r in W.RowsOfKey(h, mode, KeyRecord(k, "", true)) && OrphanRow(h, k, r)
  {
    hide W.RowsOfKey, OrphanRow, KeyRecord;
    if keys != [] {
      var key, rest := keys[0], keys[1..];
      assert key in keys && forall k :: k in rest ==> k in keys;
      OrphanRows(h, mode, rest);
      OrphanKeyRows(h, mode, key);
      var record := KeyRecord(key, "", true);
      assert Records(key, "", true) == [record] + [];
      assert AllRecords(keys, "", true) == [record] + AllRecords(rest, "", true);
      assert ([record] + AllRecords(rest, "", true))[1..] == AllRecords(rest, "", true);
      assert RowsOf(h, mode, keys, true) == W.RowsOfKey(h, mode, record) + RowsOf(h, mode, rest, true);
    }
  }

  lemma {:induction false} OrphansHaveNoSubkeys(orphans: seq<KeySpec>)
    ensures forall k :: k in OrphansAsRead(orphans) ==> k.subkeys == []
  {
    hide ValuesAsRead, CutName;
    if orphans != [] {
      assert SubkeysAsRead(orphans[0].(subkeys := []).subkeys) == Some([]);
      OrphansHaveNoSubkeys(orphans[1..]);
    }
  }

  /**
   Writing, reading and walking, for a tree that fits and orphans whose data does not look like keys.
   First come the rows of the live tree: in every mode those of its records, the value rows with the
   data that was written, verbatim and in order, none deleted, tagged with what the header says. Then,
   exactly if recovery is asked for, those of the orphans: all deleted and labelled so.
   */
  lemma WrittenDataComesOut(parser: Parser, spec: HiveSpec, mode: W.Mode, applyLogs: bool, recover: bool,
                            source: string, logs: seq<Bytes>, hiveType: string)
    requires LayoutFits(spec) && AnswersAsReader(parser, spec, recover, if applyLogs then logs else [], hiveType)
    requires KeyFits(spec.root) && (recover ==> NoLookalikes(spec.deletedOrphans))
    ensures var h := WrittenHive(spec, spec.root, hiveType, applyLogs, source, logs != []);
      var orphans := if recover then OrphansAsRead(spec.deletedOrphans) else [];
      var live, dead := RowsOf(h, mode, [spec.root], false), RowsOf(h, mode, orphans, true);
      && BuildRows(parser, applyLogs, recover, mode, Hive(spec), source, logs) == live + dead
      && (mode != W.Keys ==> RawColumn(live) == TreeData(spec.root) && RawColumn(dead) == TreesData(orphans))
      && (forall r :: r in live ==> !r.deleted && r.recovery == h.baseRecovery)
      && (forall r :: r in live && W.IsKeyRow(r) ==> r.diagnostics == h.hiveDiag)
      && (forall r :: r in dead ==>
            exists k :: k in orphans && r in W.RowsOfKey(h, mode, KeyRecord(k, "", true)) && OrphanRow(h, k, r))
  {
    hide Records, TreeData, TreesData, RawColumn, W.Rows, Hive, LayoutFits, KeyFits, BuildRows, UnderRoot, KeyPath,
         AnswersAsReader, Recovered, NoLookalikes, OrphansAsRead, AsRead, Embeds, OrphanRow;
    var h := WrittenHive(spec, spec.root, hiveType, applyLogs, source, logs != []);
    var orphans := if recover then OrphansAsRead(spec.deletedOrphans) else [];
    AsReadExact(spec.root);
    WrittenRows(parser, spec, mode, applyLogs, recover, source, logs, hiveType);
    RecoversOrphans(spec);
    OneRecord(spec.root);
    W.NoRows(h, mode, None);
    if mode != W.Keys {
      RawOfTree(h, mode, spec.root, "", false);
      RawOfTrees(h, mode, orphans, "", true);
    }
    AtRoot(spec.root.name);
    RecordsUnderRoot(spec.root, "", Chars(spec.root.name));
    LiveRows(h, mode, Records(spec.root, "", false));
    OrphansHaveNoSubkeys(spec.deletedOrphans);
    OrphanRows(h, mode, orphans);
  }

  /** No key of a written tree walks as an orphan. */
  lemma WrittenKeysAreNoOrphans(key: KeySpec)
    requires key.name != []
    ensures forall r :: r in Records(key, "", false) ==> !W.Normalize(r.path, Chars(key.name)).1
  {
    hide Records, W.Normalize, UnderRoot;
    var rootName := Chars(key.name);
    AtRoot(key.name);
    RecordsUnderRoot(key, "", rootName);
    forall r | r in Records(key, "", false)
      ensures !W.Normalize(r.path, rootName).1
    {
      assert LiveRecord(r, rootName);
      NoOrphan(r.path, rootName);
    }
  }

  lemma AtRoot(name: Bytes)
    ensures UnderRoot(KeyPath("", name), Chars(name))
  {
  }

  /** Rows of live keys and values carry the hive's own tags. */
  lemma {:induction false} LiveRows(h: W.Hive, mode: W.Mode, keys: seq<W.KeyRecord>)
    requires forall k :: k in keys ==> LiveRecord(k, h.rootName)
    ensures forall r :: r in W.Rows(h, mode, None, keys) ==> !r.deleted && r.recovery == h.baseRecovery
    ensures forall r :: r in W.Rows(h, mode, None, keys) && W.IsKeyRow(r) ==> r.diagnostics == h.hiveDiag
  {
    hide W.Normalize, W.ValueRows, UnderRoot;
    if keys != [] {
      assert keys[0] in keys && LiveRecord(keys[0], h.rootName) && forall k :: k in keys[1..] ==> k in keys;
      LiveRows(h, mode, keys[1..]);
      W.ValueRowsAre(h, keys[0], keys[0].values);
    }
  }

  // ---------- what the rows of a written tree tell ----------

  /** The keys of a tree by their path below the root, `path` being that of `key`, with what was written. */
  function TreeSeen(key: KeySpec, path: string, prefix: string): seq<W.SeenKey>
    decreases key, 1
  {
    [W.SeenKey(path, key.lastWritten, false, ValuesSeen(key.values))] + TreesSeen(key.subkeys, prefix)
  }

  /** Those of siblings whose paths begin with `prefix`. */
  function TreesSeen(keys: seq<KeySpec>, prefix: string): seq<W.SeenKey>
    decreases keys, 0
  {
    if keys == [] then []
    else
      var path := prefix + Chars(keys[0].name);
      TreeSeen(keys[0], path, path + [W.SEP]) + TreesSeen(keys[1..], prefix)
  }

  function ValuesSeen(vs: seq<ValueSpec>): seq<W.SeenValue> {
    if vs == [] then []
    else [W.SeenValue(Chars(vs[0].name), vs[0].typeRaw, vs[0].data, false)] + ValuesSeen(vs[1..])
  }

  lemma {:induction false} SeeValues(key: W.KeyRecord, vs: seq<ValueSpec>)
    requires !key.deleted
    ensures W.ValuesToSee(key, ValueRecords(vs, false)) == ValuesSeen(vs)
  {
    if vs != [] {
      SeeValues(key, vs[1..]);
      assert ValueRecords(vs, false)[1..] == ValueRecords(vs[1..], false);
    }
  }

  lemma {:induction false} SeeConcat(h: W.Hive, a: seq<W.KeyRecord>, b: seq<W.KeyRecord>)
    ensures W.KeysToSee(h, a + b) == W.KeysToSee(h, a) + W.KeysToSee(h, b)
  {
    hide W.Normalize, W.ValuesToSee;
    if a == [] {
      assert a + b == b;
    } else {
      assert (a + b)[0] == a[0] && (a + b)[1..] == a[1..] + b;
      SeeConcat(h, a[1..], b);
    }
  }

  /** Below the root, the path is what follows the root's name. */
  lemma BelowRoot(rootName: string, p: string)
    requires rootName != ""
    ensures W.Normalize([W.SEP] + rootName + [W.SEP] + p, rootName).0 == p
    ensures W.Normalize([W.SEP] + rootName, rootName).0 == ""
  {
    assert [W.SEP] + rootName + [W.SEP] + p == [W.SEP] + (rootName + [W.SEP] + p);
    W.NormalizeMeaning([W.SEP] + rootName + [W.SEP] + p, rootName, p);
    W.NormalizeMeaning([W.SEP] + rootName, rootName, "");
  }

  lemma {:induction false} SeeTree(h: W.Hive, key: KeySpec, parent: string, path: string, prefix: string)
    requires h.rootName != "" && W.Normalize(KeyPath(parent, key.name), h.rootName).0 == path
    requires KeyPath(parent, key.name) + [W.SEP] == [W.SEP] + h.rootName + [W.SEP] + prefix
    ensures W.KeysToSee(h, Records(key, parent, false)) == TreeSeen(key, path, prefix)
    decreases key, 1
  {
    hide W.Normalize, KeyPath, ValuesSeen, W.ValuesToSee, ValueRecords;
    var record := KeyRecord(key, parent, false);
    var rest := AllRecords(key.subkeys, KeyPath(parent, key.name), false);
    SeeValues(record, key.values);
    SeeTrees(h, key.subkeys, KeyPath(parent, key.name), prefix);
    assert ([record] + rest)[1..] == rest;
  }

  lemma {:induction false} SeeTrees(h: W.Hive, keys: seq<KeySpec>, parent: string, prefix: string)
    requires h.rootName != "" && parent + [W.SEP] == [W.SEP] + h.rootName + [W.SEP] + prefix
    ensures W.KeysToSee(h, AllRecords(keys, parent, false)) == TreesSeen(keys, prefix)
    decreases keys, 0
  {
    hide W.Normalize, Records, TreeSeen, W.KeysToSee;
    if keys == [] {
      assert W.KeysToSee(h, []) == [] by { SeeNone(h); }
    } else {
      var path := prefix + Chars(keys[0].name);
      ChildPath(parent, h.rootName, prefix, keys[0].name);
      BelowRoot(h.rootName, path);
      SeeTree(h, keys[0], parent, path, path + [W.SEP]);
      SeeTrees(h, keys[1..], parent, prefix);
      SeeConcat(h, Records(keys[0], parent, false), AllRecords(keys[1..], parent, false));
    }
  }

  lemma SeeNone(h: W.Hive)
    ensures W.KeysToSee(h, []) == []
  {
  }

  lemma ChildPath(parent: string, rootName: string, prefix: string, name: Bytes)
    requires parent + [W.SEP] == [W.SEP] + rootName + [W.SEP] + prefix
    ensures KeyPath(parent, name) == [W.SEP] + rootName + [W.SEP] + (prefix + Chars(name))
    ensures KeyPath(parent, name) + [W.SEP] == [W.SEP] + rootName + [W.SEP] + (prefix + Chars(name) + [W.SEP])
  {
    var head := [W.SEP] + rootName + [W.SEP];
    assert head + prefix + Chars(name) == head + (prefix + Chars(name));
    assert head + (prefix + Chars(name)) + [W.SEP] == head + (prefix + Chars(name) + [W.SEP]);
  }

  /**
   From the rows of the live part of a built file with a named root, in All mode, the whole tree comes
   back: every key by its path below the root, with its time, and every value with its name, type and
   data, in order.
   */
  lemma {:induction false} WrittenTreeIsSeen(h: W.Hive, root: KeySpec)
    requires root.name != [] && h.rootName == Chars(root.name)
    ensures W.Seen(RowsOf(h, W.All, [root], false)) == TreeSeen(root, "", "")
  {
    hide W.Rows, W.Seen, W.KeysToSee, W.Tabulates, Records, TreeSeen, W.Normalize;
    OneRecord(root);
    W.WalkLosesNothing(h, Records(root, "", false));
    assert KeyPath("", root.name) == [W.SEP] + h.rootName;
    assert [W.SEP] + h.rootName + [W.SEP] + "" == [W.SEP] + h.rootName + [W.SEP];
    BelowRoot(h.rootName, "");
    SeeTree(h, root, "", "", "");
  }

  // ---------- a glob of built files ----------

  /** What one file of a glob holds: a built hive, cut short after `kept` bytes, with its logs. */
  datatype Stored = Stored(spec: HiveSpec, kept: nat, logs: seq<Bytes>)

  /** The arguments of a scan. */
  datatype Args = Args(parser: Parser, applyLogs: bool, recover: bool, mode: W.Mode, hiveType: string)

  function Content(s: Stored): Bytes {
    var blob := Hive(s.spec);
    blob[..Min(s.kept, |blob|)]
  }

  function ScanEnv(args: Args, stored: string -> Option<Stored>): RH.Env<W.Row> {
    RH.Env(file => if stored(file).Some? then Some(Content(stored(file).value)) else None,
           file => if stored(file).Some? then stored(file).value.logs else [],
           (bytes, source, logs) =>
             BuildRows(args.parser, args.applyLogs, args.recover, args.mode, bytes, source, logs))
  }

  predicate Scannable(args: Args, stored: Option<Stored>) {
    stored.Some? ==>
    var s := stored.value;
    && LayoutFits(s.spec) && KeyFits(s.spec.root) && (args.recover ==> NoLookalikes(s.spec.deletedOrphans))
    && AnswersAsReader(args.parser, s.spec, args.recover, if args.applyLogs then s.logs else [], args.hiveType)
  }

  /** A file that can be read and holds the whole of its hive. */
  predicate Whole(stored: Option<Stored>) {
    stored.Some? && stored.value.kept >= |Hive(stored.value.spec)|
  }

  /** The rows of one file: those of its tree and its orphans if it is whole, otherwise none. */
  function FileRows(args: Args, file: string, stored: Option<Stored>): seq<W.Row> {
    if !Whole(stored) then []
    else
      var s := stored.value;
      var h := WrittenHive(s.spec, s.spec.root, args.hiveType, args.applyLogs, file, s.logs != []);
      var orphans := if args.recover then OrphansAsRead(s.spec.deletedOrphans) else [];
      RowsOf(h, args.mode, [s.spec.root], false) + RowsOf(h, args.mode, orphans, true)
  }

  /** The batches of a scan: one per whole file, in file order. */
  function FileBatches(args: Args, files: seq<string>, stored: string -> Option<Stored>): seq<seq<W.Row>> {
    if files == [] then []
    else
      (if Whole(stored(files[0])) then [FileRows(args, files[0], stored(files[0]))] else [])
      + FileBatches(args, files[1..], stored)
  }

  lemma FileRowsScanned(args: Args, file: string, stored: string -> Option<Stored>)
    requires Scannable(args, stored(file))
    ensures ScanEnv(args, stored).RowsOf(file) == FileRows(args, file, stored(file))
    ensures FileRows(args, file, stored(file)) == [] <==> !Whole(stored(file))
  {
    hide Hive, LayoutFits, KeyFits, NoLookalikes, AnswersAsReader, BuildRows, RowsOf, OrphansAsRead, WrittenHive;
    if stored(file).Some? {
      var s := stored(file).value;
      if s.kept < |Hive(s.spec)| {
        TruncatedYieldsNothing(args.parser, args.applyLogs, args.recover, args.mode, s.spec, s.kept, file, s.logs);
      } else {
        assert Content(s) == Hive(s.spec);
        WrittenDataComesOut(args.parser, s.spec, args.mode, args.applyLogs, args.recover, file, s.logs, args.hiveType);
        var h := WrittenHive(s.spec, s.spec.root, args.hiveType, args.applyLogs, file, s.logs != []);
        RootHasRows(h, args.mode, s.spec.root);
      }
    }
  }

  lemma RootHasRows(h: W.Hive, mode: W.Mode, root: KeySpec)
    ensures RowsOf(h, mode, [root], false) != []
  {
    hide W.Rows;
    OneRecord(root);
    W.Counts(h, mode, Records(root, "", false));
  }

  lemma {:induction false} FileBatchesOwed(args: Args, files: seq<string>, stored: string -> Option<Stored>)
    requires forall file :: file in files ==> Scannable(args, stored(file))
    ensures RH.Batches(ScanEnv(args, stored), files) == FileBatches(args, files, stored)
  {
    hide Hive, Scannable, FileRows, ScanEnv, Whole;
    if files != [] {
      assert files[0] in files && forall file :: file in files[1..] ==> file in files;
      FileRowsScanned(args, files[0], stored);
      FileBatchesOwed(args, files[1..], stored);
    }
  }

  /**
   The whole of it: over any files, unreadable or with built hives, whole or cut short, and any interleaving of calls
   with resumption in fresh producers, the results are the rows of the whole files, a batch each, in
   file order, every one once, and then only `None`.
   */
  lemma ScanOfBuiltHives(args: Args, files: seq<string>, stored: string -> Option<Stored>, events: seq<RH.Event>)
    requires forall file :: file in files ==> Scannable(args, stored(file))
    ensures RH.ExactlyOnce(RH.Run(ScanEnv(args, stored), RH.GlobState(C.Opened(files)), events),
                           FileBatches(args, files, stored))
  {
    hide Scannable, ScanEnv, FileBatches, RH.ExactlyOnce, RH.Run;
    FileBatchesOwed(args, files, stored);
    RH.ScanExactlyOnce(ScanEnv(args, stored), files, events);
  }

  /** The same on real producers. */
  method ScanFiles(args: Args, files: seq<string>, stored: string -> Option<Stored>, events: seq<RH.Event>)
    returns (results: seq<Option<seq<W.Row>>>)
    requires forall file :: file in files ==> Scannable(args, stored(file))
    ensures RH.ExactlyOnce(results, FileBatches(args, files, stored))
  {
    hide Scannable, ScanEnv, FileBatches, RH.ExactlyOnce, RH.Run;
    results := RH.Scan(ScanEnv(args, stored), files, events);
    FileBatchesOwed(args, files, stored);
  }
}
