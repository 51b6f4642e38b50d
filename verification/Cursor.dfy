/** The file-glob scan cursor, and a byte form it survives. */
module Cursor {
  import opened LittleEndian

  /** A playlist position: files not started, the file in progress, rows emitted from it. */
  datatype CursorState = CursorState(pending: seq<string>, current: Option<string>, emitted: u64)

  const EXHAUSTED: CursorState := CursorState([], None, 0)

  function Opened(files: seq<string>): CursorState {
    if files == [] then EXHAUSTED else CursorState(files[1..], Some(files[0]), 0)
  }

  function Advanced(s: CursorState): CursorState {
    if s.pending == [] then EXHAUSTED else CursorState(s.pending[1..], Some(s.pending[0]), 0)
  }

  predicate Done(s: CursorState) {
    s.current.None? && s.pending == []
  }

  /** The files still to be emitted, in order. */
  function Remaining(s: CursorState): seq<string> {
    (if s.current.Some? then [s.current.value] else []) + s.pending
  }

  class HiveGlobCursor {
    var pendingFiles: seq<string>
    var currentFile: Option<string>
    var emittedInCurrent: u64

    function State(): CursorState
      reads this
    {
      CursorState(pendingFiles, currentFile, emittedInCurrent)
    }

    constructor (files: seq<string>)
      ensures State() == Opened(files)
    {
      if files == [] {
        currentFile, pendingFiles := None, [];
      } else {
        currentFile, pendingFiles := Some(files[0]), files[1..];
      }
      emittedInCurrent := 0;
    }

    constructor FromBytes(bytes: Bytes)
      ensures State() == Decode(bytes)
    {
      var s := Decode(bytes);
      pendingFiles, currentFile, emittedInCurrent := s.pending, s.current, s.emitted;
    }

    function ToBytes(): Bytes
      reads this
    {
      Encode(State())
    }

    predicate IsExhausted()
      reads this
    {
      currentFile.None? && pendingFiles == []
    }

    method AdvanceFile()
      modifies this
      ensures State() == Advanced(old(State()))
    {
      if pendingFiles == [] {
        currentFile := None;
      } else {
        currentFile := Some(pendingFiles[0]);
        pendingFiles := pendingFiles[1..];
      }
      emittedInCurrent := 0;
    }
  }

  // ---------- bytes ----------

  /** Each character behind a 1, the end marked by a 0. */
  function EncodeText(s: string): Bytes {
    if s == "" then [0] else [1] + LE32(s[0] as int) + EncodeText(s[1..])
  }

  function EncodeList(files: seq<string>): Bytes {
    if files == [] then [0] else [1] + EncodeText(files[0]) + EncodeList(files[1..])
  }

  function Encode(s: CursorState): (r: Bytes)
    ensures r != []
  {
    EncodeList(s.pending) + EncodeList(if s.current.Some? then [s.current.value] else []) + LE64(s.emitted)
  }

  function ParseText(b: Bytes): Option<(string, Bytes)>
    decreases |b|
  {
    if b == [] then None
    else if b[0] == 0 then Some(("", b[1..]))
    else if b[0] != 1 || |b| < 5 then None
    else
      var c := Rd32(b, 1);
      if 0xD800 <= c < 0xE000 || c >= 0x11_0000 then None
      else
        match ParseText(b[5..])
        case None => None
        case Some((s, rest)) => Some(([c as char] + s, rest))
  }

  lemma {:induction false} ParseTextShrinks(b: Bytes)
    ensures ParseText(b).Some? ==> |ParseText(b).value.1| < |b|
    decreases |b|
  {
    if b != [] && b[0] == 1 && |b| >= 5 {
      ParseTextShrinks(b[5..]);
    }
  }

  function ParseList(b: Bytes): Option<(seq<string>, Bytes)>
    decreases |b|
  {
    if b == [] then None
    else if b[0] == 0 then Some(([], b[1..]))
    else if b[0] != 1 then None
    else
      ParseTextShrinks(b[1..]);
      match ParseText(b[1..])
      case None => None
      case Some((file, more)) =>
        match ParseList(more)
        case None => None
        case Some((files, rest)) => Some(([file] + files, rest))
  }

  function Parse(b: Bytes): Option<CursorState> {
    match ParseList(b)
    case None => None
    case Some((pending, b1)) =>
      match ParseList(b1)
      case None => None
      case Some((current, b2)) =>
        if |current| > 1 || |b2| != 8 then None
        else Some(CursorState(pending, if current == [] then None else Some(current[0]), Rd64(b2, 0)))
  }

  /** Empty and malformed bytes both give the default cursor, which has no files left. */
  function Decode(b: Bytes): CursorState {
    match Parse(b)
    case None => EXHAUSTED
    case Some(s) => s
  }

  lemma {:induction false} ParseTextBack(s: string, rest: Bytes)
    ensures ParseText(EncodeText(s) + rest) == Some((s, rest))
  {
    var b := EncodeText(s) + rest;
    if s == "" {
      assert b[1..] == rest;
    } else {
      hide LE32, Rd32;
      var field := LE32(s[0] as int);
      assert b == [1] + field + (EncodeText(s[1..]) + rest);
      assert b[1..5] == field && b[5..] == EncodeText(s[1..]) + rest;
      Read32(b, 1, s[0] as int);
      ParseTextBack(s[1..], rest);
      assert s == [s[0]] + s[1..];
    }
  }

  lemma {:induction false} ParseListBack(files: seq<string>, rest: Bytes)
    ensures ParseList(EncodeList(files) + rest) == Some((files, rest))
  {
    hide ParseText, EncodeText;
    var b := EncodeList(files) + rest;
    if files == [] {
      assert b[1..] == rest;
    } else {
      assert b[1..] == EncodeText(files[0]) + (EncodeList(files[1..]) + rest);
      ParseTextBack(files[0], EncodeList(files[1..]) + rest);
      ParseListBack(files[1..], rest);
      assert files == [files[0]] + files[1..];
    }
  }

  /** Serialize, deserialize: the same position, for every position. */
  lemma CursorRoundTrip(s: CursorState)
    ensures Decode(Encode(s)) == s
  {
    hide ParseList, EncodeList, LE64, Rd64;
    var current := if s.current.Some? then [s.current.value] else [];
    var tail := LE64(s.emitted);
    assert Encode(s) == EncodeList(s.pending) + (EncodeList(current) + tail);
    ParseListBack(s.pending, EncodeList(current) + tail);
    ParseListBack(current, tail);
    assert tail[0..8] == tail;
    Read64(tail, 0, s.emitted);
  }

  /** No bytes are no cursor: the scan position is exhausted, not the start. */
  lemma EmptyIsExhausted()
    ensures Parse([]) == None && Decode([]) == EXHAUSTED
  {
  }
}
