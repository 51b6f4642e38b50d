/**
 Rendering bytes as a compact SQL blob expression: hex literals and `repeat('00', n)` for long
 zero runs, joined by `||`. The evaluator inverts it the way a database would.
 */
module BlobSql {
  import opened LittleEndian
  import opened Numerals
  import opened Text

  const ZERO_RUN_MIN: nat := 32

  /** One operand of the concatenation. */
  datatype Part = Lit(bytes: Bytes) | Rep(zeros: nat)

  function ZeroRun(bytes: Bytes): (n: nat)
    ensures n <= |bytes|
  {
    if bytes == [] || bytes[0] != 0 then 0 else 1 + ZeroRun(bytes[1..])
  }

  /** The operands for `bytes`, `lit` being the literal still open. */
  function Parts(bytes: Bytes, lit: Bytes): seq<Part>
    decreases |bytes|
  {
    if bytes == [] then Flushed(lit)
    else
      var run := ZeroRun(bytes);
      if run >= ZERO_RUN_MIN then Flushed(lit) + [Rep(run)] + Parts(bytes[run..], [])
      else Parts(bytes[1..], lit + [bytes[0]])
  }

  function PartText(p: Part): string {
    match p
    case Lit(bytes) => "'" + Hex(bytes) + "'"
    case Rep(n) => "repeat('00', " + Decimal(n) + ")"
  }

  function PartTexts(parts: seq<Part>): (r: seq<string>)
    ensures |r| == |parts|
  {
    if parts == [] then [] else [PartText(parts[0])] + PartTexts(parts[1..])
  }

  const JOINER: string := " || "
  const OPEN: string := "unhex("
  const CLOSE: string := ")::BLOB"
  const REPEAT: string := "repeat('00', "

  /** The operands as printed: at least the empty literal. */
  function Operands(bytes: Bytes): seq<Part> {
    var parts := Parts(bytes, []);
    if parts == [] then [Lit([])] else parts
  }

  function Sql(bytes: Bytes): string {
    OPEN + Join(PartTexts(Operands(bytes)), JOINER) + CLOSE
  }

  method CountZeros(bytes: Bytes, from: nat) returns (run: nat)
    requires from <= |bytes|
    ensures run == ZeroRun(bytes[from..])
  {
    run := 0;
    while from + run < |bytes| && bytes[from + run] == 0
      invariant from + run <= |bytes|
      invariant ZeroRun(bytes[from..]) == run + ZeroRun(bytes[from + run..])
    {
      assert bytes[from + run..][1..] == bytes[from + run + 1..];
      run := run + 1;
    }
  }

  /** Push the open literal, if there is one. */
  method Flush(texts: seq<string>, lit: string, ghost done: seq<Part>, ghost litBytes: Bytes) returns (r: seq<string>)
    requires texts == PartTexts(done) && lit == Hex(litBytes)
    ensures r == PartTexts(done + Flushed(litBytes))
  {
    hide Hex, PartTexts;
    r := texts;
    if lit != "" {
      PartTextsSnoc(done, Lit(litBytes));
      r := r + ["'" + lit + "'"];
    } else {
      assert litBytes == [];
      assert done + [] == done;
    }
  }

  function Flushed(lit: Bytes): seq<Part> {
    if lit == [] then [] else [Lit(lit)]
  }

  method CompactBlobSql(bytes: Bytes) returns (sql: string)
    ensures sql == Sql(bytes)
  {
    hide Hex, Decimal, Join, ZeroRun, HexDigit, Parts, PartTexts, Flushed;
    var texts: seq<string> := [];
    var lit := "";
    var i := 0;
    ghost var litBytes: Bytes := [];
    ghost var done: seq<Part> := [];
    ghost var all := Parts(bytes, []);
    assert bytes[0..] == bytes;
    NothingYet();
    while i < |bytes|
      invariant 0 <= i <= |bytes|
      invariant lit == Hex(litBytes)
      invariant texts == PartTexts(done)
      invariant all == done + Parts(bytes[i..], litBytes)
    {
      var run := CountZeros(bytes, i);
      PartsStep(bytes, i, litBytes);
      if run >= ZERO_RUN_MIN {
        ghost var flushed := Flushed(litBytes);
        RunStep(all, done, flushed, Rep(run), Parts(bytes[i + run..], []));
        texts := Flush(texts, lit, done, litBytes);
        PartTextsSnoc(done + flushed, Rep(run));
        texts := texts + ["repeat('00', " + Decimal(run) + ")"];
        done := done + flushed + [Rep(run)];
        lit := "";
        litBytes := [];
        i := i + run;
      } else {
        HexSnoc(litBytes, bytes[i]);
        lit := lit + [HexDigit(bytes[i] / 16), HexDigit(bytes[i] % 16)];
        litBytes := litBytes + [bytes[i]];
        i := i + 1;
      }
    }
    PartsEnd(bytes[i..], litBytes);
    texts := Flush(texts, lit, done, litBytes);
    if texts == [] {
      texts := texts + ["''"];
      EmptyLiteralText();
    }
    assert texts == PartTexts(Operands(bytes));
    sql := "unhex(" + Join(texts, JOINER) + ")::BLOB";
  }

  lemma NothingYet()
    ensures Hex([]) == "" && PartTexts([]) == []
  {
  }

  lemma PartsEnd(bytes: Bytes, lit: Bytes)
    requires bytes == []
    ensures Parts(bytes, lit) == Flushed(lit)
  {
  }

  lemma PartsStep(bytes: Bytes, i: nat, lit: Bytes)
    requires i < |bytes|
    ensures var run := ZeroRun(bytes[i..]);
      Parts(bytes[i..], lit)
      == if run >= ZERO_RUN_MIN then Flushed(lit) + [Rep(run)] + Parts(bytes[i + run..], [])
         else Parts(bytes[i + 1..], lit + [bytes[i]])
  {
    hide ZeroRun;
    var rest := bytes[i..];
    assert rest[ZeroRun(rest)..] == bytes[i + ZeroRun(rest)..];
    assert rest[1..] == bytes[i + 1..];
  }

  lemma EmptyLiteralText()
    ensures PartTexts([Lit([])]) == ["''"]
  {
    assert Hex([]) == "" && "'" + "" + "'" == "''";
  }

  lemma RunStep(all: seq<Part>, done: seq<Part>, flushed: seq<Part>, rep: Part, rest: seq<Part>)
    requires all == done + (flushed + [rep] + rest)
    ensures all == done + flushed + [rep] + rest
  {
  }

  lemma HexSnoc(bytes: Bytes, b: byte)
    ensures Hex(bytes + [b]) == Hex(bytes) + [HexDigit(b / 16), HexDigit(b % 16)]
    ensures Hex(bytes + [b]) != ""
  {
    HexConcat(bytes, [b]);
    assert Hex([b]) == [HexDigit(b / 16), HexDigit(b % 16)] + Hex([]);
  }

  lemma {:induction false} PartTextsSnoc(parts: seq<Part>, p: Part)
    ensures PartTexts(parts + [p]) == PartTexts(parts) + [PartText(p)]
  {
    hide PartText;
    if parts == [] {
      assert PartTexts([p]) == [PartText(p)] + PartTexts([]);
    } else {
      assert (parts + [p])[1..] == parts[1..] + [p];
      PartTextsSnoc(parts[1..], p);
    }
  }

  // ---------- evaluation ----------

  function StripSuffix(s: string, suffix: string): Option<string> {
    if |suffix| <= |s| && s[|s| - |suffix|..] == suffix then Some(s[..|s| - |suffix|]) else None
  }

  /** Pieces between the leftmost, non-overlapping joiners. */
  function SplitParts(s: string, cur: string): seq<string>
    decreases |s|
  {
    if s == "" then [cur]
    else if JOINER <= s then [cur] + SplitParts(s[|JOINER|..], "")
    else SplitParts(s[1..], cur + [s[0]])
  }

  function TrimQuotesLeft(s: string): string {
    if s == "" || s[0] != '\'' then s else TrimQuotesLeft(s[1..])
  }

  function TrimQuotesRight(s: string): string {
    if s == "" || s[|s| - 1] != '\'' then s else TrimQuotesRight(s[..|s| - 1])
  }

  function ZeroPairs(n: nat): string {
    if n == 0 then "" else "00" + ZeroPairs(n - 1)
  }

  /** The hex digits one operand contributes. */
  function EvalPart(text: string): Option<string> {
    var stripped := StripPrefix(text, REPEAT);
    var inner := if stripped.Some? then StripSuffix(stripped.value, ")") else None;
    if inner.Some? then
      match ParseDecimal(inner.value)
      case None => None
      case Some(n) => Some(ZeroPairs(n))
    else Some(TrimQuotesRight(TrimQuotesLeft(text)))
  }

  function EvalParts(texts: seq<string>): Option<string> {
    if texts == [] then Some("")
    else
      match (EvalPart(texts[0]), EvalParts(texts[1..]))
      case (Some(a), Some(b)) => Some(a + b)
      case _ => None
  }

  /** The bytes of a blob expression. */
  function Eval(sql: string): Option<Bytes> {
    match StripPrefix(sql, OPEN)
    case None => None
    case Some(s) =>
      match StripSuffix(s, CLOSE)
      case None => None
      case Some(inner) =>
        match EvalParts(SplitParts(inner, ""))
        case None => None
        case Some(hex) => Unhex(hex)
  }

  // ---------- round trip ----------

  function PartBytes(p: Part): Bytes {
    match p
    case Lit(bytes) => bytes
    case Rep(n) => Zeros(n)
  }

  function Denoted(parts: seq<Part>): Bytes {
    if parts == [] then [] else PartBytes(parts[0]) + Denoted(parts[1..])
  }

  lemma {:induction false} ZeroRunZeros(bytes: Bytes)
    ensures bytes[..ZeroRun(bytes)] == Zeros(ZeroRun(bytes))
    ensures ZeroRun(bytes) < |bytes| ==> bytes[ZeroRun(bytes)] != 0
  {
    if bytes != [] && bytes[0] == 0 {
      ZeroRunZeros(bytes[1..]);
      var n := ZeroRun(bytes[1..]);
      assert bytes[..n + 1] == [bytes[0]] + bytes[1..][..n];
      assert Zeros(n + 1) == [0] + Zeros(n);
      assert n < |bytes[1..]| ==> bytes[1..][n] == bytes[n + 1];
    }
  }

  lemma DenotedOne(p: Part, rest: seq<Part>)
    ensures Denoted([p] + rest) == PartBytes(p) + Denoted(rest)
  {
    assert ([p] + rest)[1..] == rest;
  }

  /** The operands denote the bytes. */
  lemma {:induction false} PartsDenote(bytes: Bytes, lit: Bytes)
    ensures Denoted(Parts(bytes, lit)) == lit + bytes
    decreases |bytes|
  {
    hide Denoted, ZeroRun;
    if bytes == [] {
      if lit != [] {
        DenotedOne(Lit(lit), []);
        assert [Lit(lit)] + [] == [Lit(lit)];
      }
      DenotedNone();
    } else {
      var run := ZeroRun(bytes);
      if run >= ZERO_RUN_MIN {
        ZeroRunZeros(bytes);
        PartsDenote(bytes[run..], []);
        var rest := Parts(bytes[run..], []);
        assert bytes == Zeros(run) + ([] + bytes[run..]);
        DenotedOne(Rep(run), rest);
        if lit != [] {
          DenotedOne(Lit(lit), [Rep(run)] + rest);
          assert [Lit(lit)] + [Rep(run)] + rest == [Lit(lit)] + ([Rep(run)] + rest);
        } else {
          assert [] + [Rep(run)] + rest == [Rep(run)] + rest;
        }
      } else {
        PartsDenote(bytes[1..], lit + [bytes[0]]);
        assert lit + [bytes[0]] + bytes[1..] == lit + bytes;
      }
    }
  }

  lemma DenotedNone()
    ensures Denoted([]) == []
  {
  }

  lemma PartNoBar(p: Part)
    ensures '|' !in PartText(p)
  {
    match p
    case Lit(bytes) => HexCharacters(bytes);
    case Rep(n) => DecimalCharacters(n);
  }

  lemma NoJoinerHere(piece: string, rest: string)
    requires piece != "" && '|' !in piece && (rest == "" || JOINER <= rest)
    ensures !(JOINER <= piece + rest)
  {
    var s := piece + rest;
    assert JOINER[1] == '|';
    if |piece| > 1 {
      assert s[1] == piece[1] && piece[1] in piece;
    } else if rest != "" {
      assert s[1] == rest[0] == ' ';
    }
  }

  /** Splitting a piece without a bar runs on to its end. */
  lemma {:induction false} SplitSkip(piece: string, rest: string, cur: string)
    requires '|' !in piece
    requires rest == "" || JOINER <= rest
    ensures SplitParts(piece + rest, cur) == SplitParts(rest, cur + piece)
  {
    var s := piece + rest;
    if piece == "" {
      assert s == rest && cur + piece == cur;
    } else {
      NoJoinerHere(piece, rest);
      assert s[1..] == piece[1..] + rest;
      SplitSkip(piece[1..], rest, cur + [piece[0]]);
      assert cur + [piece[0]] + piece[1..] == cur + piece;
    }
  }

  lemma {:induction false} PartsSplit(parts: seq<Part>)
    requires parts != []
    ensures SplitParts(Join(PartTexts(parts), JOINER), "") == PartTexts(parts)
  {
    hide PartText;
    var text, texts := PartText(parts[0]), PartTexts(parts);
    PartNoBar(parts[0]);
    if |parts| == 1 {
      SplitSkip(text, "", "");
      assert text + "" == text && "" + text == text;
    } else {
      var more := Join(PartTexts(parts[1..]), JOINER);
      var rest := JOINER + more;
      assert texts[1..] == PartTexts(parts[1..]);
      assert Join(texts, JOINER) == text + rest;
      SplitSkip(text, rest, "");
      assert rest[|JOINER|..] == more && "" + text == text;
      PartsSplit(parts[1..]);
    }
  }

  lemma {:induction false} ZeroPairsHex(n: nat)
    ensures ZeroPairs(n) == Hex(Zeros(n))
  {
    if n > 0 {
      ZeroPairsHex(n - 1);
      assert Zeros(n)[1..] == Zeros(n - 1);
    }
  }

  lemma QuotesTrimmed(hex: string)
    requires forall c :: c in hex ==> c != '\''
    ensures TrimQuotesRight(TrimQuotesLeft("'" + hex + "'")) == hex
  {
    var s := "'" + hex + "'";
    assert s[1..] == hex + "'";
    if hex == "" {
      assert s[1..] == "'" && "'"[1..] == "";
    } else {
      assert (hex + "'")[0] == hex[0] && hex[0] in hex;
      assert TrimQuotesLeft(s) == hex + "'";
      assert (hex + "'")[..|hex|] == hex;
      assert hex[|hex| - 1] in hex;
    }
  }

  lemma EvalPartBack(p: Part)
    ensures EvalPart(PartText(p)) == Some(Hex(PartBytes(p)))
  {
    var text := PartText(p);
    match p
    case Lit(bytes) =>
      assert text[0] == '\'' && REPEAT[0] == 'r';
      HexCharacters(bytes);
      assert forall c :: c in Hex(bytes) ==> c != '\'';
      QuotesTrimmed(Hex(bytes));
    case Rep(n) =>
      var digits := Decimal(n);
      assert text == REPEAT + (digits + ")");
      assert text[|REPEAT|..] == digits + ")";
      assert (digits + ")")[|digits|..] == ")" && (digits + ")")[..|digits|] == digits;
      ParseDecimalDecimal(n);
      ZeroPairsHex(n);
  }

  lemma {:induction false} EvalPartsBack(parts: seq<Part>)
    ensures EvalParts(PartTexts(parts)) == Some(Hex(Denoted(parts)))
  {
    hide PartText, EvalPart;
    if parts != [] {
      EvalPartBack(parts[0]);
      EvalPartsBack(parts[1..]);
      HexConcat(PartBytes(parts[0]), Denoted(parts[1..]));
      assert PartTexts(parts)[1..] == PartTexts(parts[1..]);
    }
  }

  /** Evaluating the expression gives the bytes back, for every byte string. */
  lemma SqlRoundTrip(bytes: Bytes)
    ensures Eval(Sql(bytes)) == Some(bytes)
  {
    hide Parts, Join, PartTexts, SplitParts, EvalParts;
    var parts := Operands(bytes);
    var inner := Join(PartTexts(parts), JOINER);
    var sql := Sql(bytes);
    assert sql == OPEN + (inner + CLOSE);
    assert sql[|OPEN|..] == inner + CLOSE;
    assert (inner + CLOSE)[|inner|..] == CLOSE && (inner + CLOSE)[..|inner|] == inner;
    PartsSplit(parts);
    EvalPartsBack(parts);
    PartsDenote(bytes, []);
    assert [] + bytes == bytes;
    assert Denoted([Lit([])]) == [] by { EmptyLiteral(); }
    UnhexHex(bytes);
  }

  lemma EmptyLiteral()
    ensures Denoted([Lit([])]) == []
  {
  }

  // ---------- canonical form ----------

  /** No run of 32 zeros anywhere. */
  predicate ShortRuns(bytes: Bytes) {
    forall i :: 0 <= i < |bytes| ==> ZeroRun(bytes[i..]) < 32
  }

  predicate ZerosAt(bytes: Bytes, i: nat) {
    i + 32 <= |bytes| && bytes[i..i + 32] == Zeros(32)
  }

  lemma ShortRunsExact(bytes: Bytes)
    ensures ShortRuns(bytes) <==> forall i: nat :: !ZerosAt(bytes, i)
  {
    hide ZeroRun;
    forall i: nat
      ensures i < |bytes| && ZeroRun(bytes[i..]) >= 32 <==> ZerosAt(bytes, i)
    {
      if i < |bytes| {
        var s := bytes[i..];
        ZeroRunZeros(s);
        if ZeroRun(s) >= 32 {
          assert s[..ZeroRun(s)][..32] == Zeros(32) && s[..32] == bytes[i..i + 32];
        } else if i + 32 <= |bytes| {
          assert bytes[i..i + 32][ZeroRun(s)] == s[ZeroRun(s)];
        }
      }
    }
  }

  predicate StartsZero(p: Part) {
    match p
    case Lit(bytes) => bytes != [] && bytes[0] == 0
    case Rep(n) => n > 0
  }

  /**
   Literals and repeats alternate; a literal is not empty and holds no long zero run; a repeat is
   long, and no zero borders it on either side.
   */
  predicate Canonical(parts: seq<Part>) {
    parts != [] ==>
      && (match parts[0]
          case Lit(bytes) =>
            && bytes != [] && ShortRuns(bytes)
            && (|parts| > 1 ==> parts[1].Rep? && bytes[|bytes| - 1] != 0)
          case Rep(n) =>
            n >= 32 && (|parts| > 1 ==> parts[1].Lit? && !StartsZero(parts[1])))
      && Canonical(parts[1..])
  }

  lemma {:induction false} ZeroRunConcat(a: Bytes, b: Bytes)
    ensures ZeroRun(a + b) == if ZeroRun(a) == |a| then |a| + ZeroRun(b) else ZeroRun(a)
  {
    if a == [] {
      assert a + b == b;
    } else {
      assert (a + b)[1..] == a[1..] + b;
      ZeroRunConcat(a[1..], b);
    }
  }

  lemma {:induction false} ZeroRunOfZeros(n: nat)
    ensures ZeroRun(Zeros(n)) == n
  {
    if n > 0 {
      assert Zeros(n)[1..] == Zeros(n - 1);
      ZeroRunOfZeros(n - 1);
    }
  }

  /** No long run starts inside `lit` when `bytes` follows it. */
  predicate OpenEnded(lit: Bytes, bytes: Bytes) {
    forall i :: 0 <= i < |lit| ==> ZeroRun((lit + bytes)[i..]) < ZERO_RUN_MIN
  }

  lemma OpenEndedShort(lit: Bytes, bytes: Bytes)
    requires OpenEnded(lit, bytes)
    ensures ShortRuns(lit)
    ensures lit != [] && ZeroRun(bytes) >= ZERO_RUN_MIN ==> lit[|lit| - 1] != 0
  {
    hide ZeroRun;
    forall i | 0 <= i < |lit|
      ensures ZeroRun(lit[i..]) < ZERO_RUN_MIN
    {
      assert (lit + bytes)[i..] == lit[i..] + bytes;
      ZeroRunConcat(lit[i..], bytes);
      assert ZeroRun((lit + bytes)[i..]) < ZERO_RUN_MIN;
    }
    if lit != [] {
      var last := |lit| - 1;
      assert (lit + bytes)[last..] == [lit[last]] + bytes;
      assert ZeroRun((lit + bytes)[last..]) < ZERO_RUN_MIN;
      ZeroRunConcat([lit[last]], bytes);
      RunOfOne(lit[last]);
    }
  }

  lemma RunOfOne(b: byte)
    ensures ZeroRun([b]) == if b == 0 then 1 else 0
  {
    assert [b][1..] == [];
  }

  lemma {:induction false} PartsHead(bytes: Bytes, lit: Bytes)
    requires lit != []
    ensures Parts(bytes, lit) != [] && Parts(bytes, lit)[0].Lit? && lit <= Parts(bytes, lit)[0].bytes
    decreases |bytes|
  {
    if bytes != [] && ZeroRun(bytes) < ZERO_RUN_MIN {
      PartsHead(bytes[1..], lit + [bytes[0]]);
    }
  }

  lemma PartsHeadNonzero(bytes: Bytes)
    requires bytes != [] && bytes[0] != 0
    ensures Parts(bytes, []) != [] && Parts(bytes, [])[0].Lit? && !StartsZero(Parts(bytes, [])[0])
  {
    assert [] + [bytes[0]] == [bytes[0]];
    PartsHead(bytes[1..], [bytes[0]]);
  }

  lemma {:induction false} PartsCanonical(bytes: Bytes, lit: Bytes)
    requires OpenEnded(lit, bytes)
    ensures Canonical(Parts(bytes, lit))
    decreases |bytes|
  {
    hide ZeroRun, OpenEnded;
    OpenEndedShort(lit, bytes);
    if bytes == [] {
      assert Canonical([]);
      assert lit != [] ==> [Lit(lit)][1..] == [];
    } else {
      var run := ZeroRun(bytes);
      if run >= ZERO_RUN_MIN {
        var rest := Parts(bytes[run..], []);
        OpenEndedNone(bytes[run..]);
        PartsCanonical(bytes[run..], []);
        ZeroRunZeros(bytes);
        if run < |bytes| {
          PartsHeadNonzero(bytes[run..]);
        }
        CanonicalRun(lit, run, rest);
      } else {
        OpenEndedNext(lit, bytes);
        PartsCanonical(bytes[1..], lit + [bytes[0]]);
      }
    }
  }

  lemma OpenEndedNone(bytes: Bytes)
    ensures OpenEnded([], bytes)
  {
  }

  lemma OpenEndedNext(lit: Bytes, bytes: Bytes)
    requires OpenEnded(lit, bytes) && bytes != [] && ZeroRun(bytes) < ZERO_RUN_MIN
    ensures OpenEnded(lit + [bytes[0]], bytes[1..])
  {
    hide ZeroRun;
    assert lit + [bytes[0]] + bytes[1..] == lit + bytes;
    assert (lit + bytes)[|lit|..] == bytes;
  }

  lemma CanonicalRun(lit: Bytes, run: nat, rest: seq<Part>)
    requires run >= ZERO_RUN_MIN && Canonical(rest) && ShortRuns(lit) && (lit != [] ==> lit[|lit| - 1] != 0)
    requires rest != [] ==> rest[0].Lit? && !StartsZero(rest[0])
    ensures Canonical(Flushed(lit) + [Rep(run)] + rest)
  {
    hide ShortRuns;
    var tail := [Rep(run)] + rest;
    assert tail[1..] == rest;
    assert Canonical(tail);
    if lit != [] {
      var parts := [Lit(lit)] + [Rep(run)] + rest;
      assert parts[1..] == tail;
    } else {
      assert [] + [Rep(run)] + rest == tail;
    }
  }

  lemma {:induction false} ScanLiteral(lit: Bytes, rest: Bytes, before: Bytes)
    requires OpenEnded(lit, rest)
    ensures Parts(lit + rest, before) == Parts(rest, before + lit)
    decreases |lit|
  {
    hide ZeroRun;
    if lit == [] {
      assert lit + rest == rest && before + lit == before;
    } else {
      var bytes := lit + rest;
      assert bytes[0..] == bytes;
      assert bytes[1..] == lit[1..] + rest;
      forall i | 0 <= i < |lit[1..]|
        ensures ZeroRun((lit[1..] + rest)[i..]) < ZERO_RUN_MIN
      {
        assert (lit[1..] + rest)[i..] == bytes[i + 1..];
      }
      ScanLiteral(lit[1..], rest, before + [lit[0]]);
      assert before + [lit[0]] + lit[1..] == before + lit;
    }
  }

  lemma DenotedStart(parts: seq<Part>)
    requires Canonical(parts) && parts != [] && !StartsZero(parts[0])
    ensures Denoted(parts) != [] && Denoted(parts)[0] != 0
  {
  }

  lemma ClosedLiteral(lit: Bytes, rest: Bytes)
    requires ShortRuns(lit) && (rest == [] || (lit != [] && lit[|lit| - 1] != 0))
    ensures OpenEnded(lit, rest)
  {
    hide ZeroRun;
    forall i | 0 <= i < |lit|
      ensures ZeroRun((lit + rest)[i..]) < ZERO_RUN_MIN
    {
      assert (lit + rest)[i..] == lit[i..] + rest;
      assert ZeroRun(lit[i..]) < ZERO_RUN_MIN;
      ZeroRunConcat(lit[i..], rest);
      if rest == [] {
        assert lit[i..] + rest == lit[i..];
      } else {
        EndsNonzero(lit[i..]);
      }
    }
  }

  lemma {:induction false} EndsNonzero(s: Bytes)
    requires s != [] && s[|s| - 1] != 0
    ensures ZeroRun(s) < |s|
  {
    if |s| > 1 {
      EndsNonzero(s[1..]);
    }
  }

  /** Any canonical operand list is the one computed from the bytes it denotes. */
  lemma {:induction false} CanonicalUnique(parts: seq<Part>)
    requires Canonical(parts)
    ensures Parts(Denoted(parts), []) == parts
    decreases |parts|
  {
    hide ZeroRun, OpenEnded, ShortRuns, StartsZero;
    if parts != [] {
      var rest := parts[1..];
      CanonicalUnique(rest);
      match parts[0]
      case Rep(n) =>
        assert parts == [Rep(n)] + rest;
        RunThenRest(n, rest, []);
      case Lit(lit) =>
        if rest == [] {
          DenotedOne(Lit(lit), []);
          DenotedNone();
          assert parts == [Lit(lit)] + [] == [Lit(lit)];
          ClosedLiteral(lit, []);
          ScanLiteral(lit, [], []);
          assert [] + lit == lit && lit + [] == lit;
        } else {
          CanonicalUnique(rest[1..]);
          LiteralThenRun(lit, rest);
          assert parts == [Lit(lit)] + rest;
        }
    }
  }

  lemma LiteralThenRun(lit: Bytes, rest: seq<Part>)
    requires lit != [] && ShortRuns(lit) && lit[|lit| - 1] != 0 && Canonical(rest) && rest != [] && rest[0].Rep?
    requires Parts(Denoted(rest[1..]), []) == rest[1..]
    ensures Parts(Denoted([Lit(lit)] + rest), []) == [Lit(lit)] + rest
  {
    hide ZeroRun, OpenEnded, ShortRuns, StartsZero, Parts, Denoted;
    var n, more := rest[0].zeros, rest[1..];
    DenotedOne(Lit(lit), rest);
    ClosedLiteral(lit, Denoted(rest));
    ScanLiteral(lit, Denoted(rest), []);
    assert [] + lit == lit;
    RunThenRest(n, more, lit);
    assert rest == [Rep(n)] + more;
    assert [Lit(lit)] + [Rep(n)] + more == [Lit(lit)] + rest;
  }

  lemma RunThenRest(n: nat, rest: seq<Part>, lit: Bytes)
    requires n >= ZERO_RUN_MIN && Canonical(rest) && (rest != [] ==> rest[0].Lit? && !StartsZero(rest[0]))
    requires Parts(Denoted(rest), []) == rest
    ensures Parts(Denoted([Rep(n)] + rest), lit) == Flushed(lit) + [Rep(n)] + rest
  {
    hide ZeroRun, Canonical;
    var b := Denoted(rest);
    DenotedOne(Rep(n), rest);
    ZeroRunConcat(Zeros(n), b);
    ZeroRunOfZeros(n);
    RunOfDenoted(rest);
    assert (Zeros(n) + b)[n..] == b;
  }

  lemma RunOfDenoted(rest: seq<Part>)
    requires Canonical(rest) && (rest != [] ==> rest[0].Lit? && !StartsZero(rest[0]))
    ensures ZeroRun(Denoted(rest)) == 0
  {
    if rest != [] {
      DenotedStart(rest);
    }
  }

  /**
   Canonical form in full: an operand list is canonical and denotes the bytes exactly when it is
   the one computed; so each repeat is one maximal zero run, and the rendering is unique.
   */
  lemma CanonicalForm(bytes: Bytes, parts: seq<Part>)
    ensures Canonical(parts) && Denoted(parts) == bytes <==> parts == Parts(bytes, [])
  {
    hide Canonical, Parts, Denoted;
    OpenEndedNone(bytes);
    PartsCanonical(bytes, []);
    PartsDenote(bytes, []);
    assert [] + bytes == bytes;
    if Canonical(parts) {
      CanonicalUnique(parts);
    }
  }

  /** What is printed, spelled out: for no bytes, and for a literal before a repeat. */
  lemma SqlSpelled(b: byte, n: nat)
    requires b != 0 && n >= 32
    ensures Sql([]) == "unhex(" + "''" + ")::BLOB"
    ensures var literal, repeated := "'" + Hex([b]) + "'", "repeat('00', " + Decimal(n) + ")";
      Sql([b] + Zeros(n)) == "unhex(" + (literal + " || " + repeated) + ")::BLOB"
  {
    hide Hex, Decimal, Parts, PartTexts, Denoted, Canonical, Join;
    EmptySpelled();
    TwoParts(b, n);
    CanonicalForm([b] + Zeros(n), [Lit([b])] + [Rep(n)]);
    TwoTexts(Lit([b]), Rep(n));
  }

  lemma EmptySpelled()
    ensures Join(PartTexts(Operands([])), JOINER) == "''"
  {
    PartsEnd([], []);
    EmptyLiteralText();
  }

  lemma TwoTexts(p: Part, q: Part)
    ensures Join(PartTexts([p] + [q]), JOINER) == PartText(p) + " || " + PartText(q)
  {
    hide PartText;
    PartTextsSnoc([p], q);
    PartTextsSnoc([], p);
    assert [] + [p] == [p] && [] + [PartText(p)] == [PartText(p)];
    var texts := [PartText(p)] + [PartText(q)];
    assert texts[1..] == [PartText(q)];
  }

  lemma TwoParts(b: byte, n: nat)
    requires b != 0 && n >= 32
    ensures Canonical([Lit([b])] + [Rep(n)]) && Denoted([Lit([b])] + [Rep(n)]) == [b] + Zeros(n)
  {
    var parts := [Lit([b])] + [Rep(n)];
    assert parts[1..] == [Rep(n)] && [Rep(n)][1..] == [];
    DenotedOne(Lit([b]), [Rep(n)]);
    DenotedOne(Rep(n), []);
    DenotedNone();
    assert [Rep(n)] + [] == [Rep(n)] && Zeros(n) + [] == Zeros(n);
    assert [b][0..] == [b] && ZeroRun([b]) == 0;
    assert ShortRuns([b]);
    assert Canonical([]);
    assert Canonical([Rep(n)]);
  }
}
