/**
 Rendering raw value bytes: UTF-16LE strings, NUL-delimited string lists, integers and hex, with
 the flag that says whether the rendering was exact. The encoders of the fixture generator are
 the inverses the decoders are measured against.
 */
module ValueType {
  import opened LittleEndian
  import opened Utf16
  import opened Numerals
  import opened Text

  // ---------- strings ----------

  /** The whole units of a byte string, without one trailing NUL. */
  function TrimmedUnits(bytes: Bytes): seq<u16> {
    var units := UnitsOf(bytes);
    if units != [] && units[|units| - 1] == 0 then units[..|units| - 1] else units
  }

  function SzText(bytes: Bytes): string {
    Lossy(DecodeItems(TrimmedUnits(bytes)))
  }

  predicate SzBad(bytes: Bytes) {
    |bytes| % 2 != 0 || !Clean(DecodeItems(TrimmedUnits(bytes)))
  }

  /** The unit-collecting loop both decoders start with. */
  method CollectUnits(bytes: Bytes) returns (units: seq<u16>)
    ensures units == UnitsOf(bytes)
  {
    units := [];
    var i := 0;
    while i + 1 < |bytes|
      invariant i % 2 == 0 && 0 <= i <= |bytes|
      invariant units == UnitsOf(bytes)[..i / 2]
    {
      UnitsOfSnoc(bytes, i / 2);
      units := units + [Rd16(bytes, i)];
      i := i + 2;
    }
    assert i / 2 == |bytes| / 2;
  }

  /** The item loop of both decoders: replacement characters for errors, and whether there was one. */
  method CollectText(units: seq<u16>) returns (out: string, bad: bool)
    ensures out == Lossy(DecodeItems(units)) && bad == !Clean(DecodeItems(units))
  {
    hide DecodeItems;
    var items := DecodeItems(units);
    out, bad := [], false;
    for i := 0 to |items|
      invariant out + Lossy(items[i..]) == Lossy(items)
      invariant !bad <==> forall j :: 0 <= j < i ==> items[j].Some?
    {
      assert items[i..][1..] == items[i + 1..];
      match items[i]
      case Some(ch) =>
        out := out + [ch];
      case None =>
        bad := true;
        out := out + [REPLACEMENT];
    }
  }

  method DecodeUtf16le(bytes: Bytes) returns (out: string, bad: bool)
    ensures out == SzText(bytes) && bad == SzBad(bytes)
  {
    bad := |bytes| % 2 != 0;
    var units := CollectUnits(bytes);
    if units != [] && units[|units| - 1] == 0 {
      units := units[..|units| - 1];
    }
    var text, badUnits := CollectText(units);
    out := text;
    if badUnits {
      bad := true;
    }
  }

  /** UTF-16LE bytes of a text. */
  function TextBytes(s: string): Bytes {
    UnitBytes(Encode(s))
  }

  const NUL: Bytes := [0, 0]

  method Sz(s: string) returns (o: Bytes)
    ensures o == TextBytes(s) + NUL
  {
    hide Encode, LE16;
    o := [];
    var units := Encode(s);
    for i := 0 to |units|
      invariant o + UnitBytes(units[i..]) == UnitBytes(units)
    {
      assert units[i..][1..] == units[i + 1..];
      o := o + LE16(units[i]);
    }
    o := o + [0, 0];
  }

  /** Every string comes back, without an error. */
  lemma SzRoundTrip(s: string)
    ensures SzText(TextBytes(s) + NUL) == s && !SzBad(TextBytes(s) + NUL)
  {
    UnitBytesConcat(Encode(s), [0]);
    assert UnitBytes([0]) == NUL;
    UnitsOfBytes(Encode(s) + [0]);
    assert TrimmedUnits(TextBytes(s) + NUL) == Encode(s);
    DecodeEncode(s);
    AllGoodIsCleanText(s);
  }

  /**
   The flag is exact: no error exactly when the bytes encode some text, and then they are the
   encoding of the result, with one trailing NUL if the last unit is NUL.
   */
  lemma SzExact(bytes: Bytes)
    ensures !SzBad(bytes) <==> exists s: string :: TextBytes(s) == bytes
    ensures !SzBad(bytes) ==> bytes == TextBytes(SzText(bytes)) || bytes == TextBytes(SzText(bytes)) + NUL
  {
    hide TextBytes, SzBad, SzText;
    if !SzBad(bytes) {
      var s := SzSound(bytes);
    }
    forall s: string | TextBytes(s) == bytes
      ensures !SzBad(bytes)
    {
      SzComplete(s);
    }
  }

  lemma SzSound(bytes: Bytes) returns (s: string)
    requires !SzBad(bytes)
    ensures TextBytes(s) == bytes
    ensures bytes == TextBytes(SzText(bytes)) || bytes == TextBytes(SzText(bytes)) + NUL
  {
    hide Encode, DecodeItems, Lossy, UnitBytes, UnitsOf, Clean;
    var trimmed, units, t := TrimmedUnits(bytes), UnitsOf(bytes), SzText(bytes);
    EncodeDecode(trimmed);
    BytesOfUnits(bytes);
    if trimmed == units {
      s := t;
    } else {
      s := t + "\0";
      assert units == trimmed + [0];
      EncodeConcat(t, "\0");
      NulEncoded();
      UnitBytesConcat(trimmed, [0]);
    }
  }

  lemma NulEncoded()
    ensures Encode("\0") == [0] && UnitBytes([0]) == NUL
  {
    LE16Zero();
  }

  lemma SzComplete(s: string)
    ensures !SzBad(TextBytes(s))
  {
    hide Encode, DecodeItems, UnitBytes, UnitsOf, Clean;
    UnitsOfBytes(Encode(s));
    DecodeEncode(s);
    AllGoodIsCleanText(s);
    if TrimmedUnits(TextBytes(s)) != Encode(s) {
      TrailingNul(s);
      var t := s[..|s| - 1];
      assert s == t + "\0";
      EncodeConcat(t, "\0");
      NulEncoded();
      assert TrimmedUnits(TextBytes(s)) == Encode(t);
      DecodeEncode(t);
      AllGoodIsCleanText(t);
    }
  }

  lemma {:induction false} TrailingNul(s: string)
    requires Encode(s) != [] && Encode(s)[|Encode(s)| - 1] == 0
    ensures s != "" && s[|s| - 1] == '\0'
  {
    if |s| > 1 {
      assert Encode(s[1..]) != [] by {
        assert Encode(s[1..]) == EncodeScalar(s[1]) + Encode(s[1..][1..]);
      }
      TrailingNul(s[1..]);
    } else {
      assert s[1..] == "";
      assert Encode(s) == EncodeScalar(s[0]);
    }
  }

  /**
   For any bytes at all: take the whole units, without one NUL at their end. Characters stand for
   themselves and each stray surrogate for U+FFFD; the flag says that a byte was left over or a
   surrogate was stray.
   */
  lemma SzAny(bytes: Bytes, marks: seq<Mark>)
    requires Marked(marks)
    requires var units := UnitsOf(bytes); var spelled := Spelling(marks);
      units == spelled + [0] || (units == spelled && (units == [] || units[|units| - 1] != 0))
    ensures SzText(bytes) == MarkText(marks)
    ensures SzBad(bytes) <==> |bytes| % 2 != 0 || AnyStray(marks)
  {
    hide DecodeItems, Lossy, Clean, UnitsOf, Spelling;
    MarksDecoded(marks);
    assert (Spelling(marks) + [0])[..|Spelling(marks)|] == Spelling(marks);
    assert TrimmedUnits(bytes) == Spelling(marks);
  }

  // ---------- string lists ----------

  type Units = seq<u16>

  /** The raw components: maximal NUL-free runs, up to the first empty one. `cur` is the open run. */
  function Components(units: Units, cur: Units): seq<Units> {
    if units == [] then (if cur == [] then [] else [cur])
    else if units[0] != 0 then Components(units[1..], cur + [units[0]])
    else if cur == [] then []
    else [cur] + Components(units[1..], [])
  }

  function Texts(comps: seq<Units>): (r: seq<string>)
    ensures |r| == |comps|
  {
    if comps == [] then [] else [Lossy(DecodeItems(comps[0]))] + Texts(comps[1..])
  }

  predicate AllClean(comps: seq<Units>) {
    forall c :: c in comps ==> Clean(DecodeItems(c))
  }

  function MultiTexts(bytes: Bytes): seq<string> {
    Texts(Components(UnitsOf(bytes), []))
  }

  predicate MultiBad(bytes: Bytes) {
    |bytes| % 2 != 0 || !AllClean(Components(UnitsOf(bytes), []))
  }

  method SplitMultiSz(bytes: Bytes) returns (parts: seq<string>, bad: bool)
    ensures parts == MultiTexts(bytes) && bad == MultiBad(bytes)
  {
    hide DecodeItems, Lossy, Clean, UnitsOf;
    bad := |bytes| % 2 != 0;
    var units := CollectUnits(bytes);
    ghost var all := Components(units, []);
    parts := [];
    var cur: Units := [];
    var i := 0;
    ghost var doneComps: seq<Units> := [];
    while i < |units|
      invariant 0 <= i <= |units|
      invariant all == doneComps + Components(units[i..], cur)
      invariant parts == Texts(doneComps)
      invariant bad == (|bytes| % 2 != 0 || !AllClean(doneComps))
      decreases |units| - i
    {
      assert units[i..][1..] == units[i + 1..];
      if units[i] == 0 {
        if cur == [] {
          break;
        }
        var s, badUnits := CollectText(cur);
        bad := bad || badUnits;
        parts := parts + [s];
        TextsSnoc(doneComps, cur);
        doneComps := doneComps + [cur];
        cur := [];
      } else {
        cur := cur + [units[i]];
      }
      i := i + 1;
    }
    if cur != [] {
      var s, badUnits := CollectText(cur);
      bad := bad || badUnits;
      parts := parts + [s];
      TextsSnoc(doneComps, cur);
      doneComps := doneComps + [cur];
    }
    assert all == doneComps;
  }

  lemma {:induction false} TextsSnoc(comps: seq<Units>, c: Units)
    ensures Texts(comps + [c]) == Texts(comps) + [Lossy(DecodeItems(c))]
    ensures AllClean(comps + [c]) <==> AllClean(comps) && Clean(DecodeItems(c))
  {
    assert AllClean(comps + [c]) ==> c in comps + [c] && forall d :: d in comps ==> d in comps + [c];
    if comps != [] {
      assert (comps + [c])[1..] == comps[1..] + [c];
      TextsSnoc(comps[1..], c);
    } else {
      assert Texts([c]) == [Lossy(DecodeItems(c))] + Texts([]);
    }
  }

  /** The components, each followed by a NUL. */
  function Terminated(comps: seq<Units>): Units {
    if comps == [] then [] else comps[0] + [0] + Terminated(comps[1..])
  }

  predicate Proper(comps: seq<Units>) {
    forall c :: c in comps ==> c != [] && 0 !in c
  }

  /**
   The three shapes a list can be stored in: lacking its last terminator, exactly terminated, or
   terminated and followed by a NUL and anything at all.
   */
  predicate StoredAs(units: Units, comps: seq<Units>) {
    || (comps != [] && units + [0] == Terminated(comps))
    || units == Terminated(comps)
    || Terminated(comps) + [0] <= units
  }

  lemma {:induction false} ComponentsAreStored(units: Units, cur: Units)
    requires 0 !in cur
    ensures Proper(Components(units, cur)) && StoredAs(cur + units, Components(units, cur))
    decreases |units|
  {
    hide StoredAs, Terminated, Proper;
    if units == [] {
      StoredEnd(cur);
      assert cur + units == cur;
    } else {
      var rest := units[1..];
      if units[0] != 0 {
        ComponentsAreStored(rest, cur + [units[0]]);
        assert cur + [units[0]] + rest == cur + units;
      } else if cur != [] {
        ComponentsAreStored(rest, []);
        var more := Components(rest, []);
        assert [] + rest == rest && cur + units == cur + [0] + rest;
        StoredPrepend(cur, rest, more);
        ProperCons(cur, more);
      } else {
        assert cur + units == units;
        StoredNothing(units);
      }
    }
  }

  lemma StoredEnd(cur: Units)
    requires 0 !in cur
    ensures var comps := if cur == [] then [] else [cur]; Proper(comps) && StoredAs(cur, comps)
  {
    if cur != [] {
      assert [cur][1..] == [];
      assert Terminated([cur]) == cur + [0] + [] == cur + [0];
    }
  }

  lemma StoredNothing(units: Units)
    requires units != [] && units[0] == 0
    ensures Proper([]) && StoredAs(units, [])
  {
  }

  lemma ProperCons(c: Units, more: seq<Units>)
    requires c != [] && 0 !in c && Proper(more)
    ensures Proper([c] + more)
  {
  }

  lemma StoredPrepend(c: Units, rest: Units, more: seq<Units>)
    requires StoredAs(rest, more)
    ensures StoredAs(c + [0] + rest, [c] + more)
  {
    assert ([c] + more)[1..] == more;
    assert Terminated([c] + more) == c + [0] + Terminated(more);
    if more != [] && rest + [0] == Terminated(more) {
      assert c + [0] + rest + [0] == c + [0] + (rest + [0]);
    } else if rest != Terminated(more) {
      var tail := rest[|Terminated(more)| + 1..];
      assert rest == Terminated(more) + [0] + tail;
      assert c + [0] + rest == c + [0] + Terminated(more) + [0] + tail;
    }
  }

  lemma StoredSplit(units: Units, c: Units, more: seq<Units>) returns (rest: Units)
    requires StoredAs(units, [c] + more)
    ensures (more == [] && units == c) || (units == c + ([0] + rest) && StoredAs(rest, more))
  {
    assert ([c] + more)[1..] == more;
    var t := Terminated(more);
    assert Terminated([c] + more) == c + [0] + t;
    rest := [];
    if units + [0] == c + [0] + t {
      if more == [] {
        assert units == (units + [0])[..|units|] == (c + [0] + t)[..|c|] == c;
      } else {
        TerminatedLength(more);
        rest := t[..|t| - 1];
        LastIsNul(more);
        assert t == rest + [0];
        assert units == (units + [0])[..|units|] == (c + [0] + t)[..|c| + |t|] == c + [0] + rest;
        assert c + [0] + rest == c + ([0] + rest);
      }
    } else if units == c + [0] + t {
      rest := t;
      assert units == c + ([0] + rest);
    } else {
      rest := units[|c| + 1..];
      assert units[..|c| + 1 + |t| + 1] == c + [0] + t + [0];
      assert units[..|c| + 1] == c + [0];
      assert units == c + [0] + rest == c + ([0] + rest);
      assert rest[..|t| + 1] == t + [0];
    }
  }

  lemma {:induction false} LastIsNul(comps: seq<Units>)
    requires comps != []
    ensures Terminated(comps) != [] && Terminated(comps)[|Terminated(comps)| - 1] == 0
  {
    if |comps| > 1 {
      LastIsNul(comps[1..]);
    }
  }

  lemma {:induction false} ComponentsSkip(c: Units, rest: Units, cur: Units)
    requires 0 !in c
    ensures Components(c + rest, cur) == Components(rest, cur + c)
  {
    if c == [] {
      assert c + rest == rest && cur + c == cur;
    } else {
      assert (c + rest)[1..] == c[1..] + rest;
      ComponentsSkip(c[1..], rest, cur + [c[0]]);
      assert cur + [c[0]] + c[1..] == cur + c;
    }
  }

  lemma {:induction false} StoredComponents(units: Units, comps: seq<Units>)
    requires Proper(comps) && StoredAs(units, comps)
    ensures Components(units, []) == comps
    decreases |comps|
  {
    if comps == [] {
      assert units == [] || units[0] == 0;
    } else {
      var c, more := comps[0], comps[1..];
      assert c in comps && forall d :: d in more ==> d in comps;
      assert comps == [c] + more;
      var rest := StoredSplit(units, c, more);
      assert [] + c == c;
      if more == [] && units == c {
        ComponentsSkip(c, [], []);
        assert c + [] == c;
      } else {
        ComponentsSkip(c, [0] + rest, []);
        assert ([0] + rest)[1..] == rest;
        StoredComponents(rest, more);
      }
    }
  }

  lemma {:induction false} TerminatedLength(comps: seq<Units>)
    ensures |Terminated(comps)| >= |comps|
  {
    if comps != [] {
      TerminatedLength(comps[1..]);
    }
  }

  function EncodeAll(parts: seq<string>): (r: seq<Units>)
    ensures |r| == |parts|
  {
    if parts == [] then [] else [Encode(parts[0])] + EncodeAll(parts[1..])
  }

  predicate ProperTexts(parts: seq<string>) {
    forall p :: p in parts ==> p != "" && '\0' !in p
  }

  /**
   Splitting in full: the result is `parts` without an error exactly when `parts` are non-empty
   NUL-free strings and the even-length bytes hold them in one of the three shapes.
   */
  lemma MultiExact(bytes: Bytes, parts: seq<string>)
    ensures MultiTexts(bytes) == parts && !MultiBad(bytes)
       <==> ProperTexts(parts) && |bytes| % 2 == 0 && StoredAs(UnitsOf(bytes), EncodeAll(parts))
  {
    var units := UnitsOf(bytes);
    if MultiTexts(bytes) == parts && !MultiBad(bytes) {
      ComponentsAreStored(units, []);
      assert [] + units == units;
      TextsOfClean(Components(units, []));
    }
    if ProperTexts(parts) && |bytes| % 2 == 0 && StoredAs(units, EncodeAll(parts)) {
      EncodeAllProper(parts);
      StoredComponents(units, EncodeAll(parts));
    }
  }

  /** For any bytes at all the components are non-empty and NUL-free. */
  lemma MultiProper(bytes: Bytes)
    ensures ProperTexts(MultiTexts(bytes))
  {
    ComponentsAreStored(UnitsOf(bytes), []);
    TextsProper(Components(UnitsOf(bytes), []));
  }

  lemma {:induction false} TextsProper(comps: seq<Units>)
    requires Proper(comps)
    ensures ProperTexts(Texts(comps))
  {
    if comps != [] {
      assert comps[0] in comps && forall d :: d in comps[1..] ==> d in comps;
      TextsProper(comps[1..]);
      DecodeNul(comps[0]);
      EncodeDecode(comps[0]);
    }
  }

  lemma {:induction false} TextsOfClean(comps: seq<Units>)
    requires AllClean(comps) && Proper(comps)
    ensures EncodeAll(Texts(comps)) == comps && ProperTexts(Texts(comps))
  {
    TextsProper(comps);
    if comps != [] {
      assert comps[0] in comps && forall d :: d in comps[1..] ==> d in comps;
      EncodeDecode(comps[0]);
      TextsOfClean(comps[1..]);
    }
  }

  lemma {:induction false} EncodeAllProper(parts: seq<string>)
    requires ProperTexts(parts)
    ensures Proper(EncodeAll(parts)) && AllClean(EncodeAll(parts)) && Texts(EncodeAll(parts)) == parts
  {
    if parts != [] {
      assert parts[0] in parts && forall d :: d in parts[1..] ==> d in parts;
      EncodeAllProper(parts[1..]);
      EncodeNul(parts[0]);
      DecodeEncode(parts[0]);
      AllGoodIsCleanText(parts[0]);
      assert Encode(parts[0]) == EncodeScalar(parts[0][0]) + Encode(parts[0][1..]);
    }
  }

  /** Each part and a NUL, then one more NUL. */
  function MultiBytes(parts: seq<string>): Bytes {
    UnitBytes(Terminated(EncodeAll(parts))) + NUL
  }

  /** The units of each component, spelled out. */
  function Spellings(parts: seq<seq<Mark>>): (r: seq<Units>)
    ensures |r| == |parts|
  {
    if parts == [] then [] else [Spelling(parts[0])] + Spellings(parts[1..])
  }

  function MarkTexts(parts: seq<seq<Mark>>): (r: seq<string>)
    ensures |r| == |parts|
  {
    if parts == [] then [] else [MarkText(parts[0])] + MarkTexts(parts[1..])
  }

  lemma {:induction false} TextsOfMarks(parts: seq<seq<Mark>>)
    requires forall p :: p in parts ==> Marked(p)
    ensures Texts(Spellings(parts)) == MarkTexts(parts)
    ensures AllClean(Spellings(parts)) <==> forall p :: p in parts ==> !AnyStray(p)
  {
    hide Spelling, Clean, DecodeItems, Lossy, Marked;
    if parts != [] {
      var p, rest := parts[0], parts[1..];
      assert p in parts && forall q :: q in rest ==> q in parts;
      assert parts == [p] + rest;
      MarksDecoded(p);
      TextsOfMarks(rest);
      var units := Spellings(parts);
      assert units == [Spelling(p)] + Spellings(rest);
      assert AllClean(units) <==> Clean(DecodeItems(Spelling(p))) && AllClean(Spellings(rest));
    }
  }

  /**
   For any bytes at all, in whichever of the three shapes they store their components: the strings
   are those of the components, stray surrogates as U+FFFD, and the flag says that a byte was left
   over or a surrogate of some component was stray.
   */
  lemma MultiAny(bytes: Bytes, parts: seq<seq<Mark>>)
    requires forall p :: p in parts ==> Marked(p)
    requires Proper(Spellings(parts)) && StoredAs(UnitsOf(bytes), Spellings(parts))
    ensures MultiTexts(bytes) == MarkTexts(parts)
    ensures MultiBad(bytes) <==> |bytes| % 2 != 0 || exists p :: p in parts && AnyStray(p)
  {
    hide Marked, StoredAs, Proper, Texts, AllClean, Spelling;
    StoredComponents(UnitsOf(bytes), Spellings(parts));
    TextsOfMarks(parts);
  }

  /** Such components exist for all bytes. */
  lemma {:induction false} MarksOfAll(comps: seq<Units>) returns (parts: seq<seq<Mark>>)
    ensures Spellings(parts) == comps && forall p :: p in parts ==> Marked(p)
  {
    parts := [];
    if comps != [] {
      var p := MarksOf(comps[0]);
      var rest := MarksOfAll(comps[1..]);
      parts := [p] + rest;
      assert parts[1..] == rest;
    }
  }

  lemma MultiStored(bytes: Bytes) returns (parts: seq<seq<Mark>>)
    ensures (forall p :: p in parts ==> Marked(p))
    ensures Proper(Spellings(parts)) && StoredAs(UnitsOf(bytes), Spellings(parts))
  {
    hide Marked, StoredAs, Proper, Components, Spellings;
    var units := UnitsOf(bytes);
    ComponentsAreStored(units, []);
    assert [] + units == units;
    parts := MarksOfAll(Components(units, []));
  }

  method Multi(parts: seq<string>) returns (o: Bytes)
    ensures o == MultiBytes(parts)
  {
    hide Encode, UnitBytes;
    NulEncoded();
    o := [];
    for i := 0 to |parts|
      invariant o + UnitBytes(Terminated(EncodeAll(parts[i..]))) == UnitBytes(Terminated(EncodeAll(parts)))
    {
      assert parts[i..][1..] == parts[i + 1..];
      ghost var rest := Terminated(EncodeAll(parts[i + 1..]));
      assert EncodeAll(parts[i..])[1..] == EncodeAll(parts[i + 1..]);
      assert Terminated(EncodeAll(parts[i..])) == Encode(parts[i]) + [0] + rest;
      var part := Sz(parts[i]);
      UnitBytesConcat(Encode(parts[i]) + [0], rest);
      UnitBytesConcat(Encode(parts[i]), [0]);
      assert UnitBytes(Terminated(EncodeAll(parts[i..]))) == part + UnitBytes(rest);
      o := o + part;
    }
    o := o + [0, 0];
  }

  /** Two zero bytes for the empty list; each part puts its text and two zero bytes in front. */
  lemma MultiSpelled(part: string, rest: seq<string>)
    ensures MultiBytes([]) == [0, 0]
    ensures MultiBytes([part] + rest) == TextBytes(part) + [0, 0] + MultiBytes(rest)
  {
    hide Encode, UnitBytes;
    var parts := [part] + rest;
    assert parts[1..] == rest;
    var t := Terminated(EncodeAll(rest));
    assert EncodeAll(parts)[1..] == EncodeAll(rest);
    assert Terminated(EncodeAll(parts)) == Encode(part) + [0] + t;
    UnitBytesConcat(Encode(part) + [0], t);
    UnitBytesConcat(Encode(part), [0]);
    NulEncoded();
    EmptyEncoded();
    Regroup(TextBytes(part) + [0, 0], UnitBytes(t), [0, 0]);
  }

  lemma EmptyEncoded()
    ensures Terminated(EncodeAll([])) == [] && UnitBytes([]) == []
  {
  }

  /** Splitting undoes `Multi` exactly for lists of non-empty NUL-free strings. */
  lemma MultiRoundTrip(parts: seq<string>)
    ensures MultiTexts(MultiBytes(parts)) == parts && !MultiBad(MultiBytes(parts)) <==> ProperTexts(parts)
  {
    var t := Terminated(EncodeAll(parts));
    UnitBytesConcat(t, [0]);
    assert UnitBytes([0]) == NUL;
    UnitsOfBytes(t + [0]);
    MultiExact(MultiBytes(parts), parts);
  }

  // ---------- coercion ----------

  const DEVPROP_MASK_TYPE: int := 0x1000

  const BAD_UTF16: string := "bad-utf16"
  const TRUNCATED: string := "truncated"

  datatype Coerced = Coerced(valueData: string, valueDword: Option<int>, diagnostics: Option<string>)

  function Number(v: u64): Coerced {
    Coerced(Decimal(v), Some(AsI64(v)), None)
  }

  function HexOnly(raw: Bytes, diagnostics: Option<string>): Coerced {
    Coerced(Hex(raw), None, diagnostics)
  }

  /** The convenience rendering of raw bytes of a type; only the low twelve type bits count. */
  function Coerce(typeRaw: u32, raw: Bytes): Coerced {
    var t := typeRaw % DEVPROP_MASK_TYPE;
    if t == 1 || t == 2 || t == 6 then
      Coerced(SzText(raw), None, if SzBad(raw) then Some(BAD_UTF16) else None)
    else if t == 4 then
      if |raw| >= 4 then Number(Rd32(raw, 0)) else HexOnly(raw, Some(TRUNCATED))
    else if t == 5 then
      if |raw| >= 4 then Number(Rd32([raw[3], raw[2], raw[1], raw[0]], 0)) else HexOnly(raw, Some(TRUNCATED))
    else if t == 11 || t == 16 then
      if |raw| >= 8 then Number(Rd64(raw, 0)) else HexOnly(raw, Some(TRUNCATED))
    else if t == 7 then
      Coerced(Join(MultiTexts(raw), "\n"), None, if MultiBad(raw) then Some(BAD_UTF16) else None)
    else HexOnly(raw, None)
  }

  method ToHexLower(bytes: Bytes) returns (s: string)
    ensures s == Hex(bytes)
  {
    s := "";
    for i := 0 to |bytes|
      invariant s + Hex(bytes[i..]) == Hex(bytes)
    {
      assert bytes[i..][1..] == bytes[i + 1..];
      ghost var before, rest := s, Hex(bytes[i + 1..]);
      var hi, lo := HexDigit(bytes[i] / 16), HexDigit(bytes[i] % 16);
      assert Hex(bytes[i..]) == [hi, lo] + rest;
      s := s + [hi];
      s := s + [lo];
      assert s + rest == before + ([hi, lo] + rest);
    }
  }

  /** `x.to_be_bytes()` */
  function BE32(x: u32): (r: Bytes)
    ensures |r| == 4
  {
    var b := LE32(x);
    [b[3], b[2], b[1], b[0]]
  }

  lemma BE32Inverse(b: Bytes)
    requires |b| == 4
    ensures BE32(Rd32([b[3], b[2], b[1], b[0]], 0)) == b
  {
    hide LE32, Rd32;
    LE32Inverse([b[3], b[2], b[1], b[0]]);
  }

  /**
   What the fixture encoders write is rendered back in full and without a diagnostic; a 64-bit
   number from 2^63 on is negative in the number column.
   */
  lemma CoerceWritten(typeRaw: u32, s: string, parts: seq<string>, x: u32, q: u64, raw: Bytes)
    requires ProperTexts(parts)
    ensures var t := typeRaw % DEVPROP_MASK_TYPE;
      && (t in {1, 2, 6} ==> Coerce(typeRaw, TextBytes(s) + NUL) == Coerced(s, None, None))
      && (t == 7 ==> Coerce(typeRaw, MultiBytes(parts)) == Coerced(Join(parts, "\n"), None, None))
      && (t == 4 ==> Coerce(typeRaw, LE32(x)) == Coerced(Decimal(x), Some(x), None))
      && (t == 5 ==> Coerce(typeRaw, BE32(x)) == Coerced(Decimal(x), Some(x), None))
      && (t in {11, 16} ==> Coerce(typeRaw, LE64(q)) == Coerced(Decimal(q), Some(AsI64(q)), None))
      && (t !in {1, 2, 4, 5, 6, 7, 11, 16} ==> Coerce(typeRaw, raw) == Coerced(Hex(raw), None, None))
  {
    hide LE32, LE64, Rd32, Rd64, SzText, SzBad, MultiTexts, MultiBad, MultiBytes, TextBytes, Decimal, Hex, Join;
    SzRoundTrip(s);
    MultiRoundTrip(parts);
    var b := LE32(x);
    assert At(b, 0, b) && At(LE64(q), 0, LE64(q));
    Read32(b, 0, x);
    Read64(LE64(q), 0, q);
    assert [BE32(x)[3], BE32(x)[2], BE32(x)[1], BE32(x)[0]] == b;
  }

  /** What a rendering says is wrong, for every type and any bytes: too short a number, or bad text. */
  lemma CoerceDiagnostics(typeRaw: u32, raw: Bytes)
    ensures var t := typeRaw % 0x1000;
      Coerce(typeRaw, raw).diagnostics
      == if (t in {4, 5} && |raw| < 4) || (t in {11, 16} && |raw| < 8) then Some("truncated")
         else if (t in {1, 2, 6} && SzBad(raw)) || (t == 7 && MultiBad(raw)) then Some("bad-utf16")
         else None
    ensures typeRaw % 0x1000 in {1, 2, 6} ==> Coerce(typeRaw, raw).valueData == SzText(raw)
    ensures typeRaw % 0x1000 == 7 ==> Coerce(typeRaw, raw).valueData == Join(MultiTexts(raw), "\n")
  {
    hide SzText, SzBad, MultiTexts, MultiBad, Decimal, Hex, Join, Rd32, Rd64;
  }

  // ---------- what a rendering loses ----------

  /** The lines of a text; no text is no line. */
  function Lines(s: string): seq<string> {
    if s == "" then [] else Split(s, '\n')
  }

  /** Joining non-empty strings by newlines can be undone exactly when none of them holds a newline. */
  lemma LinesJoin(parts: seq<string>)
    requires ProperTexts(parts)
    ensures Lines(Join(parts, "\n")) == parts <==> forall p :: p in parts ==> '\n' !in p
  {
    if parts != [] {
      assert parts[0] in parts && parts[0] != "";
      assert Join(parts, "\n") != "";
      SplitJoin(parts, '\n');
    }
  }

  /**
   The rendering loses bytes only where it says so: with no diagnostic, hex and numbers give the
   bytes back (numbers those of their width), text gives an encoding of the bytes, and a list gives
   its strings exactly when none of them holds a newline. A number is there exactly when one was read.
   */
  lemma CoerceLossless(typeRaw: u32, raw: Bytes)
    ensures var t := typeRaw % DEVPROP_MASK_TYPE; var c := Coerce(typeRaw, raw);
      && (t !in {1, 2, 4, 5, 6, 7, 11, 16} || c.diagnostics == Some(TRUNCATED) ==> Unhex(c.valueData) == Some(raw))
      && (t == 4 && c.diagnostics.None? ==>
            exists x: u32 :: ParseDecimal(c.valueData) == Some(x) && c.valueDword == Some(x) && LE32(x) <= raw)
      && (t == 5 && c.diagnostics.None? ==>
            exists x: u32 :: ParseDecimal(c.valueData) == Some(x) && c.valueDword == Some(x) && BE32(x) <= raw)
      && (t in {11, 16} && c.diagnostics.None? ==>
            exists x: u64 :: ParseDecimal(c.valueData) == Some(x) && c.valueDword == Some(AsI64(x)) && LE64(x) <= raw)
      && (t in {1, 2, 6} && c.diagnostics.None? ==>
            raw == TextBytes(c.valueData) || raw == TextBytes(c.valueData) + NUL)
      && (t == 7 && c.diagnostics.None? ==>
            var parts := MultiTexts(raw);
            && ProperTexts(parts) && |raw| % 2 == 0 && StoredAs(UnitsOf(raw), EncodeAll(parts))
            && (Lines(c.valueData) == parts <==> forall p :: p in parts ==> '\n' !in p))
      && (c.valueDword.Some? <==> t in {4, 5, 11, 16} && c.diagnostics.None?)
  {
    hide SzText, SzBad, MultiTexts, MultiBad, StoredAs, TextBytes, Decimal, ParseDecimal, Hex, Unhex, Join, Lines,
         LE32, LE64, BE32, Rd32, Rd64;
    var t := typeRaw % DEVPROP_MASK_TYPE;
    UnhexHex(raw);
    SzExact(raw);
    MultiExact(raw, MultiTexts(raw));
    if t == 7 && !MultiBad(raw) {
      LinesJoin(MultiTexts(raw));
    } else if |raw| >= 4 && (t == 4 || t == 5) {
      WordLossless(raw);
    } else if |raw| >= 8 && (t == 11 || t == 16) {
      LongLossless(raw);
    }
  }

  lemma WordLossless(raw: Bytes)
    requires |raw| >= 4
    ensures var x := Rd32(raw, 0); ParseDecimal(Decimal(x)) == Some(x) && LE32(x) <= raw
    ensures var x := Rd32([raw[3], raw[2], raw[1], raw[0]], 0); ParseDecimal(Decimal(x)) == Some(x) && BE32(x) <= raw
  {
    hide LE32, BE32, Rd32, Decimal, ParseDecimal;
    var b := raw[..4];
    ParseDecimalDecimal(Rd32(raw, 0));
    ParseDecimalDecimal(Rd32([raw[3], raw[2], raw[1], raw[0]], 0));
    LE32Inverse(b);
    BE32Inverse(b);
    SameWord(b, 0, raw, 0);
  }

  lemma LongLossless(raw: Bytes)
    requires |raw| >= 8
    ensures var x := Rd64(raw, 0); ParseDecimal(Decimal(x)) == Some(x) && LE64(x) <= raw
  {
    hide LE64, Rd32, Decimal, ParseDecimal;
    var b := raw[..8];
    ParseDecimalDecimal(Rd64(raw, 0));
    LE64Inverse(b);
    SameWord(b, 0, raw, 0);
    SameWord(b, 4, raw, 4);
  }
}
