/**
 UTF-16 per RFC 2781: `str::encode_utf16` (section 2.1) and `char::decode_utf16` (section 2.2),
 with the little-endian byte form of a unit sequence.
 */
module Utf16 {
  import opened LittleEndian

  /** A `char` is a Unicode scalar value, and a Rust `String` a sequence of them. */
  const REPLACEMENT: char := 0xFFFD as char

  predicate IsHigh(u: u16) {
    0xD800 <= u < 0xDC00
  }

  predicate IsLow(u: u16) {
    0xDC00 <= u < 0xE000
  }

  function EncodeScalar(c: char): (r: seq<u16>)
    ensures 1 <= |r| <= 2
  {
    if c as int < 0x1_0000 then [c as int]
    else
      var v := c as int - 0x1_0000;
      [0xD800 + v / 0x400, 0xDC00 + v % 0x400]
  }

  function Encode(s: string): seq<u16> {
    if s == [] then [] else EncodeScalar(s[0]) + Encode(s[1..])
  }

  /**
   The items `char::decode_utf16` yields, `None` for an unpaired surrogate. The unit after an
   unpaired high surrogate is examined again.
   */
  function DecodeItems(units: seq<u16>): seq<Option<char>> {
    if units == [] then []
    else if !IsHigh(units[0]) && !IsLow(units[0]) then [Some(units[0] as char)] + DecodeItems(units[1..])
    else if IsHigh(units[0]) && |units| > 1 && IsLow(units[1]) then
      var hi: int, lo: int := units[0], units[1];
      [Some((0x1_0000 + (hi - 0xD800) * 0x400 + (lo - 0xDC00)) as char)] + DecodeItems(units[2..])
    else [None] + DecodeItems(units[1..])
  }

  /** The text with a replacement character for every error. */
  function Lossy(items: seq<Option<char>>): (r: string)
    ensures |r| == |items|
  {
    if items == [] then []
    else [if items[0].None? then REPLACEMENT else items[0].value] + Lossy(items[1..])
  }

  predicate Clean(items: seq<Option<char>>) {
    forall i :: 0 <= i < |items| ==> items[i].Some?
  }

  function AllGood(s: string): (r: seq<Option<char>>)
    ensures |r| == |s|
  {
    if s == [] then [] else [Some(s[0])] + AllGood(s[1..])
  }

  lemma {:induction false} AllGoodIsCleanText(s: string)
    ensures Clean(AllGood(s)) && Lossy(AllGood(s)) == s
  {
    if s != [] {
      AllGoodIsCleanText(s[1..]);
      assert AllGood(s)[1..] == AllGood(s[1..]);
      forall i | 0 <= i < |s|
        ensures AllGood(s)[i].Some?
      {
        if i > 0 {
          assert AllGood(s)[i] == AllGood(s[1..])[i - 1];
        }
      }
    }
  }

  lemma DecodeOne(c: char, rest: seq<u16>)
    ensures DecodeItems(EncodeScalar(c) + rest) == [Some(c)] + DecodeItems(rest)
  {
    var units := EncodeScalar(c) + rest;
    if c as int < 0x1_0000 {
      assert units[0] == c as int && units[1..] == rest;
    } else {
      assert units[2..] == rest;
    }
  }

  /** Decoding an encoding gives the text back without an error. */
  lemma {:induction false} DecodeEncode(s: string)
    ensures DecodeItems(Encode(s)) == AllGood(s)
  {
    if s != [] {
      DecodeEncode(s[1..]);
      DecodeOne(s[0], Encode(s[1..]));
    }
  }

  /** Decoding never changes the number of units, and without an error not the units either. */
  lemma {:induction false} EncodeDecode(units: seq<u16>)
    ensures |Encode(Lossy(DecodeItems(units)))| == |units|
    ensures Clean(DecodeItems(units)) ==> Encode(Lossy(DecodeItems(units))) == units
  {
    if units != [] {
      var items := DecodeItems(units);
      var step := if IsHigh(units[0]) && |units| > 1 && IsLow(units[1]) then 2 else 1;
      var rest := units[step..];
      EncodeDecode(rest);
      assert items[1..] == DecodeItems(rest);
      var s := Lossy(items);
      assert s[1..] == Lossy(DecodeItems(rest));
      assert Encode(s) == EncodeScalar(s[0]) + Encode(s[1..]);
      assert |EncodeScalar(s[0])| == step;
      if Clean(items) {
        assert items[0].Some?;
        assert Clean(DecodeItems(rest)) by {
          forall i | 0 <= i < |DecodeItems(rest)|
            ensures DecodeItems(rest)[i].Some?
          {
            assert items[i + 1] == DecodeItems(rest)[i];
          }
        }
        assert EncodeScalar(s[0]) == units[..step];
        assert units == units[..step] + rest;
      }
    }
  }

  /** Unit sequences decode without an error exactly when they are the encoding of some text. */
  lemma CleanIffEncoding(units: seq<u16>)
    ensures Clean(DecodeItems(units)) <==> exists s: string :: Encode(s) == units
  {
    EncodeDecode(units);
    forall s: string | Encode(s) == units
      ensures Clean(DecodeItems(units))
    {
      DecodeEncode(s);
      AllGoodIsCleanText(s);
    }
  }

  lemma {:induction false} EncodeConcat(a: string, b: string)
    ensures Encode(a + b) == Encode(a) + Encode(b)
  {
    if a == [] {
      assert a + b == b;
    } else {
      assert (a + b)[1..] == a[1..] + b;
      EncodeConcat(a[1..], b);
    }
  }

  /** Encoding neither makes nor hides a NUL. */
  lemma {:induction false} EncodeNul(s: string)
    ensures 0 in Encode(s) <==> '\0' in s
  {
    if s != [] {
      EncodeNul(s[1..]);
      assert s == [s[0]] + s[1..];
      assert 0 in EncodeScalar(s[0]) <==> s[0] == '\0';
    }
  }

  lemma {:induction false} DecodeNul(units: seq<u16>)
    ensures '\0' in Lossy(DecodeItems(units)) <==> 0 in units
  {
    if units != [] {
      var items := DecodeItems(units);
      var step := if IsHigh(units[0]) && |units| > 1 && IsLow(units[1]) then 2 else 1;
      DecodeNul(units[step..]);
      assert items[1..] == DecodeItems(units[step..]);
      assert units == units[..step] + units[step..];
      assert 0 in units[..step] <==> units[0] == 0;
      var s := Lossy(items);
      assert s == [s[0]] + Lossy(items[1..]);
    }
  }

  // ---------- what decoding is, without decoding ----------

  /** The units of a character in the terms of section 2.1: itself, or the two halves of its surrogate pair. */
  predicate Spells(c: char, units: seq<u16>) {
    || (|units| == 1 && units[0] == c as int)
    || (|units| == 2 && 0xD800 <= units[0] < 0xDC00 <= units[1] < 0xE000 &&
        var hi: int, lo: int := units[0], units[1];
        c as int == 0x1_0000 + 0x400 * (hi - 0xD800) + (lo - 0xDC00))
  }

  lemma EncodeScalarExact(c: char, units: seq<u16>)
    ensures EncodeScalar(c) == units <==> Spells(c, units)
  {
    if |units| == 1 {
      assert units == [units[0]];
    } else if |units| == 2 {
      assert units == [units[0], units[1]];
    }
  }

  /** A character, or a surrogate that belongs to no pair. */
  datatype Mark = Good(c: char) | Stray(unit: u16)

  function MarkUnits(m: Mark): (r: seq<u16>)
    ensures r != []
  {
    match m
    case Good(c) => EncodeScalar(c)
    case Stray(u) => [u]
  }

  function Spelling(marks: seq<Mark>): seq<u16> {
    if marks == [] then [] else MarkUnits(marks[0]) + Spelling(marks[1..])
  }

  /** Strays are surrogates, and no two of them in a row make a pair. */
  predicate Marked(marks: seq<Mark>) {
    && (forall i :: 0 <= i < |marks| && marks[i].Stray? ==> 0xD800 <= marks[i].unit < 0xE000)
    && (forall i :: 0 < i < |marks| && marks[i - 1].Stray? && marks[i].Stray? ==>
          !(marks[i - 1].unit < 0xDC00 <= marks[i].unit))
  }

  function MarkItems(marks: seq<Mark>): (r: seq<Option<char>>)
    ensures |r| == |marks|
  {
    if marks == [] then [] else [if marks[0].Good? then Some(marks[0].c) else None] + MarkItems(marks[1..])
  }

  /** The text of marks: a stray shows as U+FFFD. */
  function MarkText(marks: seq<Mark>): (r: string)
    ensures |r| == |marks|
  {
    if marks == [] then "" else [if marks[0].Good? then marks[0].c else 0xFFFD as char] + MarkText(marks[1..])
  }

  predicate AnyStray(marks: seq<Mark>) {
    exists i :: 0 <= i < |marks| && marks[i].Stray?
  }

  lemma MarkedTail(marks: seq<Mark>)
    requires marks != [] && Marked(marks)
    ensures Marked(marks[1..])
  {
    forall i | 0 < i < |marks[1..]| && marks[1..][i - 1].Stray? && marks[1..][i].Stray?
      ensures !(marks[1..][i - 1].unit < 0xDC00 <= marks[1..][i].unit)
    {
      assert marks[1..][i - 1] == marks[(i + 1) - 1] && marks[1..][i] == marks[i + 1];
    }
  }

  /** Behind a stray high surrogate comes no low one. */
  lemma AfterStray(marks: seq<Mark>)
    requires |marks| > 1 && Marked(marks) && marks[0].Stray? && IsHigh(marks[0].unit)
    ensures Spelling(marks[1..]) != [] && !IsLow(Spelling(marks[1..])[0])
  {
    assert Spelling(marks[1..])[0] == MarkUnits(marks[1])[0];
    assert marks[1].Stray? ==> !(marks[1 - 1].unit < 0xDC00 <= marks[1].unit);
  }

  /** Whatever marks are spelled out, decoding finds exactly them: a stray swallows nothing behind it. */
  lemma {:induction false} DecodeSpelling(marks: seq<Mark>)
    requires Marked(marks)
    ensures DecodeItems(Spelling(marks)) == MarkItems(marks)
  {
    if marks != [] {
      var rest := Spelling(marks[1..]);
      MarkedTail(marks);
      DecodeSpelling(marks[1..]);
      match marks[0]
      case Good(c) => DecodeOne(c, rest);
      case Stray(u) =>
        assert Spelling(marks)[0] == u && Spelling(marks)[1..] == rest;
        if |marks| > 1 && IsHigh(u) {
          AfterStray(marks);
        }
    }
  }

  /** The mark at the head of some units. */
  function FirstMark(units: seq<u16>): (m: Mark)
    requires units != []
    ensures MarkUnits(m) <= units
  {
    if !IsHigh(units[0]) && !IsLow(units[0]) then Good(units[0] as char)
    else if IsHigh(units[0]) && |units| > 1 && IsLow(units[1]) then
      var hi: int, lo: int := units[0], units[1];
      var c := (0x1_0000 + (hi - 0xD800) * 0x400 + (lo - 0xDC00)) as char;
      EncodeScalarExact(c, [units[0], units[1]]);
      Good(c)
    else Stray(units[0])
  }

  lemma MarkedCons(m: Mark, rest: seq<Mark>)
    requires Marked(rest) && (m.Stray? ==> 0xD800 <= m.unit < 0xE000)
    requires m.Stray? && rest != [] && rest[0].Stray? ==> !(m.unit < 0xDC00 <= rest[0].unit)
    ensures Marked([m] + rest)
  {
    var marks := [m] + rest;
    forall i | 0 < i < |marks| && marks[i - 1].Stray? && marks[i].Stray?
      ensures !(marks[i - 1].unit < 0xDC00 <= marks[i].unit)
    {
      if i > 1 {
        assert marks[i - 1] == rest[i - 2] && marks[i] == rest[(i - 2) + 1];
      }
    }
  }

  /** Any units are the spelling of some marks. */
  lemma {:induction false} MarksOf(units: seq<u16>) returns (marks: seq<Mark>)
    ensures Marked(marks) && Spelling(marks) == units
  {
    hide Marked, MarkUnits;
    if units == [] {
      marks := [];
      assert Marked(marks) by { NoMarks(); }
    } else {
      var m := FirstMark(units);
      var rest := MarksOf(units[|MarkUnits(m)|..]);
      marks := [m] + rest;
      assert marks[1..] == rest;
      FirstStray(units, rest);
      MarkedCons(m, rest);
    }
  }

  lemma NoMarks()
    ensures Marked([])
  {
  }

  /** A stray at the head is not followed by the other half of a pair. */
  lemma FirstStray(units: seq<u16>, rest: seq<Mark>)
    requires units != [] && units[|MarkUnits(FirstMark(units))|..] == Spelling(rest) && Marked(rest)
    ensures var m := FirstMark(units);
      && (m.Stray? ==> 0xD800 <= m.unit < 0xE000)
      && (m.Stray? && rest != [] && rest[0].Stray? ==> !(m.unit < 0xDC00 <= rest[0].unit))
  {
    var m := FirstMark(units);
    if m.Stray? && rest != [] && rest[0].Stray? {
      assert Spelling(rest)[0] == rest[0].unit;
      assert units[1..][0] == units[1];
    }
  }

  /**
   Decoding in full, for any units: items are the decoding exactly when they are those of marks that
   spell the units out.
   */
  lemma DecodeExact(units: seq<u16>, items: seq<Option<char>>)
    ensures DecodeItems(units) == items
       <==> exists marks :: Marked(marks) && Spelling(marks) == units && MarkItems(marks) == items
  {
    var marks := MarksOf(units);
    DecodeSpelling(marks);
    forall other | Marked(other) && Spelling(other) == units && MarkItems(other) == items
      ensures DecodeItems(units) == items
    {
      DecodeSpelling(other);
    }
  }

  /** So the lossy text of any marks is their text, and it is clean exactly when there is no stray. */
  lemma {:induction false} LossyMarks(marks: seq<Mark>)
    ensures Lossy(MarkItems(marks)) == MarkText(marks)
    ensures Clean(MarkItems(marks)) <==> !AnyStray(marks)
  {
    if marks != [] {
      var m, rest := marks[0], marks[1..];
      LossyMarks(rest);
      assert MarkItems(marks)[0].Some? <==> m.Good?;
      assert MarkItems(marks)[1..] == MarkItems(rest);
      assert Clean(MarkItems(marks)) <==> m.Good? && Clean(MarkItems(rest)) by {
        assert forall i :: 0 < i < |marks| ==> MarkItems(marks)[i] == MarkItems(rest)[i - 1];
        assert forall i :: 0 <= i < |rest| ==> MarkItems(rest)[i] == MarkItems(marks)[i + 1];
      }
      assert forall i :: 0 < i < |marks| ==> marks[i] == rest[i - 1];
      assert forall i :: 0 <= i < |rest| ==> rest[i] == marks[i + 1];
    }
  }

  lemma MarksDecoded(marks: seq<Mark>)
    requires Marked(marks)
    ensures Lossy(DecodeItems(Spelling(marks))) == MarkText(marks)
    ensures Clean(DecodeItems(Spelling(marks))) <==> !AnyStray(marks)
  {
    DecodeSpelling(marks);
    LossyMarks(marks);
  }

  lemma {:induction false} DecodePrefix(s: string, rest: seq<u16>)
    ensures DecodeItems(Encode(s) + rest) == AllGood(s) + DecodeItems(rest)
  {
    hide DecodeItems, EncodeScalar;
    if s == [] {
      assert [] + rest == rest && [] + DecodeItems(rest) == DecodeItems(rest);
    } else {
      DecodePrefix(s[1..], rest);
      DecodeOne(s[0], Encode(s[1..]) + rest);
      Regroup(EncodeScalar(s[0]), Encode(s[1..]), rest);
      Regroup([Some(s[0])], AllGood(s[1..]), DecodeItems(rest));
    }
  }

  lemma StrayFirst(u: u16, t: string)
    requires 0xD800 <= u < 0xE000
    ensures DecodeItems([u] + Encode(t)) == [None] + AllGood(t)
  {
    DecodeEncode(t);
    assert ([u] + Encode(t))[1..] == Encode(t);
    if t != [] {
      assert Encode(t)[0] == EncodeScalar(t[0])[0];
    }
  }

  /** Texts around one stray surrogate of either kind: one error between them, and nothing lost. */
  lemma StrayBetween(s: string, u: u16, t: string)
    requires 0xD800 <= u < 0xE000
    ensures DecodeItems(Encode(s) + [u] + Encode(t)) == AllGood(s) + [None] + AllGood(t)
  {
    hide DecodeItems, Encode, AllGood;
    StrayFirst(u, t);
    DecodePrefix(s, [u] + Encode(t));
    Regroup(Encode(s), [u], Encode(t));
    Regroup(AllGood(s), [None], AllGood(t));
  }

  // ---------- bytes ----------

  function UnitBytes(units: seq<u16>): (r: Bytes)
    ensures |r| == 2 * |units|
  {
    if units == [] then [] else LE16(units[0]) + UnitBytes(units[1..])
  }

  /** The whole units of a byte string; an odd last byte is dropped. */
  function UnitsOf(bytes: Bytes): (r: seq<u16>)
    ensures |r| == |bytes| / 2
  {
    if |bytes| < 2 then [] else [Rd16(bytes, 0)] + UnitsOf(bytes[2..])
  }

  /** Little-endian: each unit is its low byte and 256 times its high byte. */
  lemma {:induction false} UnitAt(bytes: Bytes, k: nat)
    requires 2 * k + 1 < |bytes|
    ensures var lo: int, hi: int := bytes[2 * k], bytes[2 * k + 1]; UnitsOf(bytes)[k] == lo + 0x100 * hi
  {
    if k > 0 {
      UnitAt(bytes[2..], k - 1);
    }
  }

  lemma {:induction false} UnitsOfBytes(units: seq<u16>)
    ensures UnitsOf(UnitBytes(units)) == units
  {
    if units != [] {
      hide LE16, Rd16;
      UnitsOfBytes(units[1..]);
      assert UnitBytes(units)[2..] == UnitBytes(units[1..]);
      assert UnitBytes(units)[0..2] == LE16(units[0]);
      Read16(UnitBytes(units), 0, units[0]);
    }
  }

  lemma {:induction false} BytesOfUnits(bytes: Bytes)
    requires |bytes| % 2 == 0
    ensures UnitBytes(UnitsOf(bytes)) == bytes
  {
    if |bytes| >= 2 {
      BytesOfUnits(bytes[2..]);
      hide LE16, Rd16;
      LE16Inverse(bytes);
      assert UnitsOf(bytes)[1..] == UnitsOf(bytes[2..]);
      assert bytes == bytes[..2] + bytes[2..];
    }
  }

  lemma {:induction false} UnitBytesConcat(a: seq<u16>, b: seq<u16>)
    ensures UnitBytes(a + b) == UnitBytes(a) + UnitBytes(b)
  {
    if a == [] {
      assert a + b == b;
    } else {
      assert (a + b)[1..] == a[1..] + b;
      UnitBytesConcat(a[1..], b);
    }
  }

  lemma {:induction false} UnitsOfSnoc(bytes: Bytes, i: nat)
    requires 2 * i + 2 <= |bytes|
    ensures UnitsOf(bytes)[..i] + [Rd16(bytes, 2 * i)] == UnitsOf(bytes)[..i + 1]
  {
    if i > 0 {
      UnitsOfSnoc(bytes[2..], i - 1);
      var u, t := UnitsOf(bytes), UnitsOf(bytes[2..]);
      assert u[..i] == [u[0]] + t[..i - 1] && u[..i + 1] == [u[0]] + t[..i];
    }
  }
}
