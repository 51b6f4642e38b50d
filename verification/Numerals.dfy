/** Decimal and lowercase-hex text, with the parsers that invert them. */
module Numerals {
  import opened LittleEndian

  function HexDigit(d: int): char
    requires 0 <= d < 16
  {
    if d < 10 then '0' + d as char else 'a' + (d - 10) as char
  }

  function HexValue(c: char): Option<int> {
    if '0' <= c <= '9' then Some(c as int - '0' as int)
    else if 'a' <= c <= 'f' then Some(c as int - 'a' as int + 10)
    else None
  }

  function Hex(bytes: Bytes): (r: string)
    ensures |r| == 2 * |bytes|
  {
    if bytes == [] then [] else [HexDigit(bytes[0] / 16), HexDigit(bytes[0] % 16)] + Hex(bytes[1..])
  }

  function Unhex(s: string): Option<Bytes> {
    if s == "" then Some([])
    else if |s| == 1 then None
    else
      match (HexValue(s[0]), HexValue(s[1]), Unhex(s[2..]))
      case (Some(hi), Some(lo), Some(rest)) =>
        if 0 <= 16 * hi + lo < 256 then Some([16 * hi + lo] + rest) else None
      case _ => None
  }

  lemma DigitBack(d: int)
    requires 0 <= d < 16
    ensures HexValue(HexDigit(d)) == Some(d)
  {
  }

  lemma Halves(b: byte)
    ensures 16 * (b / 16) + b % 16 == b
  {
  }

  lemma {:induction false} UnhexHex(bytes: Bytes)
    ensures Unhex(Hex(bytes)) == Some(bytes)
  {
    hide HexValue, HexDigit;
    if bytes != [] {
      UnhexHex(bytes[1..]);
      assert Hex(bytes)[2..] == Hex(bytes[1..]);
      DigitBack(bytes[0] / 16);
      DigitBack(bytes[0] % 16);
      Halves(bytes[0]);
      assert bytes == [bytes[0]] + bytes[1..];
    }
  }

  lemma {:induction false} HexConcat(a: Bytes, b: Bytes)
    ensures Hex(a + b) == Hex(a) + Hex(b)
  {
    if a == [] {
      assert a + b == b;
    } else {
      assert (a + b)[1..] == a[1..] + b;
      HexConcat(a[1..], b);
    }
  }

  lemma {:induction false} HexCharacters(bytes: Bytes)
    ensures forall c :: c in Hex(bytes) ==> HexValue(c).Some?
  {
    if bytes != [] {
      HexCharacters(bytes[1..]);
    }
  }

  /** Two lowercase digits per byte, the high half first. */
  lemma {:induction false} HexAt(bytes: Bytes, i: nat)
    requires i < |bytes|
    ensures Hex(bytes)[2 * i] == "0123456789abcdef"[bytes[i] / 16]
    ensures Hex(bytes)[2 * i + 1] == "0123456789abcdef"[bytes[i] % 16]
  {
    if i > 0 {
      HexAt(bytes[1..], i - 1);
    } else {
      DigitOf(bytes[0] / 16);
      DigitOf(bytes[0] % 16);
    }
  }

  lemma DigitOf(d: int)
    requires 0 <= d < 16
    ensures HexDigit(d) == "0123456789abcdef"[d]
  {
  }

  function DecimalDigit(d: int): char
    requires 0 <= d < 10
  {
    '0' + d as char
  }

  function Decimal(n: nat): (r: string)
    ensures |r| >= 1
  {
    if n < 10 then [DecimalDigit(n)] else Decimal(n / 10) + [DecimalDigit(n % 10)]
  }

  /** Decimal digits only, at least one. */
  function ParseDecimal(s: string): Option<nat> {
    if s == "" then None
    else
      var last := s[|s| - 1];
      if !('0' <= last <= '9') then None
      else
        var d := last as int - '0' as int;
        if |s| == 1 then Some(d)
        else
          match ParseDecimal(s[..|s| - 1])
          case None => None
          case Some(rest) => Some(10 * rest + d)
  }

  lemma {:induction false} ParseDecimalDecimal(n: nat)
    ensures ParseDecimal(Decimal(n)) == Some(n)
  {
    if n >= 10 {
      ParseDecimalDecimal(n / 10);
      assert Decimal(n)[..|Decimal(n)| - 1] == Decimal(n / 10);
    }
  }

  lemma {:induction false} DecimalCharacters(n: nat)
    ensures forall c :: c in Decimal(n) ==> '0' <= c <= '9'
  {
    if n >= 10 {
      DecimalCharacters(n / 10);
    }
  }

  /** The decimal form is the only one without a leading zero that stands for the number. */
  lemma {:induction false} DecimalExact(n: nat, s: string)
    ensures s == Decimal(n) <==> ParseDecimal(s) == Some(n) && (|s| > 1 ==> s[0] != '0')
    decreases n
  {
    if s == Decimal(n) {
      ParseDecimalDecimal(n);
      NoLeadingZero(n);
    } else if ParseDecimal(s) == Some(n) && (|s| > 1 ==> s[0] != '0') {
      var head, last := s[..|s| - 1], s[|s| - 1];
      assert s == head + [last];
      if |s| > 1 {
        assert ParseDecimal(head).Some? && n / 10 == ParseDecimal(head).value && n % 10 == last as int - '0' as int;
        Positive(head);
        DecimalExact(n / 10, head);
      }
    }
  }

  lemma {:induction false} NoLeadingZero(n: nat)
    ensures |Decimal(n)| > 1 ==> Decimal(n)[0] != '0'
    ensures n > 0 ==> Decimal(n)[0] != '0'
  {
    if n >= 10 {
      NoLeadingZero(n / 10);
    }
  }

  lemma {:induction false} Positive(s: string)
    requires ParseDecimal(s).Some? && s[0] != '0'
    ensures ParseDecimal(s).value > 0
  {
    if |s| > 1 {
      Positive(s[..|s| - 1]);
    }
  }
}
