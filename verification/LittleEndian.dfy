/** Bytes, little-endian integers, and the slice predicate every layout proof rests on. */
module LittleEndian {
  type byte = b: int | 0 <= b < 0x100
  type u16 = x: int | 0 <= x < 0x1_0000
  type u32 = x: int | 0 <= x < 0x1_0000_0000
  type u64 = x: int | 0 <= x < 0x1_0000_0000_0000_0000
  type Bytes = seq<byte>

  const TWO32: int := 0x1_0000_0000

  datatype Option<+T> = None | Some(value: T)

  function Min(a: int, b: int): int {
    if a <= b then a else b
  }

  function Max(a: int, b: int): int {
    if a <= b then b else a
  }

  lemma Regroup<T>(a: seq<T>, b: seq<T>, c: seq<T>)
    ensures a + b + c == a + (b + c)
  {
  }

  function Zeros(n: nat): (r: Bytes)
    ensures |r| == n
  {
    seq(n, _ => 0)
  }

  /** The `k`-th byte of a number, lowest first; negative numbers as two's complement. */
  function Digit(x: int, k: nat): byte
    decreases k, x
  {
    if k == 0 then x % 0x100 else Digit(x / 0x100, k - 1)
  }

  /** The low `n` bytes: a cast to a narrower integer drops the high ones. */
  function LE(x: int, n: nat): (r: Bytes)
    ensures |r| == n
    decreases n, x
  {
    if n == 0 then [] else LE(x, n - 1) + [Digit(x, n - 1)]
  }

  /** `(x as u16).to_le_bytes()` */
  function LE16(x: int): (r: Bytes)
    ensures |r| == 2
  {
    LE(x, 2)
  }

  /** `(x as u32).to_le_bytes()` */
  function LE32(x: int): (r: Bytes)
    ensures |r| == 4
  {
    LE(x, 4)
  }

  function LE64(x: u64): (r: Bytes)
    ensures |r| == 8
  {
    LE32(x) + LE32(x / TWO32)
  }

  function Rd16(b: Bytes, off: nat): u16
    requires off + 2 <= |b|
  {
    var lo: int, hi: int := b[off], b[off + 1];
    lo + 0x100 * hi
  }

  function Rd32(b: Bytes, off: nat): u32
    requires off + 4 <= |b|
  {
    var b0: int, b1: int, b2: int, b3: int := b[off], b[off + 1], b[off + 2], b[off + 3];
    b0 + 0x100 * b1 + 0x1_0000 * b2 + 0x100_0000 * b3
  }

  function Rd64(b: Bytes, off: nat): u64
    requires off + 8 <= |b|
  {
    Rd32(b, off) + TWO32 * Rd32(b, off + 4)
  }

  /** Reinterpret the 32 bits as an `i32`. */
  function AsI32(x: u32): int {
    if x < 0x8000_0000 then x else x - TWO32
  }

  /** `x as i64` */
  function AsI64(x: u64): (r: int)
    ensures -0x8000_0000_0000_0000 <= r < 0x8000_0000_0000_0000
    ensures r == x || r + 0x1_0000_0000_0000_0000 == x
  {
    if x < 0x8000_0000_0000_0000 then x else x - 0x1_0000_0000_0000_0000
  }

  /** `b` is stored in `h` at offset `off`. */
  predicate At(h: Bytes, off: nat, b: Bytes) {
    off + |b| <= |h| && h[off..off + |b|] == b
  }

  lemma AtConcat(h: Bytes, off: nat, a: Bytes, b: Bytes)
    ensures At(h, off, a + b) <==> At(h, off, a) && At(h, off + |a|, b)
  {
    if off + |a| + |b| <= |h| {
      var both := h[off..off + |a| + |b|];
      assert both == h[off..off + |a|] + h[off + |a|..off + |a| + |b|];
      if At(h, off, a + b) {
        assert a == (a + b)[..|a|] && b == (a + b)[|a|..];
      }
    }
  }

  lemma AtSub(h: Bytes, off: nat, whole: Bytes, k: nat, part: Bytes)
    requires At(h, off, whole) && At(whole, k, part)
    ensures At(h, off + k, part)
  {
    var s := h[off..off + |whole|];
    forall i | 0 <= i < |part|
      ensures h[off + k + i] == part[i]
    {
      assert s[k + i] == h[off + k + i] && whole[k..k + |part|][i] == whole[k + i];
    }
  }

  lemma Bytes16(x: int)
    ensures LE16(x) == [x % 0x100, x / 0x100 % 0x100]
  {
    hide Digit;
    DigitUnfold(x, 0);
    DigitUnfold(x, 1);
    DigitUnfold(x / 0x100, 0);
    assert LE(x, 1) == LE(x, 0) + [Digit(x, 0)];
    assert LE(x, 2) == LE(x, 1) + [Digit(x, 1)];
  }

  lemma Bytes32(x: int)
    ensures LE32(x) == [Digit(x, 0), Digit(x, 1), Digit(x, 2), Digit(x, 3)]
  {
    hide Digit;
    assert LE(x, 1) == LE(x, 0) + [Digit(x, 0)];
    assert LE(x, 2) == LE(x, 1) + [Digit(x, 1)];
    assert LE(x, 3) == LE(x, 2) + [Digit(x, 2)];
    assert LE(x, 4) == LE(x, 3) + [Digit(x, 3)];
  }

  lemma DigitUnfold(x: int, k: nat)
    ensures Digit(x, k) == if k == 0 then x % 0x100 else Digit(x / 0x100, k - 1)
  {
  }

  /** Four digits and what lies above them make up the number. */
  lemma Digits(x: int)
    ensures var d0: int, d1: int, d2: int, d3: int := Digit(x, 0), Digit(x, 1), Digit(x, 2), Digit(x, 3);
      x == d0 + 0x100 * d1 + 0x1_0000 * d2 + 0x100_0000 * d3 + TWO32 * (x / 0x100 / 0x100 / 0x100 / 0x100)
  {
    hide Digit;
    var x1 := x / 0x100;
    var x2 := x1 / 0x100;
    var x3 := x2 / 0x100;
    DigitUnfold(x, 0);
    DigitUnfold(x, 1);
    DigitUnfold(x, 2);
    DigitUnfold(x, 3);
    DigitUnfold(x1, 0);
    DigitUnfold(x1, 1);
    DigitUnfold(x1, 2);
    DigitUnfold(x2, 0);
    DigitUnfold(x2, 1);
    DigitUnfold(x3, 0);
  }

  lemma Read16(h: Bytes, off: nat, x: u16)
    requires At(h, off, LE16(x))
    ensures Rd16(h, off) == x
  {
    hide LE16;
    Bytes16(x);
    var s := h[off..off + 2];
    assert s[0] == h[off] && s[1] == h[off + 1];
  }

  /** The remainder is what lies below a multiple. */
  lemma Remainder(x: int, low: int, high: int)
    requires x == low + TWO32 * high && 0 <= low < TWO32
    ensures x % TWO32 == low
  {
  }

  lemma Read32(h: Bytes, off: nat, x: int)
    requires At(h, off, LE32(x))
    ensures Rd32(h, off) == x % TWO32
    ensures 0 <= x < TWO32 ==> Rd32(h, off) == x
    ensures -0x8000_0000 <= x < 0x8000_0000 ==> AsI32(Rd32(h, off)) == x
  {
    hide LE32, Digit;
    Bytes32(x);
    var s := h[off..off + 4];
    assert s[0] == h[off] && s[1] == h[off + 1] && s[2] == h[off + 2] && s[3] == h[off + 3];
    Digits(x);
    Remainder(x, Rd32(h, off), x / 0x100 / 0x100 / 0x100 / 0x100);
  }

  lemma Read64(h: Bytes, off: nat, x: u64)
    requires At(h, off, LE64(x))
    ensures Rd64(h, off) == x
  {
    hide LE32, Rd32;
    AtConcat(h, off, LE32(x), LE32(x / TWO32));
    Read32(h, off, x);
    Read32(h, off + 4, x / TWO32);
  }

  lemma DigitsOf(b0: int, b1: int, b2: int, b3: int)
    requires 0 <= b0 < 0x100 && 0 <= b1 < 0x100 && 0 <= b2 < 0x100 && 0 <= b3 < 0x100
    ensures var u := b0 + 0x100 * b1 + 0x1_0000 * b2 + 0x100_0000 * b3;
      Digit(u, 0) == b0 && Digit(u, 1) == b1 && Digit(u, 2) == b2 && Digit(u, 3) == b3
  {
    hide Digit;
    var u3 := b3;
    var u2 := b2 + 0x100 * u3;
    var u1 := b1 + 0x100 * u2;
    var u := b0 + 0x100 * u1;
    DigitUnfold(u, 0);
    DigitUnfold(u, 1);
    DigitUnfold(u, 2);
    DigitUnfold(u, 3);
    DigitUnfold(u1, 0);
    DigitUnfold(u1, 1);
    DigitUnfold(u1, 2);
    DigitUnfold(u2, 0);
    DigitUnfold(u2, 1);
    DigitUnfold(u3, 0);
  }

  /** Four bytes are the little-endian form of the number they spell. */
  lemma LE32Inverse(b: Bytes)
    requires |b| == 4
    ensures LE32(Rd32(b, 0)) == b
  {
    hide LE32, Digit;
    DigitsOf(b[0], b[1], b[2], b[3]);
    Bytes32(Rd32(b, 0));
    assert b == [b[0], b[1], b[2], b[3]];
  }

  /** Only the low 32 bits are stored. */
  lemma Wrapped32(x: int)
    ensures LE32(x) == LE32(x % TWO32)
  {
    hide LE32, Rd32;
    var b := LE32(x);
    assert At(b, 0, b);
    Read32(b, 0, x);
    LE32Inverse(b);
  }

  lemma LE64Inverse(b: Bytes)
    requires |b| == 8
    ensures LE64(Rd64(b, 0)) == b
  {
    hide LE32, Rd32;
    var lo: int, hi: int := Rd32(b, 0), Rd32(b, 4);
    var x := lo + TWO32 * hi;
    Wrapped32(x);
    Remainder(x, lo, hi);
    assert x / TWO32 == hi;
    LE32Inverse(b[..4]);
    LE32Inverse(b[4..]);
    SameWord(b[..4], 0, b, 0);
    SameWord(b[4..], 0, b, 4);
  }

  lemma SameWord(a: Bytes, i: nat, b: Bytes, j: nat)
    requires i + 4 <= |a| && j + 4 <= |b| && a[i..i + 4] == b[j..j + 4]
    ensures Rd32(a, i) == Rd32(b, j)
  {
    var s := a[i..i + 4];
    assert s[0] == b[j] && s[1] == b[j + 1] && s[2] == b[j + 2] && s[3] == b[j + 3];
  }

  lemma AddMultiple(q: int, a: int)
    ensures (0x100 * q + a) % 0x100 == a % 0x100 && (0x100 * q + a) / 0x100 == q + a / 0x100
  {
  }

  /** Only the low sixteen bits are stored. */
  lemma Wrapped16(x: int)
    ensures LE16(x) == LE16(x % 0x1_0000)
  {
    hide LE16;
    var q, r := x / 0x1_0000, x % 0x1_0000;
    Bytes16(x);
    Bytes16(r);
    assert x == 0x100 * (0x100 * q) + r;
    AddMultiple(0x100 * q, r);
    AddMultiple(q, r / 0x100);
  }

  lemma LE16Inverse(b: Bytes)
    requires |b| >= 2
    ensures LE16(Rd16(b, 0)) == b[..2]
  {
    hide LE16;
    Bytes16(Rd16(b, 0));
  }

  lemma LE16Zero()
    ensures LE16(0) == [0, 0]
  {
    hide LE16;
    Bytes16(0);
  }
}
