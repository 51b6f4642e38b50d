/** Bitwise exclusive or of naturals, and its fold over a list of words. */
module Xor32 {
  import opened LittleEndian
  import opened Permutations

  function Bit(x: nat): (b: nat)
    ensures b < 2
  {
    x % 2
  }

  function Half(x: nat): (h: nat)
    ensures 0 < x ==> h < x
    ensures h <= x
  {
    x / 2
  }

  function BitXor(a: nat, b: nat): (r: nat)
    ensures r < 2
  {
    (a + b) % 2
  }

  /** Bit by bit, lowest first. */
  function Xor(x: nat, y: nat): nat
    decreases x + y
  {
    if x == 0 && y == 0 then 0 else BitXor(Bit(x), Bit(y)) + 2 * Xor(Half(x), Half(y))
  }

  lemma {:induction false} XorZero(x: nat)
    ensures Xor(x, 0) == x && Xor(0, x) == x
  {
    if x != 0 {
      XorZero(Half(x));
    }
  }

  lemma {:induction false} XorSelf(x: nat)
    ensures Xor(x, x) == 0
  {
    if x != 0 {
      XorSelf(Half(x));
    }
  }

  lemma {:induction false} XorCommutes(x: nat, y: nat)
    ensures Xor(x, y) == Xor(y, x)
    decreases x + y
  {
    if x != 0 || y != 0 {
      XorCommutes(Half(x), Half(y));
    }
  }

  lemma XorBits(x: nat, y: nat)
    ensures Bit(Xor(x, y)) == BitXor(Bit(x), Bit(y)) && Half(Xor(x, y)) == Xor(Half(x), Half(y))
  {
    hide Bit, Half, BitXor, Xor;
    XorUnfold(x, y);
    LowBit(BitXor(Bit(x), Bit(y)), Xor(Half(x), Half(y)));
  }

  lemma XorUnfold(x: nat, y: nat)
    ensures Xor(x, y) == BitXor(Bit(x), Bit(y)) + 2 * Xor(Half(x), Half(y))
  {
    if x == 0 && y == 0 {
      assert Half(0) == 0 && BitXor(Bit(0), Bit(0)) == 0;
    } else {
      hide Bit, Half, BitXor;
    }
  }

  lemma LowBit(bit: nat, rest: nat)
    requires bit < 2
    ensures Bit(bit + 2 * rest) == bit && Half(bit + 2 * rest) == rest
  {
  }

  lemma SameBits(l: nat, r: nat)
    requires Bit(l) == Bit(r) && Half(l) == Half(r)
    ensures l == r
  {
  }

  lemma BitXorAssociates(a: nat, b: nat, c: nat)
    ensures BitXor(BitXor(a, b), c) == BitXor(a, BitXor(b, c))
  {
  }

  lemma {:induction false} XorAssociates(x: nat, y: nat, z: nat)
    ensures Xor(Xor(x, y), z) == Xor(x, Xor(y, z))
    decreases x + y + z
  {
    hide Xor, Bit, Half, BitXor;
    if x + y + z != 0 {
      XorAssociates(Half(x), Half(y), Half(z));
      XorBits(x, y);
      XorBits(y, z);
      XorBits(Xor(x, y), z);
      XorBits(x, Xor(y, z));
      BitXorAssociates(Bit(x), Bit(y), Bit(z));
      SameBits(Xor(Xor(x, y), z), Xor(x, Xor(y, z)));
    } else {
      XorZero(0);
    }
  }

  /** Exclusive or with a fixed word is injective. */
  lemma XorCancels(x: nat, y: nat, z: nat)
    requires Xor(x, z) == Xor(y, z)
    ensures x == y
  {
    XorAssociates(x, z, z);
    XorAssociates(y, z, z);
    XorSelf(z);
    XorZero(x);
    XorZero(y);
  }

  function Pow2(n: nat): nat {
    if n == 0 then 1 else 2 * Pow2(n - 1)
  }

  lemma {:induction false} XorBelow(x: nat, y: nat, n: nat)
    requires x < Pow2(n) && y < Pow2(n)
    ensures Xor(x, y) < Pow2(n)
  {
    if n != 0 && (x != 0 || y != 0) {
      XorBelow(Half(x), Half(y), n - 1);
    }
  }

  lemma Pow2Of32()
    ensures Pow2(32) == TWO32
  {
    assert Pow2(8) == 0x100;
    assert Pow2(16) == 0x1_0000;
    assert Pow2(24) == 0x100_0000;
  }

  /** `x ^ y` on 32-bit words. */
  function XorWord(x: u32, y: u32): (r: u32) {
    Pow2Of32();
    XorBelow(x, y, 32);
    Xor(x, y)
  }

  function XorAll(words: seq<u32>): u32 {
    if words == [] then 0 else XorWord(words[0], XorAll(words[1..]))
  }

  lemma {:induction false} XorAllSnoc(words: seq<u32>, w: u32)
    ensures XorAll(words + [w]) == XorWord(XorAll(words), w)
  {
    if words == [] {
      XorZero(w);
      assert XorAll([w]) == XorWord(w, XorAll([]));
    } else {
      assert (words + [w])[1..] == words[1..] + [w];
      XorAllSnoc(words[1..], w);
      XorAssociates(words[0], XorAll(words[1..]), w);
    }
  }

  /** Any word can be pulled to the front. */
  lemma {:induction false} XorAllPull(words: seq<u32>, i: nat)
    requires i < |words|
    ensures XorAll(words) == XorWord(words[i], XorAll(Without(words, i)))
  {
    if i == 0 {
      WithoutHead(words);
    } else {
      var rest, less := words[1..], Without(words, i);
      XorAllPull(rest, i - 1);
      WithoutTail(words, i);
      var x := XorAll(Without(rest, i - 1));
      XorAssociates(words[0], words[i], x);
      XorCommutes(words[0], words[i]);
      XorAssociates(words[i], words[0], x);
    }
  }

  /** The fold does not depend on the order of the words. */
  lemma {:induction false} XorAllPermutes(a: seq<u32>, b: seq<u32>)
    requires multiset(a) == multiset(b)
    ensures XorAll(a) == XorAll(b)
    decreases |a|
  {
    if a == [] {
      assert |multiset(b)| == 0;
    } else {
      var i := MatchHead(a, b);
      XorAllPull(b, i);
      XorAllPermutes(a[1..], Without(b, i));
    }
  }

  // ---------- bits ----------

  /** Bit `k` of a number, the lowest being bit 0. */
  function BitAt(x: nat, k: nat): (b: nat)
    ensures b < 2
    decreases k
  {
    if k == 0 then x % 2 else BitAt(x / 2, k - 1)
  }

  lemma {:induction false} XorBitAt(x: nat, y: nat, k: nat)
    ensures BitAt(Xor(x, y), k) == (BitAt(x, k) + BitAt(y, k)) % 2
    decreases k
  {
    hide Xor;
    XorBits(x, y);
    if k > 0 {
      XorBitAt(Half(x), Half(y), k - 1);
    }
  }

  /** How many of the words have bit `k` set. */
  function Setting(words: seq<u32>, k: nat): nat {
    if words == [] then 0 else BitAt(words[0], k) + Setting(words[1..], k)
  }

  lemma {:induction false} ZeroBit(k: nat)
    ensures BitAt(0, k) == 0
  {
    if k > 0 {
      ZeroBit(k - 1);
    }
  }

  lemma Parity(b: nat, n: nat)
    ensures (b + n % 2) % 2 == (b + n) % 2
  {
  }

  /** Each bit of the fold is the parity of the words that have it. */
  lemma {:induction false} XorAllBit(words: seq<u32>, k: nat)
    ensures BitAt(XorAll(words), k) == Setting(words, k) % 2
  {
    hide BitAt, Xor;
    if words == [] {
      ZeroBit(k);
    } else {
      XorAllBit(words[1..], k);
      XorBitAt(words[0], XorAll(words[1..]), k);
      Parity(BitAt(words[0], k), Setting(words[1..], k));
    }
  }

  /** The low `n` bits determine a number below 2^n. */
  lemma {:induction false} BitsDetermine(x: nat, y: nat, n: nat)
    requires x < Pow2(n) && y < Pow2(n)
    requires forall k :: 0 <= k < n ==> BitAt(x, k) == BitAt(y, k)
    ensures x == y
    decreases n
  {
    if n > 0 {
      assert BitAt(x, 0) == BitAt(y, 0);
      forall k | 0 <= k < n - 1
        ensures BitAt(x / 2, k) == BitAt(y / 2, k)
      {
        assert BitAt(x, k + 1) == BitAt(y, k + 1);
      }
      BitsDetermine(x / 2, y / 2, n - 1);
    }
  }

  /** Exclusive or with 0xff turns over the low eight bits and no others. */
  lemma LowBitsTurned(x: u32, k: nat)
    requires k < 32
    ensures BitAt(XorWord(x, 0xff), k) == if k < 8 then 1 - BitAt(x, k) else BitAt(x, k)
  {
    hide Xor;
    XorBitAt(x, 0xff, k);
    Ones(k);
  }

  lemma Ones(k: nat)
    ensures BitAt(0xff, k) == if k < 8 then 1 else 0
  {
    if k >= 8 {
      ShiftedOut(0xff, 8, k);
    } else if k == 7 {
      assert BitAt(0xff, 7) == BitAt(0x7f, 6) == BitAt(0x3f, 5) == BitAt(0x1f, 4) == BitAt(0xf, 3);
    } else if k == 6 {
      assert BitAt(0xff, 6) == BitAt(0x7f, 5) == BitAt(0x3f, 4) == BitAt(0x1f, 3) == BitAt(0xf, 2);
    } else if k == 5 {
      assert BitAt(0xff, 5) == BitAt(0x7f, 4) == BitAt(0x3f, 3) == BitAt(0x1f, 2);
    } else if k == 4 {
      assert BitAt(0xff, 4) == BitAt(0x7f, 3) == BitAt(0x3f, 2);
    } else if k == 3 {
      assert BitAt(0xff, 3) == BitAt(0x7f, 2) == BitAt(0x3f, 1);
    }
  }

  lemma {:induction false} ShiftedOut(x: nat, n: nat, k: nat)
    requires x < Pow2(n) && n <= k
    ensures BitAt(x, k) == 0
    decreases k
  {
    if n == 0 {
      ZeroBit(k);
    } else {
      ShiftedOut(x / 2, n - 1, k - 1);
    }
  }
}
