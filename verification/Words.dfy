/** 32-bit machine words.

    A word is an integer below 2^32.  The bitwise operators are defined bit by
    bit, and every fact the kernel model needs about masks, shifts and packed
    fields follows from one lemma per operator saying what each bit of its
    result is, together with extensionality (`SameBits`). */
module Words {

  const WORD_BITS: nat := 32
  const U32_LIMIT: nat := 0x1_0000_0000
  const U32_MAX: nat := 0xFFFF_FFFF
  const U64_LIMIT: nat := 0x1_0000_0000_0000_0000

  type u32 = x: int | 0 <= x < 0x1_0000_0000
  type u64 = x: int | 0 <= x < 0x1_0000_0000_0000_0000
  type byte = x: int | 0 <= x < 256

  function Min(a: int, b: int): int {
    if a <= b then a else b
  }

  /** Bit `i` of `w`, bit 0 being the least significant. */
  predicate Bit(w: nat, i: nat) {
    if i == 0 then w % 2 == 1 else Bit(w / 2, i - 1)
  }

  function And(x: nat, y: nat): nat {
    if x == 0 || y == 0 then 0
    else 2 * And(x / 2, y / 2) + if x % 2 == 1 && y % 2 == 1 then 1 else 0
  }

  function Or(x: nat, y: nat): nat {
    if x == 0 then y
    else if y == 0 then x
    else 2 * Or(x / 2, y / 2) + if x % 2 == 1 || y % 2 == 1 then 1 else 0
  }

  function Not(x: u32): u32 {
    U32_MAX - x
  }

  /** `x` moved up `k` places, nothing lost. */
  function Up(x: nat, k: nat): nat
    decreases k, x
  {
    if k == 0 then x else 2 * Up(x, k - 1)
  }

  /** `x << k` on a 32-bit word: bits shifted past the top are lost. */
  function Shl(x: u32, k: nat): u32 {
    Up(x, k) % U32_LIMIT
  }

  function Shr(x: nat, k: nat): (r: nat)
    ensures r <= x
    decreases k, x
  {
    if k == 0 then x else Shr(x / 2, k - 1)
  }

  /** The low `n` bits of `x`. */
  function Low(x: nat, n: nat): nat
    decreases n, x
  {
    if n == 0 then 0 else 2 * Low(x / 2, n - 1) + x % 2
  }

  /** `n` ones. */
  function Ones(n: nat): nat {
    if n == 0 then 0 else 2 * Ones(n - 1) + 1
  }

  // ---------- What each bit of a result is ----------

  lemma {:induction false} BitOfZero(i: nat)
    ensures !Bit(0, i)
  {
    if i > 0 { BitOfZero(i - 1); }
  }

  lemma {:induction false} BitOfAnd(x: nat, y: nat, i: nat)
    ensures Bit(And(x, y), i) <==> Bit(x, i) && Bit(y, i)
  {
    if x == 0 || y == 0 {
      BitOfZero(i);
    } else if i > 0 {
      BitOfAnd(x / 2, y / 2, i - 1);
    }
  }

  lemma {:induction false} BitOfOr(x: nat, y: nat, i: nat)
    ensures Bit(Or(x, y), i) <==> Bit(x, i) || Bit(y, i)
  {
    if x == 0 || y == 0 {
      BitOfZero(i);
    } else if i > 0 {
      BitOfOr(x / 2, y / 2, i - 1);
    }
  }

  lemma {:induction false} BitOfUp(x: nat, k: nat, i: nat)
    ensures Bit(Up(x, k), i) <==> i >= k && Bit(x, i - k)
    decreases k
  {
    if k > 0 && i > 0 { BitOfUp(x, k - 1, i - 1); }
  }

  lemma {:induction false} BitOfShr(x: nat, k: nat, i: nat)
    ensures Bit(Shr(x, k), i) <==> Bit(x, i + k)
    decreases k
  {
    if k > 0 { BitOfShr(x / 2, k - 1, i); }
  }

  lemma {:induction false} BitOfLow(x: nat, n: nat, i: nat)
    ensures Bit(Low(x, n), i) <==> i < n && Bit(x, i)
    decreases n
  {
    if n == 0 {
      BitOfZero(i);
    } else if i > 0 {
      BitOfLow(x / 2, n - 1, i - 1);
    }
  }

  lemma {:induction false} BitOfComplement(x: nat, n: nat, i: nat)
    requires x <= Ones(n)
    ensures Bit(Ones(n) - x, i) <==> i < n && !Bit(x, i)
    decreases n
  {
    if n == 0 {
      BitOfZero(i);
    } else if i > 0 {
      assert (Ones(n) - x) / 2 == Ones(n - 1) - x / 2;
      BitOfComplement(x / 2, n - 1, i - 1);
    }
  }

  lemma BitOfOnes(n: nat, i: nat)
    ensures Bit(Ones(n), i) <==> i < n
  {
  }

  lemma {:induction false} BitBeyond(x: nat, n: nat, i: nat)
    requires x <= Ones(n) && i >= n
    ensures !Bit(x, i)
    decreases n
  {
    if n == 0 {
      BitOfZero(i);
    } else {
      BitBeyond(x / 2, n - 1, i - 1);
    }
  }

  lemma {:induction false} NonzeroHasBit(x: nat) returns (i: nat)
    requires x != 0
    ensures Bit(x, i)
  {
    if x % 2 == 1 {
      i := 0;
    } else {
      var j := NonzeroHasBit(x / 2);
      i := j + 1;
    }
  }

  /** Extensionality: a number is determined by its bits. */
  lemma {:induction false} SameBits(x: nat, y: nat)
    requires forall i: nat :: Bit(x, i) <==> Bit(y, i)
    ensures x == y
  {
    assert Bit(x, 0) <==> Bit(y, 0);
    if x == 0 && y == 0 {
    } else {
      forall i: nat ensures Bit(x / 2, i) <==> Bit(y / 2, i) {
        assert Bit(x, i + 1) <==> Bit(y, i + 1);
      }
      if x == 0 {
        var i := NonzeroHasBit(y);
        BitOfZero(i);
        assert false;
      }
      SameBits(x / 2, y / 2);
    }
  }

  // ---------- Shifts by the widths in use, as arithmetic ----------

  lemma {:induction false} UpTwice(x: nat, j: nat, k: nat)
    ensures Up(Up(x, j), k) == Up(x, j + k)
    decreases k
  {
    if k > 0 { UpTwice(x, j, k - 1); }
  }

  lemma {:induction false} ShrTwice(x: nat, j: nat, k: nat)
    ensures Shr(Shr(x, j), k) == Shr(x, j + k)
    decreases j
  {
    if j > 0 { ShrTwice(x / 2, j - 1, k); }
  }

  lemma UpWidths(x: nat)
    ensures Up(x, 2) == 4 * x && Up(x, 10) == 0x400 * x && Up(x, 12) == 0x1000 * x
    ensures Up(x, 22) == 0x40_0000 * x && Up(x, 32) == 0x1_0000_0000 * x
  {
    UpTwo(x);
    UpTwice(x, 2, 2);
    UpTwo(4 * x);
    UpTwice(x, 4, 4);
    UpFour(16 * x);
    UpTwice(x, 8, 2);
    UpTwo(256 * x);
    UpTwice(x, 10, 2);
    UpTwo(1024 * x);
    UpTwice(x, 12, 10);
    UpTen(4096 * x);
    UpTwice(x, 22, 10);
    UpTen(0x40_0000 * x);
  }

  lemma UpTwo(x: nat)
    ensures Up(x, 2) == 4 * x
  {
    assert Up(x, 1) == 2 * x;
  }

  lemma UpFour(x: nat)
    ensures Up(x, 4) == 16 * x
  {
    UpTwo(x);
    UpTwo(4 * x);
    UpTwice(x, 2, 2);
  }

  lemma UpTen(x: nat)
    ensures Up(x, 10) == 1024 * x
  {
    UpFour(x);
    UpFour(16 * x);
    UpTwice(x, 4, 4);
    UpTwo(256 * x);
    UpTwice(x, 8, 2);
  }

  lemma ShrTwo(x: nat)
    ensures Shr(x, 2) == x / 4
  {
    assert Shr(x, 2) == Shr(x / 2, 1) == x / 2 / 2;
  }

  lemma ShrFour(x: nat)
    ensures Shr(x, 4) == x / 16
  {
    ShrTwo(x);
    ShrTwo(x / 4);
    ShrTwice(x, 2, 2);
  }

  lemma ShrTen(x: nat)
    ensures Shr(x, 10) == x / 1024
  {
    ShrFour(x);
    ShrFour(x / 16);
    ShrTwice(x, 4, 4);
    ShrTwo(x / 256);
    ShrTwice(x, 8, 2);
  }

  lemma ShrWidths(x: nat)
    ensures Shr(x, 2) == x / 4 && Shr(x, 10) == x / 0x400 && Shr(x, 12) == x / 0x1000
    ensures Shr(x, 22) == x / 0x40_0000 && Shr(x, 32) == x / 0x1_0000_0000
  {
    ShrTwo(x);
    ShrTen(x);
    assert Shr(x, 12) == x / 4096 by {
      ShrTwo(x / 1024);
      ShrTwice(x, 10, 2);
    }
    assert Shr(x, 22) == x / 0x40_0000 by {
      ShrTen(x / 4096);
      ShrTwice(x, 12, 10);
    }
    assert Shr(x, 32) == x / 0x1_0000_0000 by {
      ShrTen(x / 0x40_0000);
      ShrTwice(x, 22, 10);
    }
  }

  lemma {:induction false} LowIsRest(x: nat, n: nat)
    ensures x == Up(Shr(x, n), n) + Low(x, n)
    decreases n
  {
    if n > 0 { LowIsRest(x / 2, n - 1); }
  }

  lemma LowWidths(x: nat)
    ensures Low(x, 2) == x % 4 && Low(x, 10) == x % 0x400 && Low(x, 12) == x % 0x1000
    ensures Low(x, 22) == x % 0x40_0000 && Low(x, 32) == x % 0x1_0000_0000
  {
    ShrWidths(x);
    LowIsRest(x, 2);
    UpWidths(Shr(x, 2));
    LowIsRest(x, 10);
    UpWidths(Shr(x, 10));
    LowIsRest(x, 12);
    UpWidths(Shr(x, 12));
    LowIsRest(x, 22);
    UpWidths(Shr(x, 22));
    LowIsRest(x, 32);
    UpWidths(Shr(x, 32));
  }

  lemma {:induction false} OnesIsUp(n: nat)
    ensures Ones(n) + 1 == Up(1, n)
  {
    if n > 0 { OnesIsUp(n - 1); }
  }

  lemma OnesWidths()
    ensures Ones(10) == 0x3FF && Ones(12) == 0xFFF && Ones(32) == U32_MAX
  {
    OnesIsUp(10);
    OnesIsUp(12);
    OnesIsUp(32);
    UpWidths(1);
  }

  // ---------- Masks and packed fields ----------

  lemma BitOfShl(x: u32, k: nat, i: nat)
    requires i < WORD_BITS
    ensures Bit(Shl(x, k), i) <==> i >= k && Bit(x, i - k)
  {
    LowWidths(Up(x, k));
    BitOfLow(Up(x, k), 32, i);
    BitOfUp(x, k, i);
  }

  lemma BitOfNot(x: u32, i: nat)
    requires i < WORD_BITS
    ensures Bit(Not(x), i) <==> !Bit(x, i)
  {
    OnesWidths();
    BitOfComplement(x, 32, i);
  }

  lemma HighBitsClear(x: u32, i: nat)
    requires i >= WORD_BITS
    ensures !Bit(x, i)
  {
    OnesWidths();
    BitBeyond(x, 32, i);
  }

  /** Testing one bit with a one-hot mask. */
  lemma OneHotTest(w: u32, i: nat)
    requires i < WORD_BITS
    ensures And(w, Shl(1, i)) != 0 <==> Bit(w, i)
  {
    BitOfShl(1, i, i);
    BitOfAnd(w, Shl(1, i), i);
    BitOfZero(i);
    if And(w, Shl(1, i)) != 0 {
      var j := NonzeroHasBit(And(w, Shl(1, i)));
      BitOfAnd(w, Shl(1, i), j);
      if j >= WORD_BITS {
        HighBitsClear(w, j);
      } else {
        BitOfShl(1, i, j);
        if j > i { BitOfZero(j - i - 1); }
      }
    }
  }

  /** Two words share a bit exactly when their conjunction is nonzero. */
  lemma SharedBit(x: u32, y: u32)
    ensures And(x, y) != 0 <==> exists i: nat :: i < WORD_BITS && Bit(x, i) && Bit(y, i)
  {
    if And(x, y) != 0 {
      var i := NonzeroHasBit(And(x, y));
      BitOfAnd(x, y, i);
      if i >= WORD_BITS { HighBitsClear(x, i); }
    }
    if i: nat :| i < WORD_BITS && Bit(x, i) && Bit(y, i) {
      BitOfAnd(x, y, i);
      BitOfZero(i);
    }
  }

  /** Masking with `n` ones keeps the low `n` bits. */
  lemma MaskLow(x: nat, n: nat)
    ensures And(x, Ones(n)) == Low(x, n)
  {
  }

  lemma BitOfMaskHigh(x: u32, n: nat, i: nat)
    requires Ones(n) <= U32_MAX
    ensures Bit(And(x, Not(Ones(n))), i) <==> i >= n && Bit(x, i)
  {
    BitOfAnd(x, Not(Ones(n)), i);
    if i < WORD_BITS {
      BitOfNot(Ones(n), i);
      BitOfOnes(n, i);
    } else {
      HighBitsClear(x, i);
    }
  }

  /** Masking a word with the complement of `n` ones clears the low `n` bits. */
  lemma MaskHigh(x: u32, n: nat)
    requires Ones(n) <= U32_MAX
    ensures And(x, Not(Ones(n))) == Up(Shr(x, n), n)
  {
    forall i: nat ensures Bit(And(x, Not(Ones(n))), i) <==> Bit(Up(Shr(x, n), n), i) {
      BitOfMaskHigh(x, n, i);
      BitOfUp(Shr(x, n), n, i);
      if i >= n { BitOfShr(x, n, i - n); }
    }
    SameBits(And(x, Not(Ones(n))), Up(Shr(x, n), n));
  }

  /** Or-ing a field into the low `n` bits that a shifted field leaves clear is
      addition, so neither field disturbs the other. */
  lemma {:induction false} PackFields(high: nat, low: nat, n: nat)
    requires low <= Ones(n)
    ensures Or(Up(high, n), low) == Up(high, n) + low
    decreases n
  {
    if n > 0 { PackFields(high, low / 2, n - 1); }
  }

  lemma {:induction false} OrAtMost(x: nat, y: nat, n: nat)
    requires x <= Ones(n) && y <= Ones(n)
    ensures Or(x, y) <= Ones(n)
    decreases n
  {
    if n > 0 { OrAtMost(x / 2, y / 2, n - 1); }
  }

  lemma OrFits(x: u32, y: u32)
    ensures Or(x, y) < U32_LIMIT
  {
    OnesWidths();
    OrAtMost(x, y, 32);
  }

  lemma {:induction false} AndAtMost(x: nat, y: nat)
    ensures And(x, y) <= x
  {
    if x != 0 && y != 0 { AndAtMost(x / 2, y / 2); }
  }
}
