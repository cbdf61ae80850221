/**
 The word operations of the occupancy bitmap. A `uint64_t` is a natural number below 2^64; the bitwise
 operators are defined on its binary digits, and `Bit` says which positions are set.
 */
module Bits {
  import opened Arithmetic

  const WORD := 64

  function Pow2(n: nat): (r: nat)
    ensures r >= 1
  {
    if n == 0 then 1 else 2 * Pow2(n - 1)
  }

  lemma {:induction false} Pow2Adds(m: nat, n: nat)
    ensures Pow2(m + n) == Pow2(m) * Pow2(n)
  {
    if m > 0 {
      Pow2Adds(m - 1, n);
      TwiceTimes(Pow2(m - 1), Pow2(n));
    }
  }

  lemma TwiceTimes(a: nat, b: nat)
    ensures 2 * (a * b) == (2 * a) * b
  {
  }

  lemma SmallPower()
    ensures Pow2(4) == 16
  {
  }

  /** A word has 64 bits. */
  lemma WordRange()
    ensures Pow2(WORD) == 0x1_0000_0000_0000_0000
  {
    hide Pow2;
    SmallPower();
    Pow2Adds(4, 4);
    Pow2Adds(8, 8);
    Pow2Adds(16, 16);
    Pow2Adds(32, 32);
  }

  predicate IsWord(w: nat) {
    w < Pow2(WORD)
  }

  predicate Bit(w: nat, i: nat) {
    if i == 0 then w % 2 == 1 else Bit(w / 2, i - 1)
  }

  /** `a | b` */
  function Or(a: nat, b: nat): nat {
    if a == 0 && b == 0 then 0 else 2 * Or(a / 2, b / 2) + if a % 2 == 1 || b % 2 == 1 then 1 else 0
  }

  /** `a & b` */
  function And(a: nat, b: nat): (r: nat)
    ensures r <= a
  {
    if a == 0 || b == 0 then 0 else 2 * And(a / 2, b / 2) + if a % 2 == 1 && b % 2 == 1 then 1 else 0
  }

  /** `~a`, on words of `n` bits */
  function Not(a: nat, n: nat): nat
    requires a < Pow2(n)
  {
    Pow2(n) - 1 - a
  }

  lemma {:induction false} ZeroBit(i: nat)
    ensures !Bit(0, i)
  {
    if i > 0 {
      ZeroBit(i - 1);
    }
  }

  lemma {:induction false} OrBit(a: nat, b: nat, i: nat)
    ensures Bit(Or(a, b), i) <==> Bit(a, i) || Bit(b, i)
  {
    if a == 0 && b == 0 {
      ZeroBit(i);
    } else if i > 0 {
      OrBit(a / 2, b / 2, i - 1);
    }
  }

  lemma {:induction false} AndBit(a: nat, b: nat, i: nat)
    ensures Bit(And(a, b), i) <==> Bit(a, i) && Bit(b, i)
  {
    if a == 0 || b == 0 {
      ZeroBit(i);
    } else if i > 0 {
      AndBit(a / 2, b / 2, i - 1);
    }
  }

  lemma {:induction false} NotBit(a: nat, n: nat, i: nat)
    requires a < Pow2(n) && i < n
    ensures Bit(Not(a, n), i) <==> !Bit(a, i)
  {
    if i > 0 {
      assert Not(a, n) / 2 == Not(a / 2, n - 1);
      NotBit(a / 2, n - 1, i - 1);
    }
  }

  lemma {:induction false} PowerBit(k: nat, i: nat)
    ensures Bit(Pow2(k), i) <==> i == k
  {
    if i > 0 {
      if k > 0 {
        PowerBit(k - 1, i - 1);
      } else {
        ZeroBit(i - 1);
      }
    }
  }

  lemma {:induction false} MaskBit(k: nat, i: nat)
    ensures Bit(Pow2(k) - 1, i) <==> i < k
  {
    if k == 0 {
      ZeroBit(i);
    } else if i > 0 {
      assert (Pow2(k) - 1) / 2 == Pow2(k - 1) - 1;
      MaskBit(k - 1, i - 1);
    }
  }

  lemma {:induction false} Pow2Increases(m: nat, n: nat)
    requires m < n
    ensures Pow2(m) < Pow2(n)
  {
    if m + 1 < n {
      Pow2Increases(m, n - 1);
    }
  }

  lemma {:induction false} OrIsWord(a: nat, b: nat, n: nat)
    requires a < Pow2(n) && b < Pow2(n)
    ensures Or(a, b) < Pow2(n)
  {
    if n > 0 && (a != 0 || b != 0) {
      OrIsWord(a / 2, b / 2, n - 1);
    }
  }

  /** A word other than zero has a bit set. */
  lemma {:induction false} NonzeroHasBit(w: nat, n: nat)
    requires 0 < w < Pow2(n)
    ensures exists i :: 0 <= i < n && Bit(w, i)
  {
    if w % 2 == 1 {
      assert Bit(w, 0);
    } else {
      NonzeroHasBit(w / 2, n - 1);
      var i :| 0 <= i < n - 1 && Bit(w / 2, i);
      assert Bit(w, i + 1);
    }
  }

  /** `std::countl_zero`: the number of zero bits above the highest set one. */
  function CountLeadingZeros(w: nat): (r: nat)
    requires IsWord(w)
    ensures r <= WORD
    ensures forall i :: WORD - r <= i < WORD ==> !Bit(w, i)
    ensures w != 0 ==> r < WORD && Bit(w, WORD - 1 - r)
  {
    if w != 0 then NonzeroHasBit(w, WORD); ZerosBelow(w, WORD) else ZerosBelow(w, WORD)
  }

  function ZerosBelow(w: nat, n: nat): (r: nat)
    ensures r <= n
    ensures forall i :: n - r <= i < n ==> !Bit(w, i)
    ensures r < n ==> Bit(w, n - 1 - r)
  {
    if n == 0 || Bit(w, n - 1) then 0 else 1 + ZerosBelow(w, n - 1)
  }

  /** `std::countr_zero`: the number of zero bits below the lowest set one. */
  function CountTrailingZeros(w: nat): (r: nat)
    requires IsWord(w)
    ensures r <= WORD
    ensures forall i :: 0 <= i < r ==> !Bit(w, i)
    ensures w != 0 ==> r < WORD && Bit(w, r)
  {
    if w != 0 then NonzeroHasBit(w, WORD); ZerosFrom(w, 0) else ZerosFrom(w, 0)
  }

  function ZerosFrom(w: nat, n: nat): (r: nat)
    requires n <= WORD
    ensures r <= WORD - n
    ensures forall i :: n <= i < n + r ==> !Bit(w, i)
    ensures n + r < WORD ==> Bit(w, n + r)
    decreases WORD - n
  {
    if n == WORD || Bit(w, n) then 0 else 1 + ZerosFrom(w, n + 1)
  }

  // ----- the four word expressions of the order book

  /** `w | (uint64_t{1} << bit)` */
  lemma OrSetsBit(w: nat, bit: nat)
    requires IsWord(w) && bit < WORD
    ensures IsWord(Or(w, Pow2(bit)))
    ensures forall i :: 0 <= i < WORD ==> (Bit(Or(w, Pow2(bit)), i) <==> i == bit || Bit(w, i))
  {
    Pow2Increases(bit, WORD);
    OrIsWord(w, Pow2(bit), WORD);
    forall i | 0 <= i < WORD
      ensures Bit(Or(w, Pow2(bit)), i) <==> i == bit || Bit(w, i)
    {
      OrBit(w, Pow2(bit), i);
      PowerBit(bit, i);
    }
  }

  /** `w & ~(uint64_t{1} << bit)` */
  lemma AndNotClearsBit(w: nat, bit: nat)
    requires IsWord(w) && bit < WORD
    ensures Pow2(bit) < Pow2(WORD)
    ensures forall i :: 0 <= i < WORD ==> (Bit(And(w, Not(Pow2(bit), WORD)), i) <==> i != bit && Bit(w, i))
  {
    Pow2Increases(bit, WORD);
    forall i | 0 <= i < WORD
      ensures Bit(And(w, Not(Pow2(bit), WORD)), i) <==> i != bit && Bit(w, i)
    {
      AndBit(w, Not(Pow2(bit), WORD), i);
      NotBit(Pow2(bit), WORD, i);
      PowerBit(bit, i);
    }
  }

  /** `w & ((uint64_t{1} << (bit + 1)) - 1)` */
  lemma LowMaskKeeps(w: nat, bit: nat)
    requires IsWord(w) && bit < WORD - 1
    ensures forall i :: 0 <= i < WORD ==> (Bit(And(w, Pow2(bit + 1) - 1), i) <==> i <= bit && Bit(w, i))
  {
    var mask := Pow2(bit + 1) - 1;
    forall i | 0 <= i < WORD
      ensures Bit(And(w, mask), i) <==> i <= bit && Bit(w, i)
    {
      AndBit(w, mask, i);
      MaskBit(bit + 1, i);
    }
  }

  /** `w & ~((uint64_t{1} << bit) - 1)` */
  lemma HighMaskKeeps(w: nat, bit: nat)
    requires IsWord(w) && bit < WORD
    ensures Pow2(bit) < Pow2(WORD)
    ensures forall i :: 0 <= i < WORD ==> (Bit(And(w, Not(Pow2(bit) - 1, WORD)), i) <==> bit <= i && Bit(w, i))
  {
    Pow2Increases(bit, WORD);
    forall i | 0 <= i < WORD
      ensures Bit(And(w, Not(Pow2(bit) - 1, WORD)), i) <==> bit <= i && Bit(w, i)
    {
      AndBit(w, Not(Pow2(bit) - 1, WORD), i);
      NotBit(Pow2(bit) - 1, WORD, i);
      MaskBit(bit, i);
    }
  }

  // ----- the lower bits of a number

  function LowBits(x: nat, k: nat): nat {
    if k == 0 then 0 else 2 * LowBits(x / 2, k - 1) + x % 2
  }

  lemma RemainderOfDouble(x: nat, m: nat, r: nat)
    requires m > 0 && (x / 2) % m == r
    ensures x % (2 * m) == 2 * r + x % 2
  {
    var half := x / 2;
    assert half == m * (half / m) + r;
    assert 2 * (m * (half / m)) == 2 * m * (half / m);
    DivisionIsUnique(x, 2 * m, half / m, 2 * r + x % 2);
  }

  lemma {:induction false} LowBitsAreRemainder(x: nat, k: nat)
    ensures LowBits(x, k) == x % Pow2(k)
  {
    if k > 0 {
      LowBitsAreRemainder(x / 2, k - 1);
      RemainderOfDouble(x, Pow2(k - 1), LowBits(x / 2, k - 1));
    }
  }

  /** `x & (2^k - 1)` keeps the lower `k` bits. */
  lemma {:induction false} MaskKeepsLowBits(x: nat, k: nat)
    ensures And(x, Pow2(k) - 1) == LowBits(x, k)
  {
    AndUnfolds(x, Pow2(k) - 1);
    hide And;
    if k > 0 {
      assert (Pow2(k) - 1) / 2 == Pow2(k - 1) - 1 && (Pow2(k) - 1) % 2 == 1;
      MaskKeepsLowBits(x / 2, k - 1);
    }
  }

  lemma AndUnfolds(a: nat, b: nat)
    ensures b == 0 ==> And(a, b) == 0
    ensures And(a, b) == 2 * And(a / 2, b / 2) + if a % 2 == 1 && b % 2 == 1 then 1 else 0
  {
  }

  lemma {:induction false} LowBitsTwice(x: nat, n: nat, k: nat)
    requires k <= n
    ensures LowBits(LowBits(x, n), k) == LowBits(x, k)
  {
    if k > 0 {
      assert LowBits(x, n) / 2 == LowBits(x / 2, n - 1);
      LowBitsTwice(x / 2, n - 1, k - 1);
    }
  }

  /** Masking a number that has wrapped around at `2^n` gives its remainder modulo `2^k`. */
  lemma MaskOfWrapped(x: nat, n: nat, k: nat)
    requires k <= n
    ensures And(x % Pow2(n), Pow2(k) - 1) == x % Pow2(k)
  {
    hide And, LowBits, Pow2;
    LowBitsAreRemainder(x, n);
    LowBitsAreRemainder(x, k);
    MaskKeepsLowBits(x % Pow2(n), k);
    LowBitsTwice(x, n, k);
  }
}
