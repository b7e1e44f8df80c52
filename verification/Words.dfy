/**
 Unsigned 64-bit words as numbers, with their bits and the bitwise operators defined digit by digit.
 */
module Words {

  function Pow2(k: nat): (p: nat)
    ensures p > 0
  {
    if k == 0 then 1 else 2 * Pow2(k - 1)
  }

  type Word = w: nat | w < 0x1_0000_0000_0000_0000

  lemma WordRange()
    ensures Pow2(64) == 0x1_0000_0000_0000_0000
  {
    assert Pow2(8) == 256;
    Pow2Add(8, 8);
    Pow2Add(16, 16);
    Pow2Add(32, 32);
  }

  lemma {:induction false} Pow2Add(a: nat, b: nat)
    ensures Pow2(a + b) == Pow2(a) * Pow2(b)
  {
    if a > 0 {
      Pow2Add(a - 1, b);
      Twice(Pow2(a - 1), Pow2(b));
    }
  }

  lemma Twice(x: nat, y: nat)
    ensures 2 * (x * y) == (2 * x) * y
  {
  }

  lemma {:induction false} Pow2Monotone(a: nat, b: nat)
    requires a <= b
    ensures Pow2(a) <= Pow2(b)
  {
    if a < b {
      Pow2Monotone(a, b - 1);
    }
  }

  /** Whether the k-th binary digit of w, counted from the lowest, is 1. */
  ghost predicate Bit(w: nat, k: nat)
    decreases k
  {
    if k == 0 then w % 2 == 1 else Bit(w / 2, k - 1)
  }

  datatype Op = And | Or | Xor | AndNot

  predicate Holds(op: Op, p: bool, q: bool) {
    match op
    case And => p && q
    case Or => p || q
    case Xor => p != q
    case AndNot => p && !q
  }

  /** The bitwise operator op of the source's &, |, ^ and &^. */
  function Bitwise(op: Op, a: nat, b: nat): nat
    decreases a + b
  {
    if a == 0 && b == 0 then 0
    else 2 * Bitwise(op, a / 2, b / 2) + (if Holds(op, a % 2 == 1, b % 2 == 1) then 1 else 0)
  }

  /** Bitwise operators act on each bit alone. */
  lemma {:induction false} BitwiseBit(op: Op, a: nat, b: nat, k: nat)
    ensures Bit(Bitwise(op, a, b), k) <==> Holds(op, Bit(a, k), Bit(b, k))
    decreases k
  {
    if a == 0 && b == 0 {
      ZeroBit(k);
    } else {
      Digits(op, a, b);
      if k > 0 {
        BitwiseBit(op, a / 2, b / 2, k - 1);
      }
    }
  }

  /** The lowest digit, and the others. */
  lemma Digits(op: Op, a: nat, b: nat)
    ensures var r := Bitwise(op, a, b);
            r / 2 == Bitwise(op, a / 2, b / 2) && (r % 2 == 1 <==> Holds(op, a % 2 == 1, b % 2 == 1))
  {
  }

  /** Operators on words give words. */
  lemma {:induction false} BitwiseRange(op: Op, a: nat, b: nat, k: nat)
    requires a < Pow2(k) && b < Pow2(k)
    ensures Bitwise(op, a, b) < Pow2(k)
    decreases k
  {
    if k > 0 {
      BitwiseRange(op, a / 2, b / 2, k - 1);
    }
  }

  function WordOp(op: Op, a: Word, b: Word): Word {
    WordRange();
    BitwiseRange(op, a, b, 64);
    Bitwise(op, a, b)
  }

  lemma {:induction false} ZeroBit(k: nat)
    ensures !Bit(0, k)
  {
    if k > 0 {
      ZeroBit(k - 1);
    }
  }

  /** Pow2(k), the source's 1 << k, has only bit k. */
  lemma {:induction false} Pow2Bit(k: nat, j: nat)
    ensures Bit(Pow2(k), j) <==> j == k
  {
    if j == 0 || k == 0 {
      if k == 0 && j > 0 {
        ZeroBit(j - 1);
      }
    } else {
      assert Pow2(k) / 2 == Pow2(k - 1);
      Pow2Bit(k - 1, j - 1);
    }
  }

  /** Pow2(k) - 1 has exactly the bits below k. */
  lemma {:induction false} MaskBit(k: nat, j: nat)
    ensures Bit(Pow2(k) - 1, j) <==> j < k
  {
    if k == 0 {
      ZeroBit(j);
    } else if j > 0 {
      assert (Pow2(k) - 1) / 2 == Pow2(k - 1) - 1;
      MaskBit(k - 1, j - 1);
    }
  }

  /** A number below 2^k has no bit at k or above. */
  lemma {:induction false} HighBit(w: nat, k: nat, j: nat)
    requires w < Pow2(k) && k <= j
    ensures !Bit(w, j)
  {
    if k == 0 {
      ZeroBit(j);
    } else {
      HighBit(w / 2, k - 1, j - 1);
    }
  }

  /** Conversely, a number whose bits from k on are all 0 is below 2^k. */
  lemma {:induction false} BitsBound(w: nat, k: nat)
    requires forall j :: j >= k ==> !Bit(w, j)
    ensures w < Pow2(k)
    decreases w + k
  {
    if k > 0 {
      forall j | j >= k - 1
        ensures !Bit(w / 2, j)
      {
        assert !Bit(w, j + 1);
      }
      BitsBound(w / 2, k - 1);
    } else if w > 0 {
      assert !Bit(w, 0);
      forall j | j >= 0
        ensures !Bit(w / 2, j)
      {
        assert !Bit(w, j + 1);
      }
      BitsBound(w / 2, 0);
    }
  }

  /** Words with the same 64 bits are equal. */
  lemma WordExtensional(a: Word, b: Word)
    requires forall k: nat :: k < 64 ==> Bit(a, k) == Bit(b, k)
    ensures a == b
  {
    forall k: nat
      ensures Bit(a, k) == Bit(b, k)
    {
      if k >= 64 {
        WordHigh(a, k);
        WordHigh(b, k);
      }
    }
    Extensional(a, b);
  }

  lemma WordHigh(w: Word, k: nat)
    requires k >= 64
    ensures !Bit(w, k)
  {
    WordRange();
    HighBit(w, 64, k);
  }

  lemma {:induction false} Extensional(a: nat, b: nat)
    requires forall k: nat :: Bit(a, k) == Bit(b, k)
    ensures a == b
    decreases a + b
  {
    if a > 0 || b > 0 {
      assert Bit(a, 0) == Bit(b, 0);
      forall k: nat
        ensures Bit(a / 2, k) == Bit(b / 2, k)
      {
        assert Bit(a, k + 1) == Bit(b, k + 1);
      }
      Extensional(a / 2, b / 2);
    }
  }

  ghost predicate HasBit(w: Word) {
    exists k: nat :: k < 64 && Bit(w, k)
  }

  ghost predicate BitsWithin(a: Word, b: Word) {
    forall k: nat :: k < 64 && Bit(a, k) ==> Bit(b, k)
  }

  /** A word is non-zero exactly when it has a 1-bit. */
  lemma NonZeroBit(w: Word)
    ensures w != 0 <==> HasBit(w)
  {
    forall k: nat
      ensures !Bit(0, k)
    {
      ZeroBit(k);
    }
    if !HasBit(w) {
      WordExtensional(w, 0);
    }
  }

  /** The source's subset test on one word. */
  lemma AndIsSubset(a: Word, b: Word)
    ensures WordOp(And, a, b) == a <==> BitsWithin(a, b)
  {
    var c := WordOp(And, a, b);
    forall k: nat | k < 64
      ensures Bit(c, k) <==> Bit(a, k) && Bit(b, k)
    {
      BitwiseBit(And, a, b, k);
    }
    if BitsWithin(a, b) {
      WordExtensional(c, a);
    }
  }
}
