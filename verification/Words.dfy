/** The 64-bit words a bitset is made of. A word is its unsigned value; the C operators are
    defined on binary digits, by halving both operands, and read as operations on sets of bit
    positions. */
module Words {
  const BITS_PER_WORD: nat := 64

  type Word = w: nat | w < 0x1_0000_0000_0000_0000

  /** 1 << b */
  function Pow2(b: nat): (p: nat)
    ensures p > 0
  {
    if b == 0 then 1 else 2 * Pow2(b - 1)
  }

  function BitMask(b: nat): Word
    requires b < BITS_PER_WORD
  {
    Pow2Bound(b, 63);
    Pow2Of63();
    Pow2(b)
  }

  /** ~0 << b: the ones from position b up. */
  function OnesFrom(b: nat): Word
    requires b < BITS_PER_WORD
  {
    Pow2Bound(b, 63);
    Pow2Of63();
    0x1_0000_0000_0000_0000 - Pow2(b)
  }

  /** a & b */
  function And(a: nat, b: nat): (r: nat)
    ensures r <= a
  {
    if a == 0 || b == 0 then 0
    else 2 * And(a / 2, b / 2) + (if a % 2 == 1 && b % 2 == 1 then 1 else 0)
  }

  /** a & ~b */
  function AndNot(a: nat, b: nat): (r: nat)
    ensures r <= a
  {
    if a == 0 then 0
    else 2 * AndNot(a / 2, b / 2) + (if a % 2 == 1 && b % 2 == 0 then 1 else 0)
  }

  /** a | b */
  function Or(a: nat, b: nat): nat {
    if a == 0 then b
    else 2 * Or(a / 2, b / 2) + (if a % 2 == 1 || b % 2 == 1 then 1 else 0)
  }

  /** Digit b of a. */
  predicate Bit(a: nat, b: nat) {
    if b == 0 then a % 2 == 1 else Bit(a / 2, b - 1)
  }

  ghost function Bits(w: Word): set<nat> {
    set b: nat | b < BITS_PER_WORD && Bit(w, b)
  }

  // ---------- The operators, digit by digit ----------

  lemma Pow2Byte(b: nat)
    ensures Pow2(b + 8) == 256 * Pow2(b)
  {
    assert Pow2(b + 2) == 4 * Pow2(b);
    assert Pow2(b + 4) == 4 * Pow2(b + 2);
    assert Pow2(b + 6) == 4 * Pow2(b + 4);
    assert Pow2(b + 8) == 4 * Pow2(b + 6);
  }

  lemma Pow2Of63()
    ensures Pow2(63) == 0x8000_0000_0000_0000
    ensures Pow2(64) == 0x1_0000_0000_0000_0000
  {
    Pow2Byte(0); Pow2Byte(8); Pow2Byte(16); Pow2Byte(24);
    Pow2Byte(32); Pow2Byte(40); Pow2Byte(48); Pow2Byte(56);
    assert Pow2(64) == 2 * Pow2(63);
  }

  lemma {:induction false} Pow2Bound(b: nat, c: nat)
    requires b <= c
    ensures Pow2(b) <= Pow2(c)
    decreases c
  {
    if b < c {
      Pow2Bound(b, c - 1);
    }
  }

  lemma {:induction false} ZeroBit(c: nat)
    ensures !Bit(0, c)
  {
    if c > 0 {
      ZeroBit(c - 1);
    }
  }

  lemma {:induction false} AndBit(a: nat, b: nat, c: nat)
    ensures Bit(And(a, b), c) <==> Bit(a, c) && Bit(b, c)
  {
    if a == 0 || b == 0 {
      ZeroBit(c);
    } else if c > 0 {
      AndBit(a / 2, b / 2, c - 1);
    }
  }

  lemma {:induction false} AndNotBit(a: nat, b: nat, c: nat)
    ensures Bit(AndNot(a, b), c) <==> Bit(a, c) && !Bit(b, c)
  {
    if a == 0 {
      ZeroBit(c);
    } else if c > 0 {
      AndNotBit(a / 2, b / 2, c - 1);
    }
  }

  lemma {:induction false} OrBit(a: nat, b: nat, c: nat)
    ensures Bit(Or(a, b), c) <==> Bit(a, c) || Bit(b, c)
  {
    if a == 0 {
      ZeroBit(c);
    } else if c > 0 {
      OrBit(a / 2, b / 2, c - 1);
    }
  }

  lemma {:induction false} OrFits(a: nat, b: nat, n: nat)
    requires a < Pow2(n) && b < Pow2(n)
    ensures Or(a, b) < Pow2(n)
  {
    if a != 0 {
      OrFits(a / 2, b / 2, n - 1);
    }
  }

  lemma {:induction false} MaskBit(b: nat, c: nat)
    ensures Bit(Pow2(b), c) <==> b == c
  {
    if b == 0 && c > 0 {
      ZeroBit(c - 1);
    } else if c > 0 {
      MaskBit(b - 1, c - 1);
    }
  }

  lemma {:induction false} OnesBit(n: nat, b: nat, c: nat)
    requires b <= n
    ensures Pow2(b) <= Pow2(n)
    ensures Bit(Pow2(n) - Pow2(b), c) <==> b <= c < n
  {
    Pow2Bound(b, n);
    if b == n {
      ZeroBit(c);
    } else if c == 0 {
    } else if b == 0 {
      OnesBit(n - 1, 0, c - 1);
      assert (Pow2(n) - 1) / 2 == Pow2(n - 1) - 1;
    } else {
      OnesBit(n - 1, b - 1, c - 1);
      assert (Pow2(n) - Pow2(b)) / 2 == Pow2(n - 1) - Pow2(b - 1);
    }
  }

  /** A value with n digits has no digit at n or above. */
  lemma {:induction false} HighBits(a: nat, n: nat, c: nat)
    requires a < Pow2(n) && n <= c
    ensures !Bit(a, c)
  {
    if n == 0 {
      ZeroBit(c);
    } else {
      HighBits(a / 2, n - 1, c - 1);
    }
  }

  /** Different values differ in some digit. */
  lemma {:induction false} DifferingBit(a: nat, b: nat, n: nat) returns (c: nat)
    requires a != b && a < Pow2(n) && b < Pow2(n)
    ensures c < n && Bit(a, c) != Bit(b, c)
  {
    if a % 2 != b % 2 {
      c := 0;
    } else {
      c := DifferingBit(a / 2, b / 2, n - 1);
      c := c + 1;
    }
  }

  // ---------- What src/bitset.c does with one word ----------

  /** word | BIT_MASK(b) */
  function SetBit(w: Word, b: nat): (r: Word)
    requires b < BITS_PER_WORD
    ensures forall c: nat :: Bit(r, c) <==> Bit(w, c) || b == c
  {
    Pow2Of63();
    OrFits(w, BitMask(b), 64);
    assert forall c: nat :: Bit(Or(w, BitMask(b)), c) <==> Bit(w, c) || b == c by {
      forall c: nat ensures Bit(Or(w, BitMask(b)), c) <==> Bit(w, c) || b == c {
        OrBit(w, BitMask(b), c);
        MaskBit(b, c);
      }
    }
    Or(w, BitMask(b))
  }

  /** word & ~BIT_MASK(b) */
  function ClearBit(w: Word, b: nat): (r: Word)
    requires b < BITS_PER_WORD
    ensures forall c: nat :: Bit(r, c) <==> Bit(w, c) && b != c
  {
    assert forall c: nat :: Bit(AndNot(w, BitMask(b)), c) <==> Bit(w, c) && b != c by {
      forall c: nat ensures Bit(AndNot(w, BitMask(b)), c) <==> Bit(w, c) && b != c {
        AndNotBit(w, BitMask(b), c);
        MaskBit(b, c);
      }
    }
    AndNot(w, BitMask(b))
  }

  /** (word & BIT_MASK(b)) != 0 */
  predicate TestBit(w: Word, b: nat)
    requires b < BITS_PER_WORD
    ensures TestBit(w, b) <==> Bit(w, b)
  {
    TestIsBit(w, b);
    And(w, BitMask(b)) != 0
  }

  lemma TestIsBit(w: Word, b: nat)
    requires b < BITS_PER_WORD
    ensures And(w, BitMask(b)) != 0 <==> Bit(w, b)
  {
    var r := And(w, BitMask(b));
    AndBit(w, BitMask(b), b);
    MaskBit(b, b);
    if r == 0 {
      ZeroBit(b);
    } else {
      Pow2Of63();
      var c := DifferingBit(r, 0, 64);
      ZeroBit(c);
      AndBit(w, BitMask(b), c);
      MaskBit(b, c);
    }
  }

  /** word & (~0 << b) */
  function KeepFrom(w: Word, b: nat): (r: Word)
    requires b < BITS_PER_WORD
    ensures forall c: nat :: Bit(r, c) <==> Bit(w, c) && b <= c
  {
    assert forall c: nat :: Bit(And(w, OnesFrom(b)), c) <==> Bit(w, c) && b <= c by {
      forall c: nat ensures Bit(And(w, OnesFrom(b)), c) <==> Bit(w, c) && b <= c {
        AndBit(w, OnesFrom(b), c);
        Pow2Of63();
        OnesBit(64, b, c);
        if c >= 64 {
          HighBits(w, 64, c);
        }
      }
    }
    And(w, OnesFrom(b))
  }

  function OrWord(a: Word, b: Word): (r: Word)
    ensures forall c: nat :: Bit(r, c) <==> Bit(a, c) || Bit(b, c)
  {
    Pow2Of63();
    OrFits(a, b, 64);
    assert forall c: nat :: Bit(Or(a, b), c) <==> Bit(a, c) || Bit(b, c) by {
      forall c: nat ensures Bit(Or(a, b), c) <==> Bit(a, c) || Bit(b, c) {
        OrBit(a, b, c);
      }
    }
    Or(a, b)
  }

  function AndWord(a: Word, b: Word): (r: Word)
    ensures forall c: nat :: Bit(r, c) <==> Bit(a, c) && Bit(b, c)
  {
    assert forall c: nat :: Bit(And(a, b), c) <==> Bit(a, c) && Bit(b, c) by {
      forall c: nat ensures Bit(And(a, b), c) <==> Bit(a, c) && Bit(b, c) {
        AndBit(a, b, c);
      }
    }
    And(a, b)
  }

  /** A nonzero word has a lowest digit, and x & (x - 1) clears exactly that one. */
  lemma {:induction false} ClearLowest(x: nat) returns (b: nat)
    requires x != 0
    ensures Bit(x, b)
    ensures forall c: nat :: Bit(And(x, x - 1), c) <==> Bit(x, c) && c != b
    decreases x
  {
    if x % 2 == 1 {
      b := 0;
      forall c: nat ensures Bit(And(x, x - 1), c) <==> Bit(x, c) && c != 0 {
        AndBit(x, x - 1, c);
        if c > 0 {
          assert (x - 1) / 2 == x / 2;
        }
      }
    } else {
      var h := ClearLowest(x / 2);
      b := h + 1;
      assert (x - 1) / 2 == x / 2 - 1;
      forall c: nat ensures Bit(And(x, x - 1), c) <==> Bit(x, c) && c != b {
        AndBit(x, x - 1, c);
        if c > 0 {
          AndBit(x / 2, x / 2 - 1, c - 1);
        }
      }
    }
  }

  method PopCount(w: Word) returns (cnt: nat)
    ensures cnt == |Bits(w)|
  {
    var x: Word := w;
    cnt := 0;
    while x != 0
      invariant cnt + |Bits(x)| == |Bits(w)|
      decreases |Bits(x)|
    {
      ghost var b := ClearLowest(x);
      DropBit(x, And(x, x - 1), b);
      x := And(x, x - 1);
      cnt := cnt + 1;
    }
    NoBits();
  }

  lemma NoBits()
    ensures Bits(0) == {}
  {
    forall c: nat ensures !Bit(0, c) {
      ZeroBit(c);
    }
  }

  lemma DropBit(w: Word, v: Word, b: nat)
    requires Bit(w, b)
    requires forall c: nat :: Bit(v, c) <==> Bit(w, c) && c != b
    ensures |Bits(v)| == |Bits(w)| - 1
  {
    Pow2Of63();
    if b >= 64 {
      HighBits(w, 64, b);
    }
    assert Bits(v) == Bits(w) - {b};
  }
}
