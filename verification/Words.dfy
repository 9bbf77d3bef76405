/** 64-bit machine words as bounded integers.  Shifts and masks are written as division and
    remainder by powers of two; bitwise OR is the one operator that needs a definition of its own. */
module Words {
  const TWO32: int := 0x1_0000_0000
  const TWO64: int := 0x1_0000_0000_0000_0000

  type u16 = x: int | 0 <= x < 0x1_0000
  type u32 = x: int | 0 <= x < 0x1_0000_0000
  type u64 = x: int | 0 <= x < 0x1_0000_0000_0000_0000

  lemma OneMoreTime(n: int, x: int)
    ensures (n + 1) * x == n * x + x
  {
  }

  lemma {:induction false} StepBeyond(a: nat, d: nat, s: nat)
    requires d > a
    ensures d * s >= a * s + s
    decreases d
  {
    OneMoreTime(d - 1, s);
    if d - 1 > a {
      StepBeyond(a, d - 1, s);
    }
  }

  /** Division takes a product with a rest below the divisor apart again. */
  lemma Quotient(q: nat, r: nat, s: nat)
    requires r < s
    ensures (q * s + r) / s == q && (q * s + r) % s == r
  {
    var d := (q * s + r) / s;
    assert q * s + r == d * s + (q * s + r) % s;
    if d > q {
      StepBeyond(q, d, s);
    } else if d < q {
      StepBeyond(d, q, s);
    }
  }

  lemma Multiple(k: nat, s: nat)
    requires s > 0
    ensures (k * s) % s == 0
  {
    Quotient(k, 0, s);
  }

  /** Bitwise OR of two naturals, least significant bit first. */
  function BitOr(a: nat, b: nat): (r: nat)
    decreases a + b
  {
    if a == 0 then b
    else if b == 0 then a
    else 2 * BitOr(a / 2, b / 2) + (if a % 2 == 1 || b % 2 == 1 then 1 else 0)
  }

  /** x shifted left by k bits. */
  function Shl(x: nat, k: nat): (r: nat)
  {
    if k == 0 then x else 2 * Shl(x, k - 1)
  }

  lemma {:induction false} BitOrStep(a: nat, b: nat)
    ensures BitOr(a, b) == 2 * BitOr(a / 2, b / 2) + (if a % 2 == 1 || b % 2 == 1 then 1 else 0)
  {
    if a == 0 || b == 0 {
      assert BitOr(0, a / 2) == BitOr(a / 2, 0) == a / 2;
      assert BitOr(0, b / 2) == BitOr(b / 2, 0) == b / 2;
    }
  }

  /** Doubling step: what OR does to the halves decides what it does to the whole. */
  lemma BitOrDouble(a: nat, al: nat, b: nat, bl: nat, o: nat)
    requires BitOr(a + al / 2, b + bl / 2) == o + BitOr(al / 2, bl / 2)
    ensures BitOr(2 * a + al, 2 * b + bl) == 2 * o + BitOr(al, bl)
  {
    BitOrStep(al, bl);
    BitOrStep(2 * a + al, 2 * b + bl);
  }

  /** OR acts on the k low bits and on the bits above them independently, and the low part
      stays within its k bits. */
  lemma {:induction false} BitOrSplit(ah: nat, al: nat, bh: nat, bl: nat, k: nat)
    requires al < Shl(1, k) && bl < Shl(1, k)
    ensures BitOr(al, bl) < Shl(1, k)
    ensures BitOr(Shl(ah, k) + al, Shl(bh, k) + bl) == Shl(BitOr(ah, bh), k) + BitOr(al, bl)
    decreases k
  {
    if k == 0 {
      assert BitOr(0, 0) == 0;
    } else {
      BitOrSplit(ah, al / 2, bh, bl / 2, k - 1);
      BitOrStep(al, bl);
      BitOrDouble(Shl(ah, k - 1), al, Shl(bh, k - 1), bl, Shl(BitOr(ah, bh), k - 1));
    }
  }

  lemma {:induction false} BitOrSelf(b: nat)
    ensures BitOr(b, b) == b
    decreases b
  {
    if b != 0 {
      BitOrSelf(b / 2);
    }
  }

  /** OR is absorbing: setting the same bits twice changes nothing more. */
  lemma {:induction false} BitOrAbsorb(a: nat, b: nat)
    ensures BitOr(BitOr(a, b), b) == BitOr(a, b)
    decreases a + b
  {
    if a == 0 {
      BitOrSelf(b);
    } else if b != 0 {
      var x, half := BitOr(a, b), BitOr(a / 2, b / 2);
      BitOrAbsorb(a / 2, b / 2);
      BitOrStep(a, b);
      BitOrStep(x, b);
      hide BitOr;
      assert x / 2 == half;
    }
  }

  lemma {:induction false} BitOrAssoc(a: nat, b: nat, c: nat)
    ensures BitOr(BitOr(a, b), c) == BitOr(a, BitOr(b, c))
    decreases a + b + c
  {
    if a != 0 && b != 0 && c != 0 {
      BitOrAssoc(a / 2, b / 2, c / 2);
      BitOrStep(a, b);
      BitOrStep(b, c);
      BitOrStep(BitOr(a, b), c);
      BitOrStep(a, BitOr(b, c));
      BitOrHalf(a, b);
      BitOrHalf(b, c);
      hide BitOr;
    }
  }

  /** One step of OR, taken apart again. */
  lemma BitOrHalf(a: nat, b: nat)
    ensures BitOr(a, b) / 2 == BitOr(a / 2, b / 2)
    ensures BitOr(a, b) % 2 == 1 <==> a % 2 == 1 || b % 2 == 1
  {
    BitOrStep(a, b);
  }

  lemma ShlByTwelve(x: nat, k: nat)
    ensures Shl(x, k + 12) == 0x1000 * Shl(x, k)
  {
    assert Shl(x, k + 2) == 4 * Shl(x, k);
    assert Shl(x, k + 4) == 4 * Shl(x, k + 2);
    assert Shl(x, k + 6) == 4 * Shl(x, k + 4);
    assert Shl(x, k + 8) == 4 * Shl(x, k + 6);
    assert Shl(x, k + 10) == 4 * Shl(x, k + 8);
  }

  lemma ShlValue(x: nat)
    ensures Shl(x, 12) == x * 0x1000 && Shl(x, 36) == x * 0x10_0000_0000
    ensures Shl(x, 64) == x * TWO64
  {
    ShlByTwelve(x, 0);
    ShlByTwelve(x, 12);
    ShlByTwelve(x, 24);
    ShlByTwelve(x, 36);
    ShlByTwelve(x, 48);
    assert Shl(x, 62) == 4 * Shl(x, 60);
  }

  /** OR of two 64-bit words is a 64-bit word. */
  lemma BitOrFits(a: u64, b: u64)
    ensures BitOr(a, b) < TWO64
  {
    ShlValue(1);
    BitOrSplit(0, a, 0, b, 64);
  }
}
