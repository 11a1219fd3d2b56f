/** Natural numbers as bit strings: powers of two, shifts, truncation to a width, and
    bitwise and/or, all defined one bit at a time so that reasoning about them goes by
    induction on the number of bits. */
module Bits {

  function Pow2(n: nat): (r: nat)
    ensures r >= 1
  {
    if n == 0 then 1 else 2 * Pow2(n - 1)
  }

  /** x shifted left by s bits: x * 2^s. */
  function ShiftLeft(x: nat, s: nat): nat {
    if s == 0 then x else 2 * ShiftLeft(x, s - 1)
  }

  /** x shifted right by s bits, the low bits dropped: x / 2^s. */
  function ShiftRight(x: nat, s: nat): nat {
    if s == 0 then x else ShiftRight(x / 2, s - 1)
  }

  /** The w low bits of x: x mod 2^w. */
  function Truncate(x: nat, w: nat): nat {
    if w == 0 then 0 else 2 * Truncate(x / 2, w - 1) + x % 2
  }

  /** Bitwise and. */
  function And(x: nat, y: nat): nat {
    if x == 0 || y == 0 then 0
    else 2 * And(x / 2, y / 2) + (if x % 2 == 1 && y % 2 == 1 then 1 else 0)
  }

  /** Bitwise or. */
  function Or(x: nat, y: nat): nat {
    if x == 0 then y
    else if y == 0 then x
    else 2 * Or(x / 2, y / 2) + (if x % 2 == 1 || y % 2 == 1 then 1 else 0)
  }

  /** n < 2^n: a width always fits in a value of that width. */
  lemma {:induction false} LessThanPow2(n: nat)
    ensures n < Pow2(n)
    decreases n
  {
    if n > 1 {
      LessThanPow2(n - 1);
    }
  }

  /** The widths in the funnel-shift lowering, as powers of two. */
  lemma WidthPowers()
    ensures Pow2(3) == 8 && Pow2(4) == 16 && Pow2(5) == 32 && Pow2(6) == 64
  {
    assert Pow2(1) == 2;
    assert Pow2(2) == 4;
    assert Pow2(3) == 8;
    assert Pow2(4) == 16;
    assert Pow2(5) == 32;
  }

  /** A truncated value fits in its width. */
  lemma {:induction false} TruncateBound(x: nat, w: nat)
    ensures Truncate(x, w) < Pow2(w)
    decreases w
  {
    if w > 0 {
      TruncateBound(x / 2, w - 1);
    }
  }

  /** Truncation keeps a value that already fits. */
  lemma {:induction false} TruncateSmall(x: nat, w: nat)
    requires x < Pow2(w)
    ensures Truncate(x, w) == x
    decreases w
  {
    if w > 0 {
      TruncateSmall(x / 2, w - 1);
    }
  }

  /** Adding 2^w does not change the w low bits. */
  lemma {:induction false} TruncateAddPow2(x: nat, w: nat)
    ensures Truncate(Pow2(w) + x, w) == Truncate(x, w)
    decreases w
  {
    if w > 0 {
      assert (Pow2(w) + x) / 2 == Pow2(w - 1) + x / 2;
      assert (Pow2(w) + x) % 2 == x % 2;
      TruncateAddPow2(x / 2, w - 1);
    }
  }

  /** Masking with 2^k - 1 keeps the k low bits. */
  lemma {:induction false} AndLowMask(x: nat, k: nat)
    ensures And(x, Pow2(k) - 1) == Truncate(x, k)
    decreases k
  {
    if k > 0 {
      if x == 0 {
        ZeroTruncate(k);
      } else {
        var m := Pow2(k) - 1;
        assert m / 2 == Pow2(k - 1) - 1 && m % 2 == 1;
        AndLowMask(x / 2, k - 1);
      }
    }
  }

  lemma {:induction false} ZeroTruncate(w: nat)
    ensures Truncate(0, w) == 0
    decreases w
  {
    if w > 0 {
      ZeroTruncate(w - 1);
    }
  }

  /** Shifting left distributes over a sum. */
  lemma {:induction false} ShiftLeftAdd(x: nat, y: nat, s: nat)
    ensures ShiftLeft(x + y, s) == ShiftLeft(x, s) + ShiftLeft(y, s)
    decreases s
  {
    if s > 0 {
      ShiftLeftAdd(x, y, s - 1);
    }
  }

  /** Two left shifts are one by the sum of the amounts. */
  lemma {:induction false} ShiftLeftTwice(x: nat, a: nat, b: nat)
    ensures ShiftLeft(ShiftLeft(x, a), b) == ShiftLeft(x, a + b)
    decreases b
  {
    if b > 0 {
      ShiftLeftTwice(x, a, b - 1);
    }
  }

  /** Two right shifts are one by the sum of the amounts. */
  lemma {:induction false} ShiftRightTwice(x: nat, a: nat, b: nat)
    ensures ShiftRight(ShiftRight(x, a), b) == ShiftRight(x, a + b)
    decreases a
  {
    if a > 0 {
      ShiftRightTwice(x / 2, a - 1, b);
    }
  }

  /** Shifting (a << w) + b right by w leaves a plus the high bits of b. */
  lemma {:induction false} ShiftRightOverShiftLeft(a: nat, b: nat, w: nat)
    ensures ShiftRight(ShiftLeft(a, w) + b, w) == a + ShiftRight(b, w)
    decreases w
  {
    if w > 0 {
      assert (ShiftLeft(a, w) + b) / 2 == ShiftLeft(a, w - 1) + b / 2;
      ShiftRightOverShiftLeft(a, b / 2, w - 1);
    }
  }

  /** A value below 2^(m+k) shifted right by k is below 2^m. */
  lemma {:induction false} ShiftRightBound(x: nat, k: nat, m: nat)
    requires x < Pow2(m + k)
    ensures ShiftRight(x, k) < Pow2(m)
    decreases k
  {
    if k > 0 {
      ShiftRightBound(x / 2, k - 1, m);
    }
  }

  /** Shifting x left by s and right by w (s <= w) is shifting it right by w - s. */
  lemma ShiftLeftThenRight(x: nat, s: nat, w: nat)
    requires s <= w
    ensures ShiftRight(ShiftLeft(x, s), w) == ShiftRight(x, w - s)
  {
    ShiftRightTwice(ShiftLeft(x, s), s, w - s);
    ShiftRightOverShiftLeft(x, 0, s);
  }

  /** The w low bits of (a << s) + b, for b below 2^s and s <= w: the w - s low bits of a,
      shifted up, next to b. */
  lemma {:induction false} TruncateShifted(a: nat, b: nat, s: nat, w: nat)
    requires s <= w && b < Pow2(s)
    ensures Truncate(ShiftLeft(a, s) + b, w) == ShiftLeft(Truncate(a, w - s), s) + b
    decreases s
  {
    if s > 0 {
      var x := ShiftLeft(a, s) + b;
      assert x / 2 == ShiftLeft(a, s - 1) + b / 2;
      assert x % 2 == b % 2;
      TruncateShifted(a, b / 2, s - 1, w - 1);
    }
  }

  /** Or of a value below 2^s with a multiple of 2^s is their sum: the bits do not overlap. */
  lemma {:induction false} OrDisjoint(lo: nat, hi: nat, s: nat)
    requires lo < Pow2(s)
    ensures Or(lo, ShiftLeft(hi, s)) == ShiftLeft(hi, s) + lo
    decreases s
  {
    if s > 0 && lo != 0 && ShiftLeft(hi, s) != 0 {
      var y := ShiftLeft(hi, s);
      assert y / 2 == ShiftLeft(hi, s - 1) && y % 2 == 0;
      OrDisjoint(lo / 2, hi, s - 1);
    }
  }

  lemma {:induction false} AndBound(x: nat, y: nat)
    ensures And(x, y) <= x
    decreases x
  {
    if x != 0 && y != 0 {
      AndBound(x / 2, y / 2);
    }
  }

  lemma {:induction false} OrBound(x: nat, y: nat, k: nat)
    ensures x < Pow2(k) && y < Pow2(k) ==> Or(x, y) < Pow2(k)
    decreases k
  {
    if k > 0 && x != 0 && y != 0 {
      OrBound(x / 2, y / 2, k - 1);
    }
  }

  lemma {:induction false} ShiftRightAtMost(x: nat, s: nat)
    ensures ShiftRight(x, s) <= x
    decreases s
  {
    if s > 0 {
      ShiftRightAtMost(x / 2, s - 1);
    }
  }

  /** Truncation is the remainder modulo 2^w. */
  lemma {:induction false} TruncateIsMod(x: nat, w: nat)
    ensures Truncate(x, w) == x % Pow2(w)
    decreases w
  {
    if w > 0 {
      TruncateIsMod(x / 2, w - 1);
      ModDouble(x, Pow2(w - 1));
    }
  }

  /** x mod 2P in terms of x/2 mod P and the lowest bit. */
  lemma ModDouble(x: nat, p: nat)
    requires p > 0
    ensures x % (2 * p) == 2 * ((x / 2) % p) + x % 2
  {
    var h := x / 2;
    var q := h / p;
    var r := h % p;
    assert x == q * (2 * p) + (2 * r + x % 2);
    DivModUnique(x, 2 * p, q, 2 * r + x % 2);
  }

  /** Quotient and remainder are unique. */
  lemma DivModUnique(x: nat, d: nat, q: nat, r: nat)
    requires d > 0 && r < d && x == q * d + r
    ensures x / d == q && x % d == r
  {
    var q', r' := x / d, x % d;
    assert q' * d + r' == q * d + r;
    if q' > q {
      MulMonotone(q + 1, q', d);
    } else if q' < q {
      MulMonotone(q' + 1, q, d);
    }
  }

  lemma MulMonotone(a: nat, b: nat, d: nat)
    requires a <= b
    ensures a * d <= b * d
  {
  }
}
