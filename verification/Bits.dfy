/** ECMAScript's 32-bit bitwise operators on the unsigned reading of the bit
    pattern, and the bit strings they move around. */
module Bits {

  const TWO_32: int := 0x1_0000_0000

  type uint32 = v: int | 0 <= v < TWO_32

  function Pow2(k: nat): (p: nat)
    ensures p > 0
  {
    if k == 0 then 1 else 2 * Pow2(k - 1)
  }

  /** `v << k`: the bits pushed past position 31 are lost. */
  function Shl(v: uint32, k: nat): uint32 {
    v * Pow2(k) % TWO_32
  }

  /** `v >>> k`: `k` zeros enter from the left. */
  function ShrU(v: uint32, k: nat): (r: uint32) {
    if k == 0 then v else ShrU(v / 2, k - 1)
  }

  lemma MulLe(a: int, b: int, p: nat)
    requires a <= b
    ensures a * p <= b * p
  {
    assert (b - a) * p == b * p - a * p;
  }

  /** `a | b`, bit by bit. */
  function Or(a: nat, b: nat): nat {
    if a == 0 && b == 0 then 0
    else 2 * Or(a / 2, b / 2) + (if a % 2 == 1 || b % 2 == 1 then 1 else 0)
  }

  /** `a & b`, bit by bit. */
  function And(a: nat, b: nat): nat {
    if a == 0 || b == 0 then 0
    else 2 * And(a / 2, b / 2) + (if a % 2 == 1 && b % 2 == 1 then 1 else 0)
  }

  /** The low `n` bits of `v`, most significant first. */
  function LowBits(v: nat, n: nat): (s: seq<bool>)
    ensures |s| == n
  {
    if n == 0 then [] else LowBits(v / 2, n - 1) + [v % 2 == 1]
  }

  /** The number a bit string denotes, most significant bit first. */
  function Value(s: seq<bool>): nat {
    if s == [] then 0 else 2 * Value(s[..|s| - 1]) + (if s[|s| - 1] then 1 else 0)
  }

  lemma PowStep(k: nat)
    requires k > 0
    ensures Pow2(k) == 2 * Pow2(k - 1)
  {
  }

  lemma MulAssociates(a: int, b: int, c: int)
    ensures a * (b * c) == a * b * c
  {
  }

  lemma Doubled(h: int, k: nat)
    requires k > 0
    ensures h * Pow2(k) == 2 * (h * Pow2(k - 1))
  {
  }

  lemma {:induction false} OrZero(a: nat)
    ensures Or(a, 0) == a && Or(0, a) == a
  {
    if a > 0 {
      OrZero(a / 2);
    }
  }

  /** An `|` whose operands share no set bit is a sum. */
  lemma {:induction false} OrDisjoint(hi: nat, lo: nat, k: nat)
    requires lo < Pow2(k)
    ensures Or(hi * Pow2(k), lo) == hi * Pow2(k) + lo
  {
    if k == 0 {
      OrZero(hi);
    } else if hi * Pow2(k) != 0 || lo != 0 {
      var a := hi * Pow2(k - 1);
      Doubled(hi, k);
      OrDisjoint(hi, lo / 2, k - 1);
      assert (2 * a) / 2 == a && (2 * a) % 2 == 0;
    }
  }

  lemma {:induction false} AndMask(a: nat, k: nat)
    ensures And(a, Pow2(k) - 1) == a % Pow2(k)
  {
    if k > 0 && a > 0 {
      AndMask(a / 2, k - 1);
      ModHalf(a, k);
      assert (Pow2(k) - 1) / 2 == Pow2(k - 1) - 1;
    } else if a == 0 {
      assert 0 % Pow2(k) == 0;
    }
  }

  lemma ModHalf(a: nat, k: nat)
    requires k > 0
    ensures a % Pow2(k) == 2 * (a / 2 % Pow2(k - 1)) + a % 2
  {
    var p := Pow2(k - 1);
    var q, r := a / 2 / p, a / 2 % p;
    assert a / 2 == q * p + r;
    assert a == 2 * (q * p + r) + a % 2;
    assert 2 * (q * p) == q * (2 * p);
    DivModUnique(a, 2 * p, q, 2 * r + a % 2);
  }

  lemma DivModUnique(a: int, d: int, q: int, r: int)
    requires d > 0 && a == q * d + r && 0 <= r < d
    ensures a / d == q && a % d == r
  {
    var q', r' := a / d, a % d;
    assert (q - q') * d == q * d - q' * d == r' - r;
    Between(q - q', d);
  }

  /** A multiple of `d` strictly between `-d` and `d` is zero. */
  lemma Between(x: int, d: int)
    requires d > 0 && -d < x * d < d
    ensures x == 0
  {
    if x >= 1 {
      MulLe(1, x, d);
    } else if x <= -1 {
      MulLe(x, -1, d);
    }
  }

  /** Shifting in the low bits of `lo` appends them. */
  lemma {:induction false} LowBitsAppend(hi: nat, lo: nat, n: nat, k: nat)
    requires lo < Pow2(k)
    ensures LowBits(hi * Pow2(k) + lo, n + k) == LowBits(hi, n) + LowBits(lo, k)
  {
    if k > 0 {
      var a := hi * Pow2(k - 1);
      var v := hi * Pow2(k) + lo;
      PowStep(k);
      Doubled(hi, k);
      hide Pow2;
      assert v / 2 == a + lo / 2 && v % 2 == lo % 2;
      LowBitsAppend(hi, lo / 2, n, k - 1);
    } else {
      assert LowBits(lo, 0) == [];
    }
  }

  /** Bits above the window do not matter. */
  lemma {:induction false} LowBitsMod(v: nat, n: nat, m: nat)
    requires n <= m
    ensures LowBits(v % Pow2(m), n) == LowBits(v, n)
  {
    if n > 0 {
      ModHalf(v, m);
      LowBitsMod(v / 2, n - 1, m - 1);
    }
  }

  /** Shifting right keeps the leading bits of the window. */
  lemma {:induction false} LowBitsShift(v: uint32, n: nat, k: nat)
    ensures LowBits(ShrU(v, k), n) == LowBits(v, n + k)[..n]
  {
    if k > 0 {
      LowBitsShift(v / 2, n, k - 1);
      assert LowBits(v, n + k) == LowBits(v / 2, n + k - 1) + [v % 2 == 1];
    }
  }

  lemma {:induction false} LowBitsDrop(v: nat, n: nat, k: nat)
    ensures LowBits(v, n + k)[n..] == LowBits(v, k)
  {
    if k > 0 {
      LowBitsDrop(v / 2, n, k - 1);
    }
  }

  lemma {:induction false} ValueOfLowBits(v: nat, n: nat)
    ensures Value(LowBits(v, n)) == v % Pow2(n)
  {
    if n > 0 {
      ValueOfLowBits(v / 2, n - 1);
      ModHalf(v, n);
      assert LowBits(v, n)[..n - 1] == LowBits(v / 2, n - 1);
    }
  }

  lemma {:induction false} LowBitsOfValue(s: seq<bool>)
    ensures LowBits(Value(s), |s|) == s
    ensures Value(s) < Pow2(|s|)
  {
    if s != [] {
      LowBitsOfValue(s[..|s| - 1]);
      assert Value(s) / 2 == Value(s[..|s| - 1]);
      assert s == s[..|s| - 1] + [s[|s| - 1]];
    }
  }

  /** What one accumulator step `(value << k) | x` does to the pending bits:
      they stay, and those of `x` follow, however often the 32-bit word has
      already overflowed. */
  lemma ShiftIn(v: uint32, x: nat, n: nat, k: nat)
    requires k <= 32 && x < Pow2(k) && n + k <= 32
    ensures Or(Shl(v, k), x) < TWO_32
    ensures LowBits(Or(Shl(v, k), x), n + k) == LowBits(v, n) + LowBits(x, k)
  {
    ShlIsMultiple(v, k);
    var hi := Shl(v, k) / Pow2(k);
    OrDisjoint(hi, x, k);
    var p := v * Pow2(k);
    assert Pow2(32) == TWO_32 by { PowValues(); }
    LowBitsAppend(v, x, n, k);
    LowBitsAppend(hi, x, n, k);
    LowBitsMod(v, n, 32 - k);
    assert LowBits(hi, n) == LowBits(v, n);
    FitsBelow(hi, x, k);
  }

  lemma PowValues()
    ensures Pow2(3) == 8 && Pow2(5) == 32 && Pow2(8) == 256
    ensures Pow2(16) == 0x1_0000 && Pow2(24) == 0x100_0000 && Pow2(32) == TWO_32
  {
    assert Pow2(8) == 256;
    assert Pow2(16) == 0x1_0000;
  }

  lemma {:induction false} PowAdd(a: nat, b: nat)
    ensures Pow2(a + b) == Pow2(a) * Pow2(b)
  {
    if a == 0 {
      assert Pow2(0) == 1;
    } else {
      hide Pow2;
      calc {
        Pow2(a + b);
      ==  { PowStep(a + b); }
        2 * Pow2(a - 1 + b);
      ==  { PowAdd(a - 1, b); }
        2 * (Pow2(a - 1) * Pow2(b));
      ==  { MulAssociates(2, Pow2(a - 1), Pow2(b)); }
        2 * Pow2(a - 1) * Pow2(b);
      ==  { PowStep(a); }
        Pow2(a) * Pow2(b);
      }
    }
  }

  /** `v << k` keeps the low `32 - k` bits of `v`, moved up by `k`. */
  lemma ShlIsMultiple(v: uint32, k: nat)
    requires k <= 32
    ensures Shl(v, k) / Pow2(k) == v % Pow2(32 - k)
    ensures Shl(v, k) == v % Pow2(32 - k) * Pow2(k)
  {
    assert Pow2(32 - k) * Pow2(k) == TWO_32 by {
      PowAdd(32 - k, k);
      PowValues();
    }
    ModMul(v, Pow2(32 - k), Pow2(k));
  }

  lemma ModMul(v: nat, m: nat, p: nat)
    requires m > 0 && p > 0 && m * p > 0
    ensures v * p % (m * p) == v % m * p
    ensures v * p % (m * p) / p == v % m
  {
    var q, r := v / m, v % m;
    assert v * p == q * (m * p) + r * p by {
      assert v == q * m + r;
      Distribute(q, m, r, p);
    }
    MulLe(r + 1, m, p);
    MulLe(0, r, p);
    assert (r + 1) * p == r * p + p;
    DivModUnique(v * p, m * p, q, r * p);
    DivModUnique(r * p, p, r, 0);
  }

  lemma Distribute(q: int, m: int, r: int, p: int)
    ensures (q * m + r) * p == q * (m * p) + r * p
  {
  }

  lemma FitsBelow(hi: nat, x: nat, k: nat)
    requires k <= 32 && hi < Pow2(32 - k) && x < Pow2(k)
    ensures hi * Pow2(k) + x < TWO_32
  {
    PowAdd(32 - k, k);
    PowValues();
    MulLe(hi + 1, Pow2(32 - k), Pow2(k));
    assert (hi + 1) * Pow2(k) == hi * Pow2(k) + Pow2(k);
  }
}
