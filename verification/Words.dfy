/** Machine words as integers: octets, powers of two, the bitwise operators of C,
    and the conversions and promotions that C applies around them. */
module Words {

  type octet = x: int | 0 <= x < 256

  const TWO32: nat := 0x1_0000_0000
  const TWO64: nat := 0x1_0000_0000_0000_0000

  function Pow2(n: nat): (p: nat)
    ensures p >= 1
  {
    if n == 0 then 1 else 2 * Pow2(n - 1)
  }

  lemma {:induction false} Pow2Add(m: nat, n: nat)
    ensures Pow2(m + n) == Pow2(m) * Pow2(n)
  {
    if m != 0 {
      Pow2Add(m - 1, n);
      assert Pow2(m + n) == 2 * (Pow2(m - 1) * Pow2(n));
    }
  }

  lemma Pow2Values()
    ensures Pow2(1) == 2 && Pow2(2) == 4 && Pow2(3) == 8 && Pow2(4) == 16
    ensures Pow2(5) == 32 && Pow2(6) == 64 && Pow2(7) == 128 && Pow2(8) == 256
    ensures Pow2(12) == 0x1000 && Pow2(16) == 0x1_0000 && Pow2(20) == 0x10_0000 && Pow2(24) == 0x100_0000
    ensures Pow2(32) == TWO32 && Pow2(64) == TWO64
  {
    Pow2Add(32, 32);
  }

  // ---------- bitwise operators ----------

  datatype Op = And | Or | Xor {
    // One bit of the operator's result.
    function Bit(a: nat, b: nat): (r: nat)
      ensures r < 2
    {
      var x, y := a % 2 == 1, b % 2 == 1;
      match this
      case And => if x && y then 1 else 0
      case Or => if x || y then 1 else 0
      case Xor => if x != y then 1 else 0
    }
  }

  // The operator applied bit by bit, from the least significant bit up.
  function Bitop(op: Op, a: nat, b: nat): nat
    decreases a + b
  {
    if a == 0 && b == 0 then 0 else op.Bit(a, b) + 2 * Bitop(op, a / 2, b / 2)
  }

  lemma DivPow2Step(a: nat, k: nat)
    requires k > 0
    ensures a / Pow2(k) == (a / 2) / Pow2(k - 1)
    ensures a % Pow2(k) == a % 2 + 2 * ((a / 2) % Pow2(k - 1))
  {
    var p := Pow2(k - 1);
    var q, r := (a / 2) / p, (a / 2) % p;
    assert a == 2 * (p * q + r) + a % 2;
    assert a == (2 * p) * q + (2 * r + a % 2);
    DivModUnique(a, 2 * p, q, 2 * r + a % 2);
  }

  lemma MulAtLeast(d: nat, e: int)
    requires e >= 1
    ensures d * e >= d
  {
  }

  lemma DivModUnique(a: int, d: int, q: int, r: int)
    requires 0 <= r < d && a == d * q + r
    ensures a / d == q && a % d == r
  {
    var q', r' := a / d, a % d;
    var e := q' - q;
    assert d * e == r - r' by {
      assert a == d * q' + r';
      assert d * e == d * q' - d * q;
    }
    if e >= 1 {
      MulAtLeast(d, e);
    }
  }

  lemma BitopStep(op: Op, a: nat, b: nat)
    ensures Bitop(op, a, b) == op.Bit(a, b) + 2 * Bitop(op, a / 2, b / 2)
  {
  }

  // The operator acts on the high and the low part of a word independently, at any cut.
  lemma {:induction false} BitopSplit(op: Op, ha: nat, la: nat, hb: nat, lb: nat, k: nat)
    requires la < Pow2(k) && lb < Pow2(k)
    ensures Bitop(op, ha * Pow2(k) + la, hb * Pow2(k) + lb) == Bitop(op, ha, hb) * Pow2(k) + Bitop(op, la, lb)
  {
    if k == 0 {
      assert la == 0 && lb == 0;
      assert ha * Pow2(k) + la == ha && hb * Pow2(k) + lb == hb;
    } else {
      var p := Pow2(k - 1);
      BitopSplit(op, ha, la / 2, hb, lb / 2, k - 1);
      Halves(ha, la, p);
      Halves(hb, lb, p);
      var hi := Bitop(op, ha, hb);
      SplitStep(op, Times(ha, 2 * p) + la, Times(hb, 2 * p) + lb, la, lb, Times(hi, p));
      Regroup(p, hi);
    }
  }

  // One bit of the split: a and la, and b and lb, agree in their lowest bit.
  lemma SplitStep(op: Op, a: nat, b: nat, la: nat, lb: nat, hi: nat)
    requires a % 2 == la % 2 && b % 2 == lb % 2
    requires Bitop(op, a / 2, b / 2) == hi + Bitop(op, la / 2, lb / 2)
    ensures Bitop(op, a, b) == 2 * hi + Bitop(op, la, lb)
  {
    BitopStep(op, a, b);
    BitopStep(op, la, lb);
  }

  lemma QuotientBounds(x: nat, p: nat)
    requires p > 0
    ensures 0 <= x / p <= x
  {
    var q := x / p;
    assert x == p * q + x % p;
    if q < 0 {
      MulAtLeast(p, -q);
    } else if q > 0 {
      MulAtLeast(q, p);
    }
  }

  // A product of naturals, known to be natural without looking inside the product.
  function Times(x: nat, y: nat): (r: nat)
    ensures r == x * y
  {
    MulNat(x, y);
    x * y
  }

  lemma MulNat(x: nat, y: nat)
    ensures x * y >= 0
  {
  }

  lemma Halves(h: nat, l: nat, p: nat)
    ensures (h * (2 * p) + l) / 2 == h * p + l / 2
    ensures (h * (2 * p) + l) % 2 == l % 2
  {
    Regroup(p, h);
  }

  lemma Regroup(p: nat, h: nat)
    ensures h * (2 * p) == 2 * (h * p)
  {
  }

  // The operators never set a bit that neither operand has room for.
  lemma {:induction false} BitopBound(op: Op, a: nat, b: nat, k: nat)
    requires a < Pow2(k) && b < Pow2(k)
    ensures Bitop(op, a, b) < Pow2(k)
  {
    if k != 0 {
      BitopBound(op, a / 2, b / 2, k - 1);
    }
  }

  lemma {:induction false} OrZero(a: nat)
    ensures Bitop(Or, a, 0) == a && Bitop(Or, 0, a) == a
  {
    if a != 0 {
      OrZero(a / 2);
    }
  }

  // Joining a shifted field with a field below it is addition.
  lemma OrDisjoint(hi: nat, lo: nat, k: nat)
    requires lo < Pow2(k)
    ensures Bitop(Or, hi * Pow2(k), lo) == hi * Pow2(k) + lo
  {
    hide Bitop;
    OrZero(hi);
    OrZero(lo);
    BitopSplit(Or, hi, 0, 0, lo, k);
    assert 0 * Pow2(k) + lo == lo;
  }

  lemma {:induction false} OrAllOnes(a: nat, k: nat)
    requires a < Pow2(k)
    ensures Bitop(Or, a, Pow2(k) - 1) == Pow2(k) - 1
  {
    if k != 0 {
      OrAllOnes(a / 2, k - 1);
      assert (Pow2(k) - 1) / 2 == Pow2(k - 1) - 1;
      BitopStep(Or, a, Pow2(k) - 1);
    }
  }

  lemma {:induction false} AndZero(a: nat)
    ensures Bitop(And, a, 0) == 0
  {
    if a != 0 {
      AndZero(a / 2);
    }
  }

  lemma {:induction false} AndLowMask(a: nat, k: nat)
    ensures Bitop(And, a, Pow2(k) - 1) == a % Pow2(k)
  {
    if k == 0 {
      AndZero(a);
    } else {
      DivPow2Step(a, k);
      AndLowMask(a / 2, k - 1);
      assert (Pow2(k) - 1) / 2 == Pow2(k - 1) - 1;
      BitopStep(And, a, Pow2(k) - 1);
    }
  }

  lemma {:induction false} XorCancels(a: nat, b: nat)
    ensures Bitop(Xor, Bitop(Xor, a, b), b) == a
    decreases a + b
  {
    if a != 0 || b != 0 {
      XorCancels(a / 2, b / 2);
      var x := Bitop(Xor, a, b);
      BitopStep(Xor, a, b);
      assert x / 2 == Bitop(Xor, a / 2, b / 2) && x % 2 == Xor.Bit(a, b);
      BitopStep(Xor, x, b);
    }
  }

  lemma {:induction false} XorZero(a: nat)
    ensures Bitop(Xor, a, 0) == a
  {
    if a != 0 {
      XorZero(a / 2);
    }
  }

  lemma {:induction false} XorCommutes(a: nat, b: nat)
    ensures Bitop(Xor, a, b) == Bitop(Xor, b, a)
    decreases a + b
  {
    if a != 0 || b != 0 {
      XorCommutes(a / 2, b / 2);
    }
  }

  // ---------- C integer conversions and promoted operators ----------

  function ToU8(x: int): octet { x % 256 }

  function ToU16(x: int): (r: nat) ensures r < 0x1_0000 { x % 0x1_0000 }

  function ToU32(x: int): (r: nat) ensures r < TWO32 { x % TWO32 }

  function ToU64(x: int): (r: nat) ensures r < TWO64 { x % TWO64 }

  // Two's complement wrap to a signed 32-bit int.
  function ToI32(x: int): int { if ToU32(x) < 0x8000_0000 then ToU32(x) else ToU32(x) - TWO32 }

  // `x >> k` on a value that is not negative.
  function Shr(x: nat, k: nat): (r: nat)
    ensures r <= x
  {
    QuotientBounds(x, Pow2(k));
    x / Pow2(k)
  }

  // The octet that is stored when x, shifted left by k, is assigned to a uint8_t.
  function ShiftedOctet(x: nat, k: nat): octet { ToU8(x * Pow2(k)) }

  // `x << k` where x has been promoted to int.
  function ShlInt(x: int, k: nat): int { ToI32(x * Pow2(k)) }

  // `x << k` where x is a uint64_t.
  function ShlU64(x: nat, k: nat): nat { ToU64(x * Pow2(k)) }

  // `x | y` with both operands promoted to int.
  function OrInt(x: int, y: int): int { ToI32(Bitop(Or, ToU32(x), ToU32(y))) }

  // `x | y` where one operand is a uint64_t: a negative int operand is sign extended.
  function OrU64(x: int, y: int): nat { Bitop(Or, ToU64(x), ToU64(y)) }

  lemma SmallWord(x: nat)
    ensures x < TWO64 ==> ToU64(x) == x
    ensures x < TWO32 ==> ToU32(x) == x
    ensures x < 0x1_0000 ==> ToU16(x) == x
  {
  }

  // Narrowing twice is narrowing once.
  lemma ModOfMod(x: int, m: nat, k: nat)
    requires m > 0 && k > 0
    ensures (x % (m * k)) % m == x % m
  {
    var n := m * k;
    var q, r := x / n, x % n;
    assert x == n * q + r;
    assert r == m * (r / m) + r % m;
    assert n * q == m * (k * q);
    DivModUnique(x, m, k * q + r / m, r % m);
  }

  lemma NarrowingToOctet(x: int)
    ensures ToU8(ToI32(x)) == ToU8(x) == ToU8(ToU64(x))
  {
    ModOfMod(x, 256, 0x100_0000);
    ModOfMod(x, 256, 0x100_0000_0000_0000);
    ModShift(ToU32(x), 0x100_0000);
  }

  // Whatever the width of the shift, the low octet of the result is the same.
  lemma ShiftThenNarrow(x: nat, k: nat)
    ensures ToU8(ShlInt(x, k)) == ShiftedOctet(x, k) == ToU8(ShlU64(x, k))
  {
    NarrowingToOctet(x * Pow2(k));
  }

  lemma ModShift(r: int, k: nat)
    ensures (r - 256 * k) % 256 == r % 256
  {
    DivModUnique(r - 256 * k, 256, r / 256 - k, r % 256);
  }
}
