/**
 * The part of JavaScript's Number semantics that the relay and the dashboard
 * rely on: the abstract operations ToUint32 and ToInt32 of ECMA-262, the
 * operators `&`, `>>>` and `| 0`, `n || 0`, and Math.round.
 *
 * A Number is modelled as NaN or a mathematical integer; fractional values and
 * integers beyond 2^53 do not arise in the modelled paths (see README).
 */
module JsNumber {

  datatype Number = NaN | Int(i: int)

  const TWO_31: int := 0x8000_0000
  const TWO_32: int := 0x1_0000_0000

  function Pow2(k: nat): (r: nat)
    ensures r >= 1
  {
    if k == 0 then 1 else 2 * Pow2(k - 1)
  }

  /** ToUint32: NaN becomes 0 and an integer is taken modulo 2^32. */
  function ToUint32(n: Number): (r: nat)
    ensures r < TWO_32
    ensures n.Int? ==> (n.i - r) % TWO_32 == 0
    ensures n.Int? && 0 <= n.i < TWO_32 ==> r == n.i
  {
    match n
    case NaN => 0
    case Int(i) => i % TWO_32
  }

  /** A 32-bit pattern read as a two's complement integer. */
  function Signed(u: nat): (r: int)
    requires u < TWO_32
    ensures -TWO_31 <= r < TWO_31
    ensures r % TWO_32 == u
    ensures r < 0 <==> u >= TWO_31
  {
    if u < TWO_31 then u else u - TWO_32
  }

  /** ToInt32: ToUint32 read as a signed 32-bit integer. */
  function ToInt32(n: Number): (r: int)
    ensures -TWO_31 <= r < TWO_31
    ensures r % TWO_32 == ToUint32(n)
  {
    Signed(ToUint32(n))
  }

  /** Bitwise AND of the binary representations of two naturals. */
  function And(a: nat, b: nat): (r: nat)
    ensures r <= a && r <= b
  {
    if a == 0 || b == 0 then 0
    else 2 * And(a / 2, b / 2) + (if a % 2 == 1 && b % 2 == 1 then 1 else 0)
  }

  /** The JavaScript expression `a & b`. */
  function BitAnd(a: Number, b: Number): int
  {
    Signed(And(ToUint32(a), ToUint32(b)))
  }

  /** The JavaScript expression `a >>> k` for a shift count below 32. */
  function UShr(a: Number, k: nat): int
    requires k < 32
  {
    ToUint32(a) / Pow2(k)
  }

  /** Truncation toward zero of a real number. */
  function Trunc(x: real): (r: int)
    ensures x >= 0.0 ==> r as real <= x < r as real + 1.0
    ensures x < 0.0 ==> r as real - 1.0 < x <= r as real
  {
    if x >= 0.0 then x.Floor else -((-x).Floor)
  }

  /** The JavaScript expression `x | 0` for a finite x: ToInt32 of x. */
  function BitOrZero(x: real): int
  {
    ToInt32(Int(Trunc(x)))
  }

  /** Math.round: the integer nearest to x, halves rounded up. */
  function Round(x: real): (r: int)
    ensures x - 0.5 < r as real <= x + 0.5
  {
    (x + 0.5).Floor
  }

  /** The JavaScript expression `n || 0`: NaN and 0 become 0. */
  function OrElseZero(n: Number): (r: Number)
    ensures r.Int?
    ensures ToUint32(r) == ToUint32(n)
    ensures n.Int? && n.i != 0 ==> r == n
  {
    if n == NaN || n == Int(0) then Int(0) else n
  }

  /** The bit mask of `width` ones starting at bit `lo`. */
  function Mask(lo: nat, width: nat): nat
  {
    (Pow2(width) - 1) * Pow2(lo)
  }

  lemma PowAdd(a: nat, b: nat)
    ensures Pow2(a + b) == Pow2(a) * Pow2(b)
  {
    if a > 0 {
      PowAdd(a - 1, b);
    }
  }

  /** The powers of two that the state layout uses. */
  lemma Pow2Table()
    ensures Pow2(0) == 1 && Pow2(1) == 2 && Pow2(3) == 8 && Pow2(4) == 0x10
    ensures Pow2(5) == 0x20 && Pow2(7) == 0x80 && Pow2(8) == 0x100
    ensures Pow2(15) == 0x8000 && Pow2(16) == 0x1_0000
    ensures Pow2(24) == 0x100_0000 && Pow2(31) == TWO_31
  {
    PowAdd(8, 7);
    PowAdd(8, 8);
    PowAdd(16, 8);
    PowAdd(24, 7);
  }

  /** Halving before dividing by p is dividing by 2p. */
  lemma DivHalf(u: nat, p: nat)
    requires p >= 1
    ensures (u / 2) / p == u / (2 * p)
  {
    var q, r := u / (2 * p), u % (2 * p);
    assert u == 2 * p * q + r && 0 <= r < 2 * p;
    assert u / 2 == p * q + r / 2 by {
      assert u == 2 * (p * q + r / 2) + r % 2;
    }
    assert 0 <= r / 2 < p;
    assert (p * q + r / 2) / p == q by {
      LinearDiv(p, q, r / 2);
    }
  }

  lemma LinearDiv(p: nat, q: nat, s: nat)
    requires 0 <= s < p
    ensures (p * q + s) / p == q && (p * q + s) % p == s
  {
    var x := p * q + s;
    var d, m := x / p, x % p;
    assert x == p * d + m && 0 <= m < p;
    assert p * (d - q) == s - m;
    if d > q {
      MulAtLeast(p, d - q);
    } else if d < q {
      MulAtLeast(p, q - d);
    }
  }

  /** Dividing by a and then by b is dividing by a * b. */
  lemma DivDiv(u: nat, a: nat, b: nat)
    requires a >= 1 && b >= 1
    ensures (u / a) / b == u / (a * b)
  {
    var q, r := u / (a * b), u % (a * b);
    DivDivSplit(u, a, b, q, r);
    LinearDiv(b, q, r / a);
  }

  /** Dividing by a first leaves the quotient by a * b times b, plus r / a below b. */
  lemma DivDivSplit(u: nat, a: nat, b: nat, q: nat, r: nat)
    requires a >= 1 && b >= 1 && q == u / (a * b) && r == u % (a * b)
    ensures u / a == b * q + r / a && r / a < b
  {
    var s, t := r / a, r % a;
    QuotientBelow(r, a, b);
    assert u == a * b * q + r;
    assert r == a * s + t && t < a;
    Regroup(a, b, q, s, t);
    MulNonnegative(b, q);
    LinearDiv(a, b * q + s, t);
  }

  lemma Regroup(a: nat, b: nat, q: nat, s: nat, t: nat)
    ensures a * b * q + (a * s + t) == a * (b * q + s) + t
  {
  }

  lemma QuotientBelow(r: nat, a: nat, b: nat)
    requires a >= 1 && r < a * b
    ensures r / a < b
  {
  }

  /** One step of peeling fields off a word: u / a is the field modulo b plus b times the rest. */
  lemma DivStep(u: nat, a: nat, b: nat)
    requires a >= 1 && b >= 1
    ensures u / a == b * (u / (a * b)) + (u / a) % b
  {
    DivDiv(u, a, b);
  }

  /** The field of width m at place value d in a word built as d * (m * high + f) + low. */
  lemma FieldAt(u: nat, d: nat, m: nat, low: nat, f: nat, high: nat)
    requires d >= 1 && low < d && f < m
    requires u == d * (m * high + f) + low
    ensures u / d == m * high + f
    ensures (u / d) % m == f
  {
    LinearDiv(d, m * high + f, low);
    LinearDiv(m, high, f);
  }

  lemma MulNonnegative(a: nat, b: nat)
    ensures a * b >= 0
  {
  }

  lemma MulDouble(f: int, p: int)
    ensures f * (2 * p) == 2 * (f * p)
  {
  }

  lemma MulAtLeast(p: nat, d: int)
    requires d >= 1
    ensures p * d >= p
  {
    assert p * d == p * (d - 1) + p;
    assert p * (d - 1) >= 0;
  }

  /** The remainder modulo 2p from the remainder of the half modulo p. */
  lemma ModDouble(u: nat, p: nat)
    requires p >= 1
    ensures u % (2 * p) == 2 * ((u / 2) % p) + u % 2
  {
    var h := u / 2;
    var q, s := h / p, h % p;
    assert h == p * q + s;
    assert u == (2 * p) * q + (2 * s + u % 2);
    assert 0 <= 2 * s + u % 2 < 2 * p;
    LinearDiv(2 * p, q, 2 * s + u % 2);
  }

  /** AND with 2^w - 1 keeps the low w bits. */
  lemma {:induction false} AndLowMask(u: nat, w: nat)
    ensures And(u, Pow2(w) - 1) == u % Pow2(w)
  {
    if w == 0 {
      assert Pow2(w) == 1;
    } else if u == 0 {
      assert And(u, Pow2(w) - 1) == 0;
    } else {
      AndLowMask(u / 2, w - 1);
      AndLowMaskStep(u, w);
    }
  }

  /** One bit of the induction in AndLowMask. */
  lemma AndLowMaskStep(u: nat, w: nat)
    requires u > 0 && w > 0
    requires And(u / 2, Pow2(w - 1) - 1) == (u / 2) % Pow2(w - 1)
    ensures And(u, Pow2(w) - 1) == u % Pow2(w)
  {
    var p := Pow2(w - 1);
    var m := Pow2(w) - 1;
    assert Pow2(w) == 2 * p;
    assert m / 2 == p - 1 && m % 2 == 1;
    assert And(u, m) == 2 * ((u / 2) % p) + u % 2;
    ModDouble(u, p);
  }

  /** AND with a mask of `width` ones at bit `lo` isolates that field, left in place. */
  lemma {:induction false} AndMask(u: nat, lo: nat, width: nat)
    ensures And(u, Mask(lo, width)) == (u / Pow2(lo)) % Pow2(width) * Pow2(lo)
  {
    if lo == 0 {
      AndMaskAtZero(u, width);
    } else if width == 0 || u == 0 {
      AndMaskEmpty(u, lo, width);
    } else {
      AndMask(u / 2, lo - 1, width);
      AndMaskStep(u, lo, width);
    }
  }

  lemma AndMaskAtZero(u: nat, width: nat)
    ensures And(u, Mask(0, width)) == (u / Pow2(0)) % Pow2(width) * Pow2(0)
  {
    assert Pow2(0) == 1;
    assert Mask(0, width) == Pow2(width) - 1;
    AndLowMask(u, width);
  }

  lemma AndMaskEmpty(u: nat, lo: nat, width: nat)
    requires width == 0 || u == 0
    ensures And(u, Mask(lo, width)) == (u / Pow2(lo)) % Pow2(width) * Pow2(lo)
  {
    if width == 0 {
      assert Pow2(width) == 1;
      assert Mask(lo, width) == 0 * Pow2(lo) == 0;
      assert (u / Pow2(lo)) % 1 == 0;
    } else {
      assert u / Pow2(lo) == 0;
    }
  }

  /** One bit of the induction in AndMask: the mask is even, so AND halves both sides. */
  lemma AndMaskStep(u: nat, lo: nat, width: nat)
    requires u > 0 && lo > 0 && width > 0
    requires And(u / 2, Mask(lo - 1, width)) == ((u / 2) / Pow2(lo - 1)) % Pow2(width) * Pow2(lo - 1)
    ensures And(u, Mask(lo, width)) == (u / Pow2(lo)) % Pow2(width) * Pow2(lo)
  {
    var m := Pow2(width) - 1;
    var p := Pow2(lo - 1);
    var f := (u / Pow2(lo)) % Pow2(width);
    assert Mask(lo, width) == 2 * (m * p) by {
      MulDouble(m, p);
    }
    assert m * p >= 1 by {
      MulAtLeast(m, p);
    }
    assert And(u, Mask(lo, width)) == 2 * And(u / 2, m * p);
    assert (u / 2) / p == u / Pow2(lo) by {
      DivHalf(u, p);
    }
    assert And(u / 2, m * p) == f * p;
    assert 2 * (f * p) == f * Pow2(lo) by {
      MulDouble(f, p);
    }
  }

  lemma {:induction false} AndCommutes(a: nat, b: nat)
    ensures And(a, b) == And(b, a)
  {
    if a != 0 && b != 0 {
      AndCommutes(a / 2, b / 2);
    }
  }

  /**
   * The JavaScript expression `v & mask` (in either operand order) for a
   * contiguous mask that stays clear of the sign bit: the field moved to its
   * place, never negative.
   */
  lemma MaskedField(v: Number, lo: nat, width: nat)
    requires lo + width <= 31
    ensures BitAnd(v, Int(Mask(lo, width))) == BitAnd(Int(Mask(lo, width)), v)
    ensures BitAnd(v, Int(Mask(lo, width))) == (ToUint32(v) / Pow2(lo)) % Pow2(width) * Pow2(lo)
  {
    var u := ToUint32(v);
    MaskBelowSignBit(lo, width);
    assert ToUint32(Int(Mask(lo, width))) == Mask(lo, width);
    AndMask(u, lo, width);
    AndCommutes(u, Mask(lo, width));
  }

  lemma MaskBelowSignBit(lo: nat, width: nat)
    requires lo + width <= 31
    ensures Mask(lo, width) < TWO_31
  {
    assert Mask(lo, width) == Pow2(width) * Pow2(lo) - Pow2(lo) by {
      MulSubOne(Pow2(width), Pow2(lo));
    }
    PowAdd(width, lo);
    Pow2Monotone(width + lo, 31);
    Pow2Table();
  }

  lemma MulSubOne(a: int, b: int)
    ensures (a - 1) * b == a * b - b
  {
  }

  lemma {:induction false} Pow2Monotone(a: nat, b: nat)
    requires a <= b
    ensures Pow2(a) <= Pow2(b)
  {
    if a < b {
      Pow2Monotone(a, b - 1);
    }
  }

  /**
   * The JavaScript expression `0xFF000000 & v`: the top byte moved to bits
   * 24-31 and read as a signed 32-bit value, so that it is negative exactly
   * when bit 31 is set.
   */
  lemma TopByte(v: Number)
    ensures Mask(24, 8) == 0xFF00_0000
    ensures 0 <= ToUint32(v) / 0x100_0000 < 0x100
    ensures BitAnd(Int(0xFF00_0000), v) ==
              (if ToUint32(v) / 0x100_0000 < 0x80 then ToUint32(v) / 0x100_0000
               else ToUint32(v) / 0x100_0000 - 0x100) * 0x100_0000
  {
    var u := ToUint32(v);
    Pow2Table();
    assert Mask(24, 8) == 0xFF00_0000;
    AndMask(u, 24, 8);
    AndCommutes(u, Mask(24, 8));
    assert (u / 0x100_0000) % 0x100 == u / 0x100_0000;
  }

  /** `(v & p) > 0` for a single-bit mask p = 2^lo tests bit lo of v. */
  lemma FlagBit(v: Number, lo: nat, p: nat)
    requires lo < 31 && p == Pow2(lo)
    ensures (BitAnd(v, Int(p)) > 0) == ((ToUint32(v) / p) % 2 == 1)
  {
    MaskedField(v, lo, 1);
    assert Pow2(1) == 2;
    assert Mask(lo, 1) == p;
    var f := (ToUint32(v) / p) % 2;
    assert BitAnd(v, Int(p)) == f * p;
  }

  /**
   * The JavaScript expression `(v & mask) >>> lo` for a contiguous mask of
   * `width` bits at `lo`: the field itself, never negative.
   */
  lemma ShiftedField(v: Number, lo: nat, width: nat)
    requires lo < 32 && Mask(lo, width) < TWO_32
    ensures UShr(Int(BitAnd(v, Int(Mask(lo, width)))), lo) == (ToUint32(v) / Pow2(lo)) % Pow2(width)
  {
    var u := ToUint32(v);
    var m := Mask(lo, width);
    var p := Pow2(lo);
    var f := (u / p) % Pow2(width);
    assert ToUint32(Int(m)) == m;
    var a := And(u, m);
    assert BitAnd(v, Int(m)) == Signed(a);
    AndMask(u, lo, width);
    assert a == f * p;
    assert f * p == p * f + 0;
    assert ToUint32(Int(Signed(a))) == a;
    assert a / p == f by {
      LinearDiv(p, f, 0);
    }
  }
}
