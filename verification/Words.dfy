/** Machine words, and the arithmetic the C code does on them. */
module Words {
  const U32_LIMIT := 0x1_0000_0000
  const U64_LIMIT := 0x1_0000_0000_0000_0000

  type u8 = x: int | 0 <= x < 0x100
  type u16 = x: int | 0 <= x < 0x1_0000
  type u32 = x: int | 0 <= x < 0x1_0000_0000
  type u64 = x: int | 0 <= x < 0x1_0000_0000_0000_0000

  datatype Option<+T> = None | Some(value: T)

  /** `value != 0 && (value & (value - 1)) == 0`: one bit set. */
  predicate PowerOfTwo(value: int) {
    value == 1 || (value > 1 && value % 2 == 0 && PowerOfTwo(value / 2))
  }

  /** `value & ~(alignment - 1)` for a power of two. */
  function AlignDown(value: int, alignment: int): int
    requires alignment > 0
  {
    value - value % alignment
  }

  /** The least multiple of `alignment` that is not below `value`. */
  function AlignUp(value: int, alignment: int): int
    requires alignment > 0
  {
    AlignDown(value + (alignment - 1), alignment)
  }

  lemma ScaleMonotone(a: int, i: int, j: int)
    requires a > 0 && i <= j
    ensures a * i <= a * j
  {
  }

  lemma ScaleStrict(a: int, i: int, j: int)
    requires a > 0 && i < j
    ensures a * i + a <= a * j
  {
    ScaleMonotone(a, i + 1, j);
    assert a * (i + 1) == a * i + a;
  }

  lemma MultipleModulo(q: int, a: int)
    requires a > 0
    ensures (a * q) % a == 0
  {
    var k, r := (a * q) / a, (a * q) % a;
    assert a * q == a * k + r;
    if q < k {
      ScaleStrict(a, q, k);
    } else if k < q {
      ScaleStrict(a, k, q);
    }
  }

  /** Quotient and remainder are unique. */
  lemma DivisionIs(x: int, d: int, q: int, r: int)
    requires d > 0 && x == d * q + r && 0 <= r < d
    ensures x / d == q && x % d == r
  {
    var k := x / d;
    assert x == d * k + x % d;
    if q < k {
      ScaleStrict(d, q, k);
    } else if k < q {
      ScaleStrict(d, k, q);
    }
  }

  lemma AlignDownBounds(value: int, a: int)
    requires a > 0
    ensures value - a < AlignDown(value, a) <= value
    ensures AlignDown(value, a) % a == 0
  {
    MultipleModulo(value / a, a);
    assert AlignDown(value, a) == a * (value / a);
  }

  /** Aligning down reaches the greatest multiple that is not above `value`. */
  lemma AlignDownIsGreatest(value: int, a: int, multiple: int)
    requires a > 0 && multiple % a == 0 && multiple <= value
    ensures multiple <= AlignDown(value, a)
  {
    var q, k := value / a, multiple / a;
    assert value == a * q + value % a;
    assert multiple == a * k;
    if q < k {
      ScaleStrict(a, q, k);
    } else {
      ScaleMonotone(a, k, q);
    }
  }

  lemma AlignUpBounds(value: int, a: int)
    requires a > 0
    ensures value <= AlignUp(value, a) < value + a
    ensures AlignUp(value, a) % a == 0
  {
    AlignDownBounds(value + (a - 1), a);
  }

  /** Aligning up reaches the least multiple that is not below `value`. */
  lemma AlignUpIsLeast(value: int, a: int, multiple: int)
    requires a > 0 && multiple % a == 0 && value <= multiple
    ensures AlignUp(value, a) <= multiple
  {
    AlignDownBounds(value + (a - 1), a);
    var up, k := AlignUp(value, a) / a, multiple / a;
    assert AlignUp(value, a) == a * up;
    assert multiple == a * k;
    if k < up {
      ScaleStrict(a, k, up);
    } else {
      ScaleMonotone(a, up, k);
    }
  }

  function Exp2(k: nat): (r: int)
    ensures r > 0
  {
    if k == 0 then 1 else 2 * Exp2(k - 1)
  }

  lemma PowerIsPositive(value: int)
    requires PowerOfTwo(value)
    ensures value >= 1
  {
  }

  /** A power of two no larger than 2^k divides 2^k. */
  lemma {:induction false} PowerOfTwoDivides(a: int, k: nat)
    requires PowerOfTwo(a) && a <= Exp2(k)
    ensures Exp2(k) % a == 0
  {
    if a != 1 {
      PowerOfTwoDivides(a / 2, k - 1);
      var half := a / 2;
      var q := Exp2(k - 1) / half;
      assert Exp2(k - 1) == half * q;
      assert a == 2 * half;
      assert a * q == 2 * (half * q);
      MultipleModulo(q, a);
    }
  }

  /** Two to some power. */
  ghost predicate IsPower(x: int) {
    exists k: nat :: x == Exp2(k)
  }

  lemma {:induction false} PowerOfTwoIs(x: int)
    ensures PowerOfTwo(x) <==> IsPower(x)
    decreases if x > 0 then x else 0
  {
    if x == 1 {
      assert x == Exp2(0);
    } else {
      if x > 1 && x % 2 == 0 {
        PowerOfTwoIs(x / 2);
      }
      HalfIsPower(x);
    }
  }

  lemma HalfIsPower(x: int)
    requires x != 1
    ensures IsPower(x) <==> x > 1 && x % 2 == 0 && IsPower(x / 2)
  {
    if IsPower(x) {
      var k: nat :| x == Exp2(k);
      assert x == 2 * Exp2(k - 1);
    }
    if x > 1 && x % 2 == 0 && IsPower(x / 2) {
      var k: nat :| x / 2 == Exp2(k);
      assert x == Exp2(k + 1);
    }
  }

  lemma WordSizeIsPower()
    ensures Exp2(64) == U64_LIMIT
  {
    assert Exp2(8) == 0x100;
    Exp2Square(8, 0x100);
    Exp2Square(16, 0x1_0000);
    Exp2Square(32, 0x1_0000_0000);
  }

  lemma Exp2Square(k: nat, value: int)
    requires Exp2(k) == value
    ensures Exp2(2 * k) == value * value
  {
    Exp2Sum(k, k);
  }

  lemma {:induction false} Exp2Sum(i: nat, j: nat)
    ensures Exp2(i + j) == Exp2(i) * Exp2(j)
  {
    if i != 0 {
      Exp2Sum(i - 1, j);
      assert Exp2(i + j) == 2 * Exp2((i - 1) + j);
      assert 2 * (Exp2(i - 1) * Exp2(j)) == (2 * Exp2(i - 1)) * Exp2(j);
    }
  }

  // ----- little-endian fields -----

  function U16At(s: seq<u8>, at: nat): (value: u16)
    requires at + 2 <= |s|
  {
    s[at] as int + 0x100 * (s[at + 1] as int)
  }

  function U32At(s: seq<u8>, at: nat): (value: u32)
    requires at + 4 <= |s|
  {
    s[at] as int + 0x100 * (s[at + 1] as int) + 0x1_0000 * (s[at + 2] as int) + 0x100_0000 * (s[at + 3] as int)
  }

  function U64At(s: seq<u8>, at: nat): (value: u64)
    requires at + 8 <= |s|
  {
    U32At(s, at) as int + 0x1_0000_0000 * (U32At(s, at + 4) as int)
  }
}
