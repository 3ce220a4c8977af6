/** Java's fixed-width integer semantics as used by the Bloom filter:
    signed bytes, 32-bit ints, the bitwise operators, `%` and `Math.abs`. */
module JavaInt {

  /** A Java `byte`. */
  type int8 = x: int | -0x80 <= x < 0x80

  /** A Java `int`. */
  type int32 = x: int | -0x8000_0000 <= x < 0x8000_0000

  const MIN_VALUE: int32 := -0x8000_0000
  const MAX_VALUE: int32 := 0x7FFF_FFFF

  /** 2 to the power n. */
  function Pow2(n: nat): (r: nat)
    ensures r > 0
  {
    if n == 0 then 1 else 2 * Pow2(n - 1)
  }

  /** The byte whose two's-complement bits are the unsigned value u. */
  function Signed8(u: int): (b: int8)
    requires 0 <= u < 0x100
  {
    if u < 0x80 then u else u - 0x100
  }

  /** The unsigned value 0..255 of the bits of a byte. */
  function Unsigned8(b: int8): (u: nat)
    ensures u < 0x100 && Signed8(u) == b
  {
    if b < 0 then b + 0x100 else b
  }

  /** The int whose two's-complement bits are the unsigned value u. */
  function Signed32(u: int): (x: int32)
    requires 0 <= u < 0x1_0000_0000
  {
    if u < 0x8000_0000 then u else u - 0x1_0000_0000
  }

  /** The unsigned value of the 32 bits of an int. */
  function Unsigned32(x: int32): (u: nat)
    ensures u < 0x1_0000_0000 && Signed32(u) == x
  {
    if x < 0 then x + 0x1_0000_0000 else x
  }

  lemma UnsignedOfSigned32(u: int)
    requires 0 <= u < 0x1_0000_0000
    ensures Unsigned32(Signed32(u)) == u
  {
  }

  /** Bitwise OR of the low n bits of a and b. */
  function OrBits(a: nat, b: nat, n: nat): (r: nat)
    ensures r < Pow2(n)
  {
    if n == 0 then 0
    else (if a % 2 == 1 || b % 2 == 1 then 1 else 0) + 2 * OrBits(a / 2, b / 2, n - 1)
  }

  /** Bitwise AND of the low n bits of a and b. */
  function AndBits(a: nat, b: nat, n: nat): (r: nat)
    ensures r < Pow2(n)
  {
    if n == 0 then 0
    else (if a % 2 == 1 && b % 2 == 1 then 1 else 0) + 2 * AndBits(a / 2, b / 2, n - 1)
  }

  /** Bit i of a, counting from the least significant bit 0. */
  function TestBit(a: nat, i: nat): bool
  {
    if i == 0 then a % 2 == 1 else TestBit(a / 2, i - 1)
  }

  /** Each of the low n bits of OrBits(a, b, n) is set exactly when it is
      set in a or in b. */
  lemma {:induction false} OrBitsBit(a: nat, b: nat, n: nat, i: nat)
    requires i < n
    ensures TestBit(OrBits(a, b, n), i) == (TestBit(a, i) || TestBit(b, i))
  {
    if i > 0 {
      OrBitsBit(a / 2, b / 2, n - 1, i - 1);
    }
  }

  /** Each of the low n bits of AndBits(a, b, n) is set exactly when it is
      set in both a and b. */
  lemma {:induction false} AndBitsBit(a: nat, b: nat, n: nat, i: nat)
    requires i < n
    ensures TestBit(AndBits(a, b, n), i) == (TestBit(a, i) && TestBit(b, i))
  {
    if i > 0 {
      AndBitsBit(a / 2, b / 2, n - 1, i - 1);
    }
  }

  /** Java's `x | y` on ints: each of the 32 bits of the result is set
      exactly when it is set in x or in y. */
  function BitOr(x: int32, y: int32): (r: int32)
    ensures forall i :: 0 <= i < 32 ==>
      TestBit(Unsigned32(r), i) == (TestBit(Unsigned32(x), i) || TestBit(Unsigned32(y), i))
  {
    Pow2Of32();
    var u := OrBits(Unsigned32(x), Unsigned32(y), 32);
    UnsignedOfSigned32(u);
    forall i | 0 <= i < 32 {
      OrBitsBit(Unsigned32(x), Unsigned32(y), 32, i);
    }
    Signed32(u)
  }

  /** Java's `x & y` on ints: each of the 32 bits of the result is set
      exactly when it is set in both x and y. */
  function BitAnd(x: int32, y: int32): (r: int32)
    ensures forall i :: 0 <= i < 32 ==>
      TestBit(Unsigned32(r), i) == (TestBit(Unsigned32(x), i) && TestBit(Unsigned32(y), i))
  {
    Pow2Of32();
    var u := AndBits(Unsigned32(x), Unsigned32(y), 32);
    UnsignedOfSigned32(u);
    forall i | 0 <= i < 32 {
      AndBitsBit(Unsigned32(x), Unsigned32(y), 32, i);
    }
    Signed32(u)
  }

  /** Java's `x << n` on ints: the result is x times 2^n modulo 2^32 (bits
      shifted out at the top are lost) and its low n bits are zero. */
  function ShiftLeft(x: int32, n: nat): (r: int32)
    requires n < 32
    ensures (Unsigned32(r) - Unsigned32(x) * Pow2(n)) % 0x1_0000_0000 == 0
    ensures Unsigned32(r) % Pow2(n) == 0
  {
    var v := Unsigned32(x) * Pow2(n) % 0x1_0000_0000;
    UnsignedOfSigned32(v);
    WrapShifted(Unsigned32(x), n);
    Signed32(v)
  }

  /** Reducing u * 2^n modulo 2^32 changes it by a multiple of 2^32 and keeps
      its low n bits zero. */
  lemma WrapShifted(u: nat, n: nat)
    requires n <= 32
    ensures (u * Pow2(n) % 0x1_0000_0000 - u * Pow2(n)) % 0x1_0000_0000 == 0
    ensures u * Pow2(n) % 0x1_0000_0000 % Pow2(n) == 0
  {
    var p, m := u * Pow2(n), 0x1_0000_0000;
    assert (p % m - p) % m == 0 by {
      ModUnique(p % m - p, m, -(p / m), 0);
    }
    LowBitsStayZero(u, n);
  }

  lemma LowBitsStayZero(u: nat, n: nat)
    requires n <= 32
    ensures u * Pow2(n) % 0x1_0000_0000 % Pow2(n) == 0
  {
    var a, b := Pow2(n), Pow2(32 - n);
    var p, m := u * a, 0x1_0000_0000;
    var v, q := p % m, p / m;
    assert p == m * q + v;
    var w := u - b * q;
    assert v == a * w by {
      Pow2Of32();
      Pow2Add(n, 32 - n);
      MulAssoc(a, b, q);
      MulSubDistrib(a, u, b * q);
    }
    ModUnique(v, a, w, 0);
  }

  lemma MulAssoc(a: int, b: int, c: int)
    ensures (a * b) * c == a * (b * c)
  {
  }

  lemma MulSubDistrib(a: int, x: int, y: int)
    ensures a * (x - y) == a * x - a * y
  {
  }

  lemma {:induction false} Pow2Add(a: nat, b: nat)
    ensures Pow2(a + b) == Pow2(a) * Pow2(b)
  {
    if a > 0 {
      Pow2Add(a - 1, b);
    }
  }

  lemma Pow2Of32()
    ensures Pow2(8) == 0x100 && Pow2(24) == 0x100_0000 && Pow2(32) == 0x1_0000_0000
  {
    Pow2Add(8, 8);
    Pow2Add(16, 8);
    Pow2Add(16, 16);
  }

  lemma {:induction false} OrZero(x: nat, n: nat)
    requires x < Pow2(n)
    ensures OrBits(x, 0, n) == x
  {
    if n > 0 {
      OrZero(x / 2, n - 1);
    }
  }

  /** OR-ing a value below 2^j into a word whose low j bits are clear adds it. */
  lemma {:induction false} OrIntoClearBits(x: nat, u: nat, j: nat, n: nat)
    requires j <= n && u < Pow2(j) && x * Pow2(j) < Pow2(n)
    ensures OrBits(x * Pow2(j), u, n) == x * Pow2(j) + u
  {
    if j == 0 {
      OrZero(x, n);
    } else {
      var a := x * Pow2(j);
      assert a == 2 * (x * Pow2(j - 1));
      assert a % 2 == 0 && a / 2 == x * Pow2(j - 1);
      OrIntoClearBits(x, u / 2, j - 1, n - 1);
    }
  }

  lemma {:induction false} AndZero(a: nat, n: nat)
    ensures AndBits(a, 0, n) == 0
  {
    if n > 0 {
      AndZero(a / 2, n - 1);
    }
  }

  /** AND-ing with the mask 2^j - 1 keeps the low j bits. */
  lemma {:induction false} AndLowMask(a: nat, j: nat, n: nat)
    requires j <= n
    ensures AndBits(a, Pow2(j) - 1, n) == a % Pow2(j)
  {
    if j == 0 {
      AndZero(a, n);
    } else {
      var p := Pow2(j - 1);
      var lowHalf := AndBits(a / 2, p - 1, n - 1);
      assert Pow2(j) - 1 == 2 * (p - 1) + 1;
      assert AndBits(a, Pow2(j) - 1, n) == a % 2 + 2 * lowHalf by {
        var m := Pow2(j) - 1;
        assert m % 2 == 1 && m / 2 == p - 1;
      }
      assert lowHalf == (a / 2) % p by {
        AndLowMask(a / 2, j - 1, n - 1);
      }
      HalveMod(a, p);
    }
  }

  /** The remainder modulo 2p, read as its low bit and the remainder of the half. */
  lemma HalveMod(a: nat, p: nat)
    requires p > 0
    ensures a % (2 * p) == 2 * ((a / 2) % p) + a % 2
  {
    var q := a / 2;
    var h, t := q / p, q % p;
    assert q == p * h + t;
    assert a == 2 * q + a % 2;
    assert a == (2 * p) * h + (2 * t + a % 2) by {
      assert 2 * (p * h) == (2 * p) * h;
    }
    ModUnique(a, 2 * p, h, 2 * t + a % 2);
  }

  lemma ModUnique(a: int, d: int, q: int, r: int)
    requires d > 0 && a == d * q + r && 0 <= r < d
    ensures a % d == r
  {
    var e := q - a / d;
    assert d * e == a % d - r by {
      assert a == d * (a / d) + a % d;
      assert d * q - d * (a / d) == d * e;
    }
    if e > 0 {
      MulAtLeast(d, e);
    }
  }

  lemma DivUnique(a: int, d: int, q: int, r: int)
    requires d > 0 && a == d * q + r && 0 <= r < d
    ensures a / d == q
  {
    ModUnique(a, d, q, r);
    assert d * (a / d) == d * q;
  }

  lemma MulAtLeast(d: nat, e: int)
    requires e >= 1
    ensures d * e >= d
  {
    assert d * e == d + d * (e - 1);
  }

  /** Java widens a byte to an int by sign extension, so `((int)b) & 0xFF`
      is the unsigned value of the byte's bits. */
  lemma MaskByte(b: int8)
    ensures BitAnd(b, 0xFF) == Unsigned8(b)
  {
    var u := Unsigned32(b);
    assert u % 0x100 == Unsigned8(b) by {
      if b < 0 {
        ModUnique(u, 0x100, 0xFF_FFFF, b + 0x100);
      }
    }
    assert AndBits(u, 0xFF, 32) == u % 0x100 by {
      Pow2Of32();
      AndLowMask(u, 8, 32);
    }
    assert BitAnd(b, 0xFF) == Signed32(AndBits(u, 0xFF, 32));
  }

  /** `(h << 8) | u` on an int holding fewer than 24 significant bits appends
      the byte value u below them. */
  lemma ShiftInByte(a: nat, u: nat)
    requires a < 0x100_0000 && u < 0x100
    ensures BitOr(ShiftLeft(Signed32(a), 8), u) == Signed32(a * 0x100 + u)
  {
    Pow2Of32();
    assert ShiftLeft(Signed32(a), 8) == Signed32(a * 0x100);
    OrIntoClearBits(a, u, 8, 32);
  }

  /** The magnitude |x| of an unbounded integer. */
  function Magnitude(x: int): (r: nat)
    ensures r == x || r == -x
  {
    if x < 0 then -x else x
  }

  /** Java's `Math.abs(int)`: the magnitude taken modulo 2^32, so the
      negation of MIN_VALUE wraps back to MIN_VALUE, the one negative result. */
  function JavaAbs(x: int32): (r: int32)
    ensures (r as int - Magnitude(x)) % 0x1_0000_0000 == 0
    ensures r >= 0 <==> x != MIN_VALUE
  {
    if x == MIN_VALUE then MIN_VALUE else if x < 0 then -x else x
  }

  /** Java's `a % b` on ints: the remainder of division truncated toward
      zero, so it takes the sign of the dividend. */
  function Rem(a: int32, b: int32): (r: int32)
    requires b != 0
    ensures Magnitude(r) < Magnitude(b)
    ensures r == 0 || (r < 0 <==> a < 0)
    ensures (a - r) % Magnitude(b) == 0
  {
    var d, q := Magnitude(b), Magnitude(a) % Magnitude(b);
    var c := Magnitude(a) / d;
    assert Magnitude(a) == d * c + q;
    var r := if a < 0 then -q else q;
    assert a - r == d * (if a < 0 then -c else c);
    ModUnique(a - r, d, if a < 0 then -c else c, 0);
    r
  }

  /** Java's `salt++` on a byte: 127 wraps to -128. */
  function Inc8(b: int8): (r: int8)
    ensures Unsigned8(r) == (Unsigned8(b) + 1) % 0x100
  {
    if b == 0x7F then -0x80 else b + 1
  }

  /** Java's `n++` on an int: MAX_VALUE wraps to MIN_VALUE. */
  function Inc32(x: int32): (r: int32)
    ensures Unsigned32(r) == (Unsigned32(x) + 1) % 0x1_0000_0000
  {
    if x == MAX_VALUE then MIN_VALUE else x + 1
  }

  /** The int a 32-bit counter holds after n increments from zero. */
  function Wrap32(n: nat): int32
  {
    Signed32(n % 0x1_0000_0000)
  }

  lemma {:induction false} Inc32Wrap(n: nat)
    ensures Inc32(Wrap32(n)) == Wrap32(n + 1)
  {
    UnsignedOfSigned32(n % 0x1_0000_0000);
  }
}
