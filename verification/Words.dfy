/** Machine words as bounded integers, with the bitwise operations defined bit by bit. */
module Words {

  const TWO32: int := 0x1_0000_0000
  const UINT32_MAX: int := 0xFFFF_FFFF

  /** An unsigned 32-bit register or memory word. */
  type word = x: int | 0 <= x < 0x1_0000_0000

  function Pow2(n: nat): (r: nat)
    ensures r >= 1
  {
    if n == 0 then 1 else 2 * Pow2(n - 1)
  }

  function BitAnd(x: nat, y: nat): (r: nat)
    ensures r <= x && r <= y
  {
    if x == 0 || y == 0 then 0
    else (if x % 2 == 1 && y % 2 == 1 then 1 else 0) + 2 * BitAnd(x / 2, y / 2)
  }

  /** One step of 32-bit addition with carry: the low word and the carry out. */
  function AddLow(x: word, y: word, c: word): word
    requires c <= 1
  {
    (x + y + c) % 0x1_0000_0000
  }

  function AddCarry(x: word, y: word, c: word): (r: word)
    requires c <= 1
    ensures r <= 1
    ensures AddLow(x, y, c) + 0x1_0000_0000 * r == x + y + c
  {
    (x + y + c) / 0x1_0000_0000
  }

  lemma {:induction false} Pow2Add(m: nat, n: nat)
    ensures Pow2(m + n) == Pow2(m) * Pow2(n)
  {
    if m != 0 {
      Pow2Add(m - 1, n);
      assert Pow2(m + n) == 2 * (Pow2(m - 1) * Pow2(n)) == (2 * Pow2(m - 1)) * Pow2(n);
    }
  }

  /** Masking with all ones keeps the low bits, whichever side the mask stands on. */
  lemma {:induction false} AndAllOnes(x: nat, n: nat)
    ensures BitAnd(x, Pow2(n) - 1) == x % Pow2(n) == BitAnd(Pow2(n) - 1, x)
  {
    if n != 0 {
      var y := Pow2(n - 1);
      assert Pow2(n) == 2 * y;
      hide BitAnd, Pow2;
      AndAllOnes(x / 2, n - 1);
      AndOneMore(x, y);
    } else {
      AndNone(x);
    }
  }

  lemma AndNone(x: nat)
    ensures BitAnd(x, 0) == 0 == BitAnd(0, x)
  {
  }

  lemma AndOneMore(x: nat, y: nat)
    requires y >= 1 && BitAnd(x / 2, y - 1) == (x / 2) % y == BitAnd(y - 1, x / 2)
    ensures BitAnd(x, 2 * y - 1) == x % (2 * y) == BitAnd(2 * y - 1, x)
  {
    hide BitAnd;
    AndOdd(x, y);
    ModSplit(x, y);
  }

  lemma AndOdd(x: nat, y: nat)
    requires y >= 1
    ensures BitAnd(x, 2 * y - 1) == x % 2 + 2 * BitAnd(x / 2, y - 1)
    ensures BitAnd(2 * y - 1, x) == x % 2 + 2 * BitAnd(y - 1, x / 2)
  {
    assert (2 * y - 1) / 2 == y - 1;
    assert (2 * y - 1) % 2 == 1;
  }

  lemma ModSplit(x: nat, y: nat)
    requires y >= 1
    ensures x % (2 * y) == x % 2 + 2 * ((x / 2) % y)
  {
    var h := x / 2;
    var q, r := h / y, h % y;
    assert h == q * y + r;
    assert x == q * (2 * y) + (2 * r + x % 2) by {
      assert x == 2 * h + x % 2 == 2 * (q * y + r) + x % 2;
      assert 2 * (q * y) == q * (2 * y);
    }
    ModUnique(x, 2 * y, q, 2 * r + x % 2);
  }

  lemma MulAtLeast(d: int, k: int)
    requires d > 0
    ensures k >= 1 ==> k * d >= d
    ensures k <= -1 ==> k * d <= -d
  {
    if k >= 1 {
      assert (k - 1) * d >= 0;
      assert (k - 1) * d == k * d - d;
    } else if k <= -1 {
      assert (-1 - k) * d >= 0;
      assert (-1 - k) * d == -d - k * d;
    }
  }

  lemma ModUnique(x: int, d: int, q: int, r: int)
    requires d > 0 && x == q * d + r && 0 <= r < d
    ensures x % d == r && x / d == q
  {
    var k := q - x / d;
    assert k * d == q * d - (x / d) * d;
    assert k * d == x % d - r;
    MulAtLeast(d, k);
  }

  function ShiftLeft(x: nat, n: nat): nat
  {
    if n == 0 then x else 2 * ShiftLeft(x, n - 1)
  }

  lemma {:induction false} ShiftLeftIsMul(x: nat, n: nat)
    ensures ShiftLeft(x, n) == Pow2(n) * x
  {
    if n != 0 {
      ShiftLeftIsMul(x, n - 1);
      assert 2 * (Pow2(n - 1) * x) == Pow2(n) * x;
    }
  }

  /** Bitwise and acts separately on the low n bits and on the rest. */
  lemma {:induction false} AndConcat(x: nat, a: nat, y: nat, b: nat, n: nat)
    requires x < Pow2(n) && a < Pow2(n)
    ensures BitAnd(x + ShiftLeft(y, n), a + ShiftLeft(b, n)) == BitAnd(x, a) + ShiftLeft(BitAnd(y, b), n)
    decreases n
  {
    hide BitAnd;
    if n == 0 {
      AndZero();
    } else {
      AndConcat(x / 2, a / 2, y, b, n - 1);
      AndOfSums(x, a, ShiftLeft(y, n - 1), ShiftLeft(b, n - 1));
    }
  }

  lemma AndZero()
    ensures BitAnd(0, 0) == 0
  {
  }

  lemma AndOfSums(x: nat, a: nat, u: nat, v: nat)
    ensures BitAnd(x + 2 * u, a + 2 * v)
         == (if x % 2 == 1 && a % 2 == 1 then 1 else 0) + 2 * BitAnd(x / 2 + u, a / 2 + v)
    ensures BitAnd(x, a) == (if x % 2 == 1 && a % 2 == 1 then 1 else 0) + 2 * BitAnd(x / 2, a / 2)
  {
    assert (x + 2 * u) / 2 == x / 2 + u && (x + 2 * u) % 2 == x % 2;
    assert (a + 2 * v) / 2 == a / 2 + v && (a + 2 * v) % 2 == a % 2;
  }

  /** Bit i of x. */
  function Bit(x: nat, i: nat): (b: nat)
    ensures b <= 1
  {
    if i == 0 then x % 2 else Bit(x / 2, i - 1)
  }

  /** Bitwise and, bit by bit. */
  lemma {:induction false} AndBit(x: nat, y: nat, i: nat)
    ensures Bit(BitAnd(x, y), i) == Bit(x, i) * Bit(y, i)
    decreases i
  {
    if x == 0 || y == 0 {
      ZeroBit(i);
    } else if i > 0 {
      assert BitAnd(x, y) / 2 == BitAnd(x / 2, y / 2);
      AndBit(x / 2, y / 2, i - 1);
    }
  }

  lemma {:induction false} ZeroBit(i: nat)
    ensures Bit(0, i) == 0
  {
    if i > 0 {
      ZeroBit(i - 1);
    }
  }

  /** The bits of low are below those of high. */
  lemma {:induction false} BitConcat(low: nat, high: nat, n: nat, i: nat)
    requires low < Pow2(n)
    ensures Bit(low + Pow2(n) * high, i) == if i < n then Bit(low, i) else Bit(high, i - n)
    decreases n
  {
    var x := low + Pow2(n) * high;
    if n > 0 {
      assert Pow2(n) * high == 2 * (Pow2(n - 1) * high);
      assert x / 2 == low / 2 + Pow2(n - 1) * high && x % 2 == low % 2;
      if i > 0 {
        BitConcat(low / 2, high, n - 1, i - 1);
      }
    }
  }

  lemma {:induction false} OnesBit(n: nat, i: nat)
    ensures Bit(Pow2(n) - 1, i) == if i < n then 1 else 0
    decreases n
  {
    if n == 0 {
      ZeroBit(i);
    } else if i > 0 {
      assert (Pow2(n) - 1) / 2 == Pow2(n - 1) - 1;
      OnesBit(n - 1, i - 1);
    }
  }

  lemma PowersOfTwo()
    ensures Pow2(2) == 4 && Pow2(26) == 0x400_0000 && Pow2(28) == 0x1000_0000 && Pow2(32) == 0x1_0000_0000
    ensures Pow2(64) == 0x1_0000_0000_0000_0000
    ensures Pow2(96) == 0x1_0000_0000_0000_0000_0000_0000
    ensures Pow2(124) == 0x1000_0000_0000_0000_0000_0000_0000_0000
    ensures Pow2(128) == 0x1_0000_0000_0000_0000_0000_0000_0000_0000
  {
    assert Pow2(8) == 256;
    Pow2Add(8, 8);
    Pow2Add(16, 8);
    assert Pow2(4) == 16;
    Pow2Add(24, 2);
    Pow2Add(24, 4);
    Pow2Add(28, 4);
    Pow2Add(32, 32);
    Pow2Add(64, 32);
    Pow2Add(96, 28);
    Pow2Add(96, 32);
  }
}
