/** Signed 64-bit words: wrap-around, the windows of width 2^64 between which it happens,
    and the bitwise operations the analyses need. */
module Words {

  const TWO63: int := 0x8000_0000_0000_0000
  const TWO64: int := 0x1_0000_0000_0000_0000

  type Word = x: int | -TWO63 <= x < TWO63 witness 0

  const MIN: Word := -TWO63
  const MAX: Word := TWO63 - 1

  /** How often the result wraps around: 0 when it fits. */
  function Window(x: int): int {
    (x + TWO63) / TWO64
  }

  /** Two's complement reduction of an integer result. */
  function Wrap(x: int): (w: Word)
    ensures w == x - Window(x) * TWO64
  {
    (x + TWO63) % TWO64 - TWO63
  }

  function Unsigned(x: Word): (u: nat)
    ensures u < TWO64 && u == if x < 0 then x + TWO64 else x
  {
    x % TWO64
  }

  lemma UnsignedOfWrap(x: int)
    ensures Unsigned(Wrap(x)) == x % TWO64
  {
  }

  /** Wrapping is monotone as long as no window border is crossed. */
  lemma WrapBetween(lo: int, x: int, hi: int)
    requires lo <= x <= hi && Window(lo) == Window(hi)
    ensures Wrap(lo) <= Wrap(x) <= Wrap(hi)
  {
  }

  // ----- Bitwise AND -----

  function And(x: nat, y: nat): nat {
    if x == 0 || y == 0 then 0 else 2 * And(x / 2, y / 2) + (x % 2) * (y % 2)
  }

  function Pow2(n: nat): (p: nat)
    ensures p >= 1
  {
    if n == 0 then 1 else 2 * Pow2(n - 1)
  }

  lemma {:induction false} AndBounded(x: nat, y: nat)
    ensures And(x, y) <= x && And(x, y) <= y
  {
    if x != 0 && y != 0 {
      AndBounded(x / 2, y / 2);
      assert (x % 2) * (y % 2) <= x % 2 && (x % 2) * (y % 2) <= y % 2;
    }
  }

  lemma {:induction false} AndSelf(x: nat)
    ensures And(x, x) == x
  {
    if x != 0 {
      AndSelf(x / 2);
    }
  }

  /** A bit that is the top bit of both operands is set in the result. */
  lemma {:induction false} AndKeepsTopBit(n: nat, x: nat, y: nat)
    requires Pow2(n) <= x < Pow2(n + 1) && Pow2(n) <= y < Pow2(n + 1)
    ensures And(x, y) >= Pow2(n)
  {
    if n == 0 {
      assert x == 1 && y == 1;
    } else {
      AndKeepsTopBit(n - 1, x / 2, y / 2);
    }
  }

  lemma {:induction false} Pow2Sum(m: nat, n: nat)
    ensures Pow2(m + n) == Pow2(m) * Pow2(n)
  {
    if m != 0 {
      Pow2Sum(m - 1, n);
      assert m + n - 1 == m - 1 + n;
      assert Pow2(m + n) == 2 * (Pow2(m - 1) * Pow2(n)) == (2 * Pow2(m - 1)) * Pow2(n);
    }
  }

  lemma Pow2At63()
    ensures Pow2(63) == TWO63 && Pow2(64) == TWO64
  {
    assert Pow2(8) == 0x100;
    assert Pow2(16) == 0x1_0000 by { Pow2Sum(8, 8); }
    assert Pow2(32) == 0x1_0000_0000 by { Pow2Sum(16, 16); }
    assert Pow2(48) == 0x1_0000_0000_0000 by { Pow2Sum(32, 16); }
    assert Pow2(64) == TWO64 by { Pow2Sum(48, 16); }
  }

  lemma {:induction false} Pow2Bound(n: nat)
    requires n < 64
    ensures Pow2(n) <= TWO63
    decreases 63 - n
  {
    if n == 63 {
      Pow2At63();
    } else {
      Pow2Bound(n + 1);
    }
  }

  function WordAnd(x: Word, y: Word): Word {
    Wrap(And(Unsigned(x), Unsigned(y)))
  }

  lemma WordAndNonNegative(x: Word, y: Word)
    requires x >= 0 || y >= 0
    ensures 0 <= WordAnd(x, y)
    ensures x >= 0 ==> WordAnd(x, y) <= x
    ensures y >= 0 ==> WordAnd(x, y) <= y
  {
    AndBounded(Unsigned(x), Unsigned(y));
  }

  lemma WordAndNegative(x: Word, y: Word)
    requires x < 0 && y < 0
    ensures WordAnd(x, y) < 0
  {
    Pow2At63();
    AndKeepsTopBit(63, Unsigned(x), Unsigned(y));
    AndBounded(Unsigned(x), Unsigned(y));
  }

  lemma WordAndSelf(x: Word)
    ensures WordAnd(x, x) == x
  {
    AndSelf(Unsigned(x));
  }

  // ----- Bitwise XOR -----

  /** x without the bit of weight h, when x is below 2 * h. */
  function Below(x: int, h: nat): int {
    if x >= h then x - h else x
  }

  /** The exclusive or of two numbers of n bits, from the top bit down. */
  function Xor(n: nat, x: int, y: int): (r: nat)
    ensures r < Pow2(n)
  {
    if n == 0 then 0
    else
      var h := Pow2(n - 1);
      Xor(n - 1, Below(x, h), Below(y, h)) + if (x >= h) == (y >= h) then 0 else h
  }

  lemma {:induction false} XorSelf(n: nat, x: int)
    ensures Xor(n, x, x) == 0
  {
    if n > 0 {
      XorSelf(n - 1, Below(x, Pow2(n - 1)));
    }
  }

  /** Complementing an operand complements the result. */
  lemma {:induction false} XorNot(n: nat, x: nat, y: nat)
    requires x < Pow2(n) && y < Pow2(n)
    ensures Xor(n, x, Pow2(n) - 1 - y) == Pow2(n) - 1 - Xor(n, x, y)
  {
    if n > 0 {
      XorNot(n - 1, Below(x, Pow2(n - 1)), Below(y, Pow2(n - 1)));
    }
  }

  function Max(x: int, y: int): int {
    if x <= y then y else x
  }

  function Min(x: int, y: int): int {
    if x <= y then x else y
  }

  /** Two ranges of numbers of n bits. */
  predicate AreRanges(n: nat, a: int, b: int, c: int, d: int) {
    0 <= a <= b < Pow2(n) && 0 <= c <= d < Pow2(n)
  }

  /** The greatest of h + up, h + down, low and high, where -1 stands for none. */
  function TopBit(h: nat, up: int, down: int, low: int, high: int): int {
    if up >= 0 || down >= 0 then h + Max(up, down) else Max(low, high)
  }

  /** The greatest exclusive or of a number from a to b and one from c to d, all of n bits,
      or -1 if a range is empty. The top bit is set if some two numbers differ in it. */
  function XorMost(n: nat, a: int, b: int, c: int, d: int): (m: int) {
    if a > b || c > d then -1
    else if n == 0 then 0
    else
      var h := Pow2(n - 1);
      TopBit(h, XorMost(n - 1, a, Min(b, h - 1), Max(c, h) - h, d - h),
             XorMost(n - 1, Max(a, h) - h, b - h, c, Min(d, h - 1)),
             XorMost(n - 1, a, Min(b, h - 1), c, Min(d, h - 1)),
             XorMost(n - 1, Max(a, h) - h, b - h, Max(c, h) - h, d - h))
  }

  lemma XorMostTop(n: nat, a: int, b: int, c: int, d: int) returns (h: nat, up: int, down: int, low: int, high: int)
    requires n > 0 && a <= b && c <= d
    ensures h == Pow2(n - 1) && Pow2(n) == 2 * h
    ensures up == XorMost(n - 1, a, Min(b, h - 1), Max(c, h) - h, d - h)
    ensures down == XorMost(n - 1, Max(a, h) - h, b - h, c, Min(d, h - 1))
    ensures low == XorMost(n - 1, a, Min(b, h - 1), c, Min(d, h - 1))
    ensures high == XorMost(n - 1, Max(a, h) - h, b - h, Max(c, h) - h, d - h)
    ensures XorMost(n, a, b, c, d) == TopBit(h, up, down, low, high)
    ensures (a >= h || d < h ==> up == -1) && (b < h || c >= h ==> down == -1)
    ensures (a >= h || c >= h ==> low == -1) && (b < h || d < h ==> high == -1)
  {
    h := Pow2(n - 1);
    up := XorMost(n - 1, a, Min(b, h - 1), Max(c, h) - h, d - h);
    down := XorMost(n - 1, Max(a, h) - h, b - h, c, Min(d, h - 1));
    low := XorMost(n - 1, a, Min(b, h - 1), c, Min(d, h - 1));
    high := XorMost(n - 1, Max(a, h) - h, b - h, Max(c, h) - h, d - h);
  }

  lemma XorTop(n: nat, x: int, y: int)
    requires n > 0
    ensures var h := Pow2(n - 1);
            Xor(n, x, y) == Xor(n - 1, Below(x, h), Below(y, h)) + if (x >= h) == (y >= h) then 0 else h
  {
  }

  lemma XorNone(x: int, y: int, a: int, b: int, c: int, d: int)
    ensures Pow2(0) == 1 && Xor(0, x, y) == 0 && (a <= b && c <= d ==> XorMost(0, a, b, c, d) == 0)
  {
  }

  lemma {:induction false} XorMostBounds(n: nat, a: int, b: int, c: int, d: int, x: int, y: int)
    requires AreRanges(n, a, b, c, d) && a <= x <= b && c <= y <= d
    ensures Xor(n, x, y) <= XorMost(n, a, b, c, d)
  {
    hide XorMost, Xor, Pow2;
    XorNone(x, y, a, b, c, d);
    if n > 0 {
      var h, up, down, low, high := XorMostTop(n, a, b, c, d);
      XorTop(n, x, y);
      if x < h && y < h {
        XorMostBounds(n - 1, a, Min(b, h - 1), c, Min(d, h - 1), x, y);
      } else if x < h {
        XorMostBounds(n - 1, a, Min(b, h - 1), Max(c, h) - h, d - h, x, y - h);
      } else if y < h {
        XorMostBounds(n - 1, Max(a, h) - h, b - h, c, Min(d, h - 1), x - h, y);
      } else {
        XorMostBounds(n - 1, Max(a, h) - h, b - h, Max(c, h) - h, d - h, x - h, y - h);
      }
    }
  }

  lemma {:induction false} XorMostAttained(n: nat, a: int, b: int, c: int, d: int) returns (x: int, y: int)
    requires AreRanges(n, a, b, c, d)
    ensures a <= x <= b && c <= y <= d && Xor(n, x, y) == XorMost(n, a, b, c, d)
  {
    hide XorMost, Xor, Pow2;
    XorNone(0, 0, a, b, c, d);
    x, y := 0, 0;
    if n > 0 {
      var h, up, down, low, high := XorMostTop(n, a, b, c, d);
      XorMostBounds(n, a, b, c, d, a, c);
      if up >= 0 && up >= down {
        x, y := XorMostAttained(n - 1, a, Min(b, h - 1), Max(c, h) - h, d - h);
        y := y + h;
      } else if down >= 0 {
        x, y := XorMostAttained(n - 1, Max(a, h) - h, b - h, c, Min(d, h - 1));
        x := x + h;
      } else if low >= high {
        x, y := XorMostAttained(n - 1, a, Min(b, h - 1), c, Min(d, h - 1));
      } else {
        x, y := XorMostAttained(n - 1, Max(a, h) - h, b - h, Max(c, h) - h, d - h);
        x, y := x + h, y + h;
      }
      XorTop(n, x, y);
    }
  }

  /** The least one, by complement. */
  function XorLeast(n: nat, a: int, b: int, c: int, d: int): int {
    Pow2(n) - 1 - XorMost(n, a, b, Pow2(n) - 1 - d, Pow2(n) - 1 - c)
  }

  lemma XorLeastBounds(n: nat, a: int, b: int, c: int, d: int, x: int, y: int)
    requires AreRanges(n, a, b, c, d) && a <= x <= b && c <= y <= d
    ensures XorLeast(n, a, b, c, d) <= Xor(n, x, y)
  {
    hide XorMost, Xor, Pow2;
    XorMostBounds(n, a, b, Pow2(n) - 1 - d, Pow2(n) - 1 - c, x, Pow2(n) - 1 - y);
    XorNot(n, x, y);
  }

  lemma XorLeastAttained(n: nat, a: int, b: int, c: int, d: int) returns (x: int, y: int)
    requires AreRanges(n, a, b, c, d)
    ensures a <= x <= b && c <= y <= d && Xor(n, x, y) == XorLeast(n, a, b, c, d)
  {
    hide XorMost, Xor, Pow2;
    x, y := XorMostAttained(n, a, b, Pow2(n) - 1 - d, Pow2(n) - 1 - c);
    y := Pow2(n) - 1 - y;
    XorNot(n, x, y);
  }

  function WordXor(x: Word, y: Word): Word {
    Wrap(Xor(64, Unsigned(x), Unsigned(y)))
  }

  lemma WordXorSelf(x: Word)
    ensures WordXor(x, x) == 0
  {
    XorSelf(64, Unsigned(x));
  }

  lemma WordXorNot(y: Word)
    ensures WordXor(-1 - y, y) == -1
  {
    var x: Word := -1 - y;
    Pow2At63();
    assert Unsigned(y) == Pow2(64) - 1 - Unsigned(x);
    XorNot(64, Unsigned(x), Unsigned(x));
    XorSelf(64, Unsigned(x));
  }

  /** The place of a word among all words in ascending order. */
  function Rank(x: Word): (r: nat)
    ensures r < Pow2(64)
  {
    Pow2At63();
    x + TWO63
  }

  /** Ranks differ from unsigned readings in the top bit only. */
  lemma RankOfXor(x: Word, y: Word)
    ensures Unsigned(y) < Pow2(64) && Rank(WordXor(x, y)) == Xor(64, Rank(x), Unsigned(y))
  {
    Pow2At63();
    assert Below(Rank(x), TWO63) == Below(Unsigned(x), TWO63);
  }

  // ----- Bit by bit -----

  predicate Bit(x: nat, k: nat) {
    if k == 0 then x % 2 == 1 else Bit(x / 2, k - 1)
  }

  lemma {:induction false} NoBits(k: nat)
    ensures !Bit(0, k)
  {
    if k > 0 {
      NoBits(k - 1);
    }
  }

  lemma {:induction false} AndBits(x: nat, y: nat, k: nat)
    ensures Bit(And(x, y), k) <==> Bit(x, k) && Bit(y, k)
    decreases k
  {
    if x == 0 || y == 0 {
      NoBits(k);
    } else if k > 0 {
      AndBits(x / 2, y / 2, k - 1);
      assert And(x, y) / 2 == And(x / 2, y / 2);
    }
  }

  lemma HalfBelow(x: nat, h: nat)
    ensures Below(x, 2 * h) / 2 == Below(x / 2, h) && Below(x, 2 * h) % 2 == x % 2
    ensures x >= 2 * h <==> x / 2 >= h
  {
  }

  lemma HalfOfSum(r: nat, h: nat)
    ensures (r + 2 * h) / 2 == r / 2 + h && (r + 2 * h) % 2 == r % 2
  {
  }

  lemma SameParity(x: int, y: int, u: int, v: int)
    requires x % 2 == u % 2 && y % 2 == v % 2
    ensures (x + y) % 2 == (u + v) % 2
  {
  }

  /** One more bit on top, below which u and v are what is left of x and y. */
  lemma XorHalvesStep(n: nat, h: nat, x: nat, y: nat, u: nat, v: nat)
    requires n > 1 && Pow2(n - 1) == 2 * h && Pow2(n - 2) == h && u == Below(x, 2 * h) && v == Below(y, 2 * h)
    requires Xor(n - 1, u, v) / 2 == Xor(n - 2, u / 2, v / 2) && Xor(n - 1, u, v) % 2 == (u + v) % 2
    ensures Xor(n, x, y) / 2 == Xor(n - 1, x / 2, y / 2)
    ensures Xor(n, x, y) % 2 == (x + y) % 2
  {
    hide Xor, Pow2;
    XorTop(n, x, y);
    XorTop(n - 1, x / 2, y / 2);
    HalfBelow(x, h);
    HalfBelow(y, h);
    SameParity(x, y, u, v);
    hide Below;
    var r := Xor(n - 1, u, v);
    HalfOfSum(r, h);
    assert Xor(n, x, y) == r || Xor(n, x, y) == r + 2 * h;
  }

  /** Half of an exclusive or is that of the halves, and its parity that of the sum. */
  lemma {:induction false} XorHalves(n: nat, x: nat, y: nat)
    requires n > 0 && x < Pow2(n) && y < Pow2(n)
    ensures Xor(n, x, y) / 2 == Xor(n - 1, x / 2, y / 2)
    ensures Xor(n, x, y) % 2 == (x + y) % 2
  {
    if n > 1 {
      var h := Pow2(n - 2);
      var u, v := Below(x, 2 * h), Below(y, 2 * h);
      assert Pow2(n - 1) == 2 * h && u < 2 * h && v < 2 * h;
      XorHalves(n - 1, u, v);
      hide Xor;
      XorHalvesStep(n, h, x, y, u, v);
    }
  }

  lemma LowBits(r: nat, x: nat, y: nat)
    requires r % 2 == (x + y) % 2
    ensures Bit(r, 0) <==> Bit(x, 0) != Bit(y, 0)
  {
  }

  lemma {:induction false} XorBits(n: nat, x: nat, y: nat, k: nat)
    requires x < Pow2(n) && y < Pow2(n) && k < n
    ensures Bit(Xor(n, x, y), k) <==> Bit(x, k) != Bit(y, k)
    decreases k
  {
    assert x / 2 < Pow2(n - 1) && y / 2 < Pow2(n - 1);
    hide Xor, Pow2;
    XorHalves(n, x, y);
    if k == 0 {
      LowBits(Xor(n, x, y), x, y);
    } else {
      XorBits(n - 1, x / 2, y / 2, k - 1);
    }
  }

  /** AND and XOR of words, bit by bit. */
  lemma WordBits(x: Word, y: Word, k: nat)
    requires k < 64
    ensures Bit(Unsigned(WordAnd(x, y)), k) <==> Bit(Unsigned(x), k) && Bit(Unsigned(y), k)
    ensures Bit(Unsigned(WordXor(x, y)), k) <==> Bit(Unsigned(x), k) != Bit(Unsigned(y), k)
  {
    var u, v := Unsigned(x), Unsigned(y);
    Pow2At63();
    AndBounded(u, v);
    hide And, Xor, Pow2, Bit;
    UnsignedOfWrap(And(u, v));
    UnsignedOfWrap(Xor(64, u, v));
    AndBits(u, v, k);
    XorBits(64, u, v, k);
  }

  // ----- Shifts by a count taken modulo 64 -----

  function Scale(k: Word): (p: nat)
    ensures 1 <= p <= TWO63
  {
    Pow2Bound(k % 64);
    Pow2(k % 64)
  }

  function WordShl(x: Word, k: Word): Word {
    Wrap(x * Scale(k))
  }

  /** The logical shift of SHR. */
  function WordShr(x: Word, k: Word): (r: Word) {
    Wrap(Unsigned(x) / Scale(k))
  }

  /** The arithmetic shift of a signed >> operator. */
  function WordSar(x: Word, k: Word): (r: Word) {
    Wrap(x / Scale(k))
  }
}
