/** The interval domain over signed 64-bit words, and for each operation exactly when it
    over-approximates the machine operation. */
module Intervals {
  import opened Words

  datatype Interval = Interval(lo: Word, hi: Word, isBottom: bool)
  {
    predicate IsConstant() {
      !isBottom && lo == hi
    }

    predicate Contains(v: int) {
      !isBottom && lo <= v <= hi
    }

    /** Some word is in the interval. */
    predicate Inhabited() {
      !isBottom && lo <= hi
    }

    function Join(other: Interval): Interval {
      if isBottom then other
      else if other.isBottom then this
      else Range(Min(lo, other.lo), Max(hi, other.hi))
    }

    function Add(other: Interval): Interval {
      if isBottom || other.isBottom then Bottom() else Range(Wrap(lo + other.lo), Wrap(hi + other.hi))
    }

    function Sub(other: Interval): Interval {
      if isBottom || other.isBottom then Bottom() else Range(Wrap(lo - other.hi), Wrap(hi - other.lo))
    }

    function And(other: Interval): Interval {
      if isBottom || other.isBottom then Bottom()
      else if IsConstant() && other.IsConstant() then Constant(WordAnd(lo, other.lo))
      else Range(0, Max(hi, other.hi))
    }

    function Shl(other: Interval): Interval {
      if isBottom || other.isBottom then Bottom()
      else if IsConstant() && other.IsConstant() then Constant(WordShl(lo, other.lo))
      else Range(0, WordShl(hi, other.hi))
    }

    function Shr(other: Interval): Interval {
      if isBottom || other.isBottom then Bottom()
      else if IsConstant() && other.IsConstant() then Constant(WordSar(lo, other.lo))
      else Range(0, hi)
    }
  }

  function Bottom(): Interval {
    Interval(0, 0, true)
  }

  function Top(): Interval {
    Interval(MIN, MAX, false)
  }

  function Constant(v: Word): Interval {
    Interval(v, v, false)
  }

  function Range(lo: Word, hi: Word): Interval {
    Interval(lo, hi, false)
  }

  // ----- Join -----

  ghost predicate Includes(big: Interval, small: Interval) {
    forall v :: small.Contains(v) ==> big.Contains(v)
  }

  /** Join is the least upper bound: what includes both includes the join, and only that. */
  lemma JoinLeast(a: Interval, b: Interval, c: Interval)
    requires (a.isBottom || a.Inhabited()) && (b.isBottom || b.Inhabited())
    ensures Includes(c, a.Join(b)) <==> Includes(c, a) && Includes(c, b)
  {
    if Includes(c, a) && Includes(c, b) && !a.isBottom && !b.isBottom {
      assert a.Contains(a.lo) && a.Contains(a.hi) && b.Contains(b.lo) && b.Contains(b.hi);
    }
  }

  // ----- Addition and subtraction -----

  ghost predicate SoundAdd(a: Interval, b: Interval) {
    forall x: Word, y: Word :: a.Contains(x) && b.Contains(y) ==> a.Add(b).Contains(Wrap(x + y))
  }

  ghost predicate SoundSub(a: Interval, b: Interval) {
    forall x: Word, y: Word :: a.Contains(x) && b.Contains(y) ==> a.Sub(b).Contains(Wrap(x - y))
  }

  /** A range of sums or differences that crosses a window border has a value which the
      range between its wrapped bounds does not hold. */
  lemma RangeEscapes(lo: int, hi: int) returns (z: int)
    requires lo <= hi && hi - lo <= 2 * (TWO64 - 1) && Window(lo) != Window(hi)
    ensures lo <= z <= hi && !Range(Wrap(lo), Wrap(hi)).Contains(Wrap(z))
  {
    z := Window(hi) * TWO64 - TWO63 - 1;
    assert Wrap(z) == MAX && Wrap(z + 1) == MIN && lo <= z < z + 1 <= hi;
    if Range(Wrap(lo), Wrap(hi)).Contains(MAX) {
      z := z + 1;
    }
  }

  lemma Summands(a: Interval, b: Interval, z: int) returns (x: Word, y: Word)
    requires a.Inhabited() && b.Inhabited() && a.lo + b.lo <= z <= a.hi + b.hi
    ensures a.Contains(x) && b.Contains(y) && x + y == z
  {
    x := if z - b.lo <= a.hi then z - b.lo else a.hi;
    y := z - x;
  }

  lemma Difference(a: Interval, b: Interval, z: int) returns (x: Word, y: Word)
    requires a.Inhabited() && b.Inhabited() && a.lo - b.hi <= z <= a.hi - b.lo
    ensures a.Contains(x) && b.Contains(y) && x - y == z
  {
    x := if z + b.hi <= a.hi then z + b.hi else a.hi;
    y := x - z;
  }

  /** Addition is sound exactly when the two bounds do not fall into different windows,
      and it is then tight. */
  lemma AddExact(a: Interval, b: Interval)
    requires a.Inhabited() && b.Inhabited()
    ensures SoundAdd(a, b) <==> Window(a.lo + b.lo) == Window(a.hi + b.hi)
    ensures a.Contains(a.lo) && b.Contains(b.lo) && a.Add(b).lo == Wrap(a.lo + b.lo)
    ensures a.Contains(a.hi) && b.Contains(b.hi) && a.Add(b).hi == Wrap(a.hi + b.hi)
  {
    var lo, hi := a.lo + b.lo, a.hi + b.hi;
    if Window(lo) == Window(hi) {
      forall x: Word, y: Word | a.Contains(x) && b.Contains(y) ensures a.Add(b).Contains(Wrap(x + y)) {
        WrapBetween(lo, x + y, hi);
      }
    } else {
      var z := RangeEscapes(lo, hi);
      var x, y := Summands(a, b, z);
      assert x as int + y as int == z;
    }
  }

  lemma SubExact(a: Interval, b: Interval)
    requires a.Inhabited() && b.Inhabited()
    ensures SoundSub(a, b) <==> Window(a.lo - b.hi) == Window(a.hi - b.lo)
    ensures a.Contains(a.lo) && b.Contains(b.hi) && a.Sub(b).lo == Wrap(a.lo - b.hi)
    ensures a.Contains(a.hi) && b.Contains(b.lo) && a.Sub(b).hi == Wrap(a.hi - b.lo)
  {
    var lo, hi := a.lo - b.hi, a.hi - b.lo;
    if Window(lo) == Window(hi) {
      forall x: Word, y: Word | a.Contains(x) && b.Contains(y) ensures a.Sub(b).Contains(Wrap(x - y)) {
        WrapBetween(lo, x - y, hi);
      }
    } else {
      var z := RangeEscapes(lo, hi);
      var x, y := Difference(a, b, z);
      assert x as int - y as int == z;
    }
  }

  // ----- Bitwise AND -----

  ghost predicate SoundAnd(a: Interval, b: Interval) {
    forall x: Word, y: Word :: a.Contains(x) && b.Contains(y) ==> a.And(b).Contains(WordAnd(x, y))
  }

  /** AND is sound exactly when both operands are constants or one has no negative word. */
  lemma AndExact(a: Interval, b: Interval)
    requires a.Inhabited() && b.Inhabited()
    ensures SoundAnd(a, b) <==> (a.IsConstant() && b.IsConstant()) || a.lo >= 0 || b.lo >= 0
  {
    if !(a.IsConstant() && b.IsConstant()) {
      if a.lo >= 0 || b.lo >= 0 {
        forall x: Word, y: Word | a.Contains(x) && b.Contains(y) ensures a.And(b).Contains(WordAnd(x, y)) {
          WordAndNonNegative(x, y);
        }
      } else {
        WordAndNegative(a.lo, b.lo);
        assert a.Contains(a.lo) && b.Contains(b.lo);
      }
    }
  }

  /** Constants give the constant; any other AND gives what is not negative and not above both
      upper bounds. */
  lemma AndTight(a: Interval, b: Interval)
    requires a.Inhabited() && b.Inhabited()
    ensures a.IsConstant() && b.IsConstant() ==> forall z: Word :: a.And(b).Contains(z) ==> z == WordAnd(a.lo, b.lo)
    ensures !(a.IsConstant() && b.IsConstant()) ==>
              forall z: Word :: a.And(b).Contains(z) <==> z >= 0 && (z <= a.hi || z <= b.hi)
  {
  }

  // ----- Keeping an interval across XOR -----

  ghost predicate KeptByXor(a: Interval, b: Interval) {
    forall x: Word, y: Word :: a.Contains(x) && b.Contains(y) ==> a.Contains(WordXor(x, y))
  }

  /** XOR with the words from c to d, all of one sign, stays in the interval: the least and the
      greatest result do. */
  predicate StaysWith(a: Interval, c: Word, d: Word) {
    && Rank(a.lo) <= XorLeast(64, Rank(a.lo), Rank(a.hi), Unsigned(c), Unsigned(d))
    && XorMost(64, Rank(a.lo), Rank(a.hi), Unsigned(c), Unsigned(d)) <= Rank(a.hi)
  }

  predicate XorStays(a: Interval, b: Interval) {
    && (b.hi >= 0 ==> StaysWith(a, Max(b.lo, 0), b.hi))
    && (b.lo < 0 ==> StaysWith(a, b.lo, Min(b.hi, -1)))
  }

  lemma StaysWithSound(a: Interval, c: Word, d: Word, x: Word, y: Word)
    requires a.Contains(x) && c <= y <= d && (c >= 0 || d < 0) && StaysWith(a, c, d)
    ensures a.Contains(WordXor(x, y))
  {
    hide Xor, XorMost, XorLeast, WordXor;
    Pow2At63();
    XorLeastBounds(64, Rank(a.lo), Rank(a.hi), Unsigned(c), Unsigned(d), Rank(x), Unsigned(y));
    XorMostBounds(64, Rank(a.lo), Rank(a.hi), Unsigned(c), Unsigned(d), Rank(x), Unsigned(y));
    RankOfXor(x, y);
  }

  /** If it does not stay, one of the two extreme results shows it. */
  lemma StaysWithEscapes(a: Interval, c: Word, d: Word) returns (x: Word, y: Word)
    requires a.Inhabited() && c <= d && (c >= 0 || d < 0) && !StaysWith(a, c, d)
    ensures a.Contains(x) && c <= y <= d && !a.Contains(WordXor(x, y))
  {
    hide Xor, XorMost, XorLeast, WordXor;
    Pow2At63();
    var u, v;
    if XorMost(64, Rank(a.lo), Rank(a.hi), Unsigned(c), Unsigned(d)) <= Rank(a.hi) {
      u, v := XorLeastAttained(64, Rank(a.lo), Rank(a.hi), Unsigned(c), Unsigned(d));
    } else {
      u, v := XorMostAttained(64, Rank(a.lo), Rank(a.hi), Unsigned(c), Unsigned(d));
    }
    x, y := u - TWO63, if c >= 0 then v else v - TWO64;
    RankOfXor(x, y);
  }

  /** An interval may be kept across XOR with another one exactly when both parts of the
      other, by sign, stay in it. */
  lemma XorStaysExact(a: Interval, b: Interval)
    requires a.Inhabited() && b.Inhabited()
    ensures KeptByXor(a, b) <==> XorStays(a, b)
  {
    hide StaysWith, WordXor;
    if XorStays(a, b) {
      forall x: Word, y: Word | a.Contains(x) && b.Contains(y) ensures a.Contains(WordXor(x, y)) {
        if y >= 0 {
          StaysWithSound(a, Max(b.lo, 0), b.hi, x, y);
        } else {
          StaysWithSound(a, b.lo, Min(b.hi, -1), x, y);
        }
      }
    } else if b.hi >= 0 && !StaysWith(a, Max(b.lo, 0), b.hi) {
      var x, y := StaysWithEscapes(a, Max(b.lo, 0), b.hi);
      assert b.Contains(y);
    } else {
      var x, y := StaysWithEscapes(a, b.lo, Min(b.hi, -1));
      assert b.Contains(y);
    }
  }

  // ----- Shifts -----

  ghost predicate SoundShl(a: Interval, b: Interval) {
    forall x: Word, k: Word :: a.Contains(x) && b.Contains(k) ==> a.Shl(b).Contains(WordShl(x, k))
  }

  ghost predicate SoundShr(a: Interval, b: Interval) {
    forall x: Word, k: Word :: a.Contains(x) && b.Contains(k) ==> a.Shr(b).Contains(WordShr(x, k))
  }

  lemma ScaledOrder(x: int, y: int, p: nat)
    requires x <= y
    ensures x * p <= y * p
  {
  }

  /** Somewhere between lo and hi two neighbours scale into different windows. */
  lemma {:induction false} BorderCrossed(lo: int, hi: int, p: nat) returns (x: int)
    requires lo < hi && Window(lo * p) != Window(hi * p)
    ensures lo <= x < hi && Window(x * p) != Window((x + 1) * p)
    decreases hi - lo
  {
    if lo + 1 == hi || Window(lo * p) != Window((lo + 1) * p) {
      x := lo;
    } else {
      x := BorderCrossed(lo + 1, hi, p);
    }
  }

  lemma ShlEscapes(a: Interval, k: Word) returns (x: Word)
    requires a.Inhabited() && !a.IsConstant()
    requires Window(a.lo * Scale(k)) != Window(a.hi * Scale(k)) || Wrap(a.lo * Scale(k)) < 0
    ensures a.Contains(x) && WordShl(x, k) < 0
  {
    var p := Scale(k);
    if Wrap(a.lo * p) < 0 {
      x := a.lo;
    } else {
      var y := BorderCrossed(a.lo, a.hi, p);
      assert (y + 1) * p == y * p + p;
      x := y + if Wrap(y * p) < 0 then 0 else 1;
    }
  }

  /** Shifting a range left by a known count is sound exactly when the shifted bounds fall
      into one window and the lower one is not negative there; constants always are. */
  lemma ShlExact(a: Interval, k: Word)
    requires a.Inhabited()
    ensures SoundShl(a, Constant(k)) <==>
            a.IsConstant() || (Window(a.lo * Scale(k)) == Window(a.hi * Scale(k)) && Wrap(a.lo * Scale(k)) >= 0)
  {
    var p := Scale(k);
    if !a.IsConstant() {
      if Window(a.lo * p) == Window(a.hi * p) && Wrap(a.lo * p) >= 0 {
        forall x: Word | a.Contains(x) ensures a.Shl(Constant(k)).Contains(WordShl(x, k)) {
          ScaledOrder(a.lo, x, p);
          ScaledOrder(x, a.hi, p);
          WrapBetween(a.lo * p, x * p, a.hi * p);
        }
      } else {
        var x := ShlEscapes(a, k);
        assert Constant(k).Contains(k);
      }
    }
  }

  lemma ShiftedOut(x: Word)
    ensures WordShl(x, MAX) <= 0
  {
    assert MAX % 64 == 63;
    Pow2At63();
    var h := x / 2;
    assert x == 2 * h + x % 2;
    assert x * TWO63 == h * TWO64 + (x % 2) * TWO63;
  }

  /** With a count that is not known it is sound for the range {0} only. */
  lemma ShlTopExact(a: Interval)
    requires a.Inhabited()
    ensures SoundShl(a, Top()) <==> a == Constant(0)
  {
    if a == Constant(0) {
      assert WordShl(0, MAX) == 0;
    } else {
      // the greatest count leaves nothing but the lowest bit, so no upper bound is positive;
      // by 0 a word stays as it is
      var x: Word := if a.lo != 0 then a.lo else a.hi;
      ShiftedOut(a.hi);
      assert Scale(0) == 1 && WordShl(x, 0) == x;
      assert a.Contains(x) && Top().Contains(0 as Word) && !a.Shl(Top()).Contains(x);
    }
  }

  lemma Product(q: int, p: nat)
    ensures q >= 0 && p >= 1 ==> q * p >= q
    ensures q >= 0 && p >= 2 ==> q * p >= 2 * q
    ensures q <= 0 && p >= 1 ==> q * p <= q
  {
    if q >= 0 && p >= 2 {
      assert q * p == q * (p - 2) + 2 * q;
    }
    if q <= 0 && p >= 1 {
      assert q * p == q * (p - 1) + q;
    }
  }

  lemma DivBounds(x: int, p: nat)
    requires p >= 1
    ensures x >= 0 ==> 0 <= x / p <= x
    ensures x >= 0 && p >= 2 ==> 2 * (x / p) <= x
    ensures x < 0 ==> x <= x / p < 0
  {
    var q, r := x / p, x % p;
    Product(q, p);
    Product(q + 1, p);
    assert x == q * p + r && (q + 1) * p == q * p + p;
  }

  lemma DivMonotone(u: nat, v: nat, p: nat)
    requires p >= 1 && u <= v
    ensures u / p <= v / p
  {
    var q, q' := u / p, v / p;
    assert u == q * p + u % p && v == q' * p + v % p;
    Product(q - q' - 1, p);
    assert (q - q' - 1) * p == q * p - q' * p - p;
  }

  lemma ShrBounds(x: Word, k: Word)
    ensures x >= 0 ==> 0 <= WordShr(x, k) <= x
    ensures x < 0 ==> WordShr(x, k) <= (TWO64 - 1) / Scale(k)
    ensures x < 0 && Scale(k) == 1 ==> WordShr(x, k) == x
    ensures x < 0 && Scale(k) >= 2 ==> 0 <= WordShr(x, k)
    ensures x == -1 && Scale(k) >= 2 ==> WordShr(x, k) == (TWO64 - 1) / Scale(k)
  {
    var p, u := Scale(k), Unsigned(x);
    DivBounds(u, p);
    DivMonotone(u, TWO64 - 1, p);
    if p >= 2 {
      assert 0 <= u / p < TWO63;
      assert WordShr(x, k) == u / p;
    } else {
      assert u / p == u;
    }
  }

  lemma ShrConstant(x: Word, k: Word)
    ensures WordShr(x, k) == WordSar(x, k) <==> x >= 0 || Scale(k) == 1
  {
    DivBounds(x, Scale(k));
    ShrBounds(x, k);
  }

  lemma ShrStays(a: Interval, k: Word)
    requires a.Inhabited() && !a.IsConstant() && (a.lo >= 0 || a.hi >= (TWO64 - 1) / Scale(k))
    ensures SoundShr(a, Constant(k))
  {
    hide WordShr, Scale;
    forall x: Word | a.Contains(x) ensures a.Shr(Constant(k)).Contains(WordShr(x, k)) {
      ShrBounds(x, k);
    }
  }

  lemma ShrEscapes(a: Interval, k: Word) returns (x: Word)
    requires a.Inhabited() && !a.IsConstant() && a.lo < 0 && a.hi < (TWO64 - 1) / Scale(k)
    ensures a.Contains(x) && !a.Shr(Constant(k)).Contains(WordShr(x, k))
  {
    hide WordShr, Scale;
    x := if a.hi < 0 then a.lo else -1;
    ShrBounds(x, k);
  }

  /** Shifting a range right by a known count: sound if it has no negative words, or its
      upper bound is not below the greatest shifted word, and in no other case. A constant
      is shifted as a signed number, which is right unless it is negative. */
  lemma ShrExact(a: Interval, k: Word)
    requires a.Inhabited()
    ensures SoundShr(a, Constant(k)) <==>
            a.lo >= 0 || (if a.IsConstant() then Scale(k) == 1 else a.hi >= (TWO64 - 1) / Scale(k))
  {
    if a.IsConstant() {
      ShrConstant(a.lo, k);
      assert a.Contains(a.lo) && Constant(k).Contains(k);
    } else if a.lo >= 0 || a.hi >= (TWO64 - 1) / Scale(k) {
      ShrStays(a, k);
    } else {
      var x := ShrEscapes(a, k);
      assert Constant(k).Contains(k);
    }
  }

  /** With a count that is not known, exactly the ranges without negative words are safe. */
  lemma ShrTopExact(a: Interval)
    requires a.Inhabited()
    ensures SoundShr(a, Top()) <==> a.lo >= 0
  {
    if a.lo >= 0 {
      forall x: Word, k: Word | a.Contains(x) ensures a.Shr(Top()).Contains(WordShr(x, k)) {
        ShrBounds(x, k);
      }
    } else {
      assert Scale(0) == 1 && WordShr(a.lo, 0) == a.lo;
      assert a.Contains(a.lo) && Top().Contains(0 as Word);
    }
  }

  lemma Quotient(x: int, p: nat, z: int)
    requires p >= 1
    ensures z * p <= x < z * p + p <==> z == x / p
  {
    var q := x / p;
    assert x == q * p + x % p;
    if z * p <= x < z * p + p {
      Product(z - q - 1, p);
      Product(q - z - 1, p);
      assert (z - q - 1) * p == z * p - q * p - p && (q - z - 1) * p == q * p - z * p - p;
    }
  }

  /** Constants give a constant: for SHR, the word shifted as a signed number. Any other shift
      gives what is not negative and not above its bound: for SHL, that is the greatest word
      shifted by the greatest count; for SHR, the greatest word. */
  lemma ShiftsTight(a: Interval, b: Interval)
    requires a.Inhabited() && b.Inhabited()
    ensures a.IsConstant() && b.IsConstant() ==>
              var p := Scale(b.lo);
              && (forall z: Word :: a.Shl(b).Contains(z) <==> z == WordShl(a.lo, b.lo))
              && (forall z: Word :: a.Shr(b).Contains(z) <==> z * p <= a.lo < z * p + p)
    ensures !(a.IsConstant() && b.IsConstant()) ==>
              && (forall z: Word :: a.Shl(b).Contains(z) <==> 0 <= z <= WordShl(a.hi, b.hi))
              && (forall z: Word :: a.Shr(b).Contains(z) <==> 0 <= z <= a.hi)
  {
    if a.IsConstant() && b.IsConstant() {
      var p := Scale(b.lo);
      DivBounds(a.lo, p);
      hide Scale;
      forall z: Word ensures z * p <= a.lo < z * p + p <==> z == a.lo / p {
        Quotient(a.lo, p, z);
      }
    }
  }

  // ----- Shifts by a count in a register -----

  /** The least count, modulo 64, that the interval holds: 0 if it holds a multiple of 64. */
  function LeastCount(b: Interval): (k: Word)
    ensures 0 <= k < 64
  {
    if b.lo / 64 != b.hi / 64 then 0 else b.lo % 64
  }

  lemma LeastCountBelow(b: Interval, k: Word)
    requires b.Contains(k)
    ensures LeastCount(b) <= k % 64
  {
  }

  lemma LeastCountHeld(b: Interval) returns (k: Word)
    requires b.Inhabited()
    ensures b.Contains(k) && k % 64 == LeastCount(b)
  {
    k := if b.lo / 64 != b.hi / 64 then b.hi - b.hi % 64 else b.lo;
  }

  lemma SameCount(x: Word, k: Word, n: Word)
    requires k % 64 == n % 64
    ensures WordShl(x, k) == WordShl(x, n) && WordShr(x, k) == WordShr(x, n)
  {
  }

  /** A greater count shifts further by a power of two. */
  lemma FurtherCount(k: Word, n: Word) returns (q: nat)
    requires k % 64 <= n % 64
    ensures q >= 1 && Scale(n) == Scale(k) * q && (k % 64 < n % 64 ==> q % 2 == 0 && q >= 2)
  {
    var j: nat := n % 64 - k % 64;
    q := Pow2(j);
    Pow2Sum(k % 64, j);
  }

  lemma WrapsToZero(m: int)
    ensures Wrap(m * TWO64) == 0
  {
  }

  lemma StaysMultiple(x: int, p: nat, q: nat, m: int)
    requires x * p == m * TWO64
    ensures Wrap(x * (p * q)) == 0
  {
    assert x * (p * q) == (x * p) * q == (m * q) * TWO64;
    WrapsToZero(m * q);
  }

  /** What one count shifts out altogether, greater ones do as well. */
  lemma ShlStaysOut(x: Word, k: Word, n: Word)
    requires k % 64 <= n % 64 && WordShl(x, k) == 0
    ensures WordShl(x, n) == 0
  {
    var q := FurtherCount(k, n);
    var p := Scale(k);
    hide Scale;
    StaysMultiple(x, p, q, Window(x * p));
  }

  lemma OddLeft(x: Word)
    requires x % 2 == 1
    ensures WordShl(x, MAX) == MIN
  {
    Pow2At63();
    assert MAX % 64 == 63;
    var h := x / 2;
    assert x == 2 * h + 1 && x * TWO63 == h * TWO64 + TWO63;
  }

  /** An odd word is never shifted out. */
  lemma OddStays(x: Word, k: Word)
    requires x % 2 == 1
    ensures WordShl(x, k) != 0
  {
    OddLeft(x);
    if WordShl(x, k) == 0 {
      ShlStaysOut(x, k, MAX);
    }
  }

  ghost predicate SoundShlBy(a: Interval, b: Interval) {
    forall x: Word, k: Word :: a.Contains(x) && b.Contains(k) ==> a.Shl(Top()).Contains(WordShl(x, k))
  }

  ghost predicate SoundShrBy(a: Interval, b: Interval) {
    forall x: Word, k: Word :: a.Contains(x) && b.Contains(k) ==> a.Shr(Top()).Contains(WordShr(x, k))
  }

  /** The pass takes a count in a register to be unknown. If it is in fact in the interval b, that
      is sound for a constant which the least count shifts out, and in no other case. */
  predicate ShlByFits(a: Interval, b: Interval) {
    a.IsConstant() && WordShl(a.lo, LeastCount(b)) == 0
  }

  lemma ShlTopUpper(a: Interval)
    requires a.Inhabited()
    ensures a.Shl(Top()) == Range(0, WordShl(a.hi, MAX)) && WordShl(a.hi, MAX) <= 0
  {
    ShiftedOut(a.hi);
  }

  lemma ShlOddEscapes(a: Interval, k: Word) returns (x: Word)
    requires a.Inhabited() && !a.IsConstant()
    ensures a.Contains(x) && !a.Shl(Top()).Contains(WordShl(x, k)) && (x == a.lo || x == a.lo + 1)
  {
    x := if a.lo % 2 == 1 then a.lo else a.lo + 1;
    OddStays(x, k);
    ShlTopUpper(a);
  }

  lemma ShlConstantBy(a: Interval, k: Word)
    requires a.Inhabited() && a.IsConstant()
    ensures a.Shl(Top()).Contains(WordShl(a.lo, k)) <==> WordShl(a.lo, k) == 0
  {
    ShlTopUpper(a);
    hide WordShl;
    if WordShl(a.lo, k) == 0 {
      ShlStaysOut(a.lo, k, MAX);
    }
  }

  lemma ShlByExact(a: Interval, b: Interval)
    requires a.Inhabited() && b.Inhabited()
    ensures SoundShlBy(a, b) <==> ShlByFits(a, b)
  {
    hide WordShl, LeastCount, Interval.Shl;
    var n := LeastCountHeld(b);
    if a.IsConstant() {
      SameCount(a.lo, LeastCount(b), n);
      ShlConstantBy(a, n);
      forall k: Word | b.Contains(k) && WordShl(a.lo, n) == 0 ensures a.Shl(Top()).Contains(WordShl(a.lo, k)) {
        LeastCountBelow(b, k);
        ShlStaysOut(a.lo, n, k);
        ShlConstantBy(a, k);
      }
    } else {
      var x := ShlOddEscapes(a, n);
    }
  }

  /** The same for shifting right: sound without negative words, or if no count is a multiple of
      64 and the upper bound is not below what the least one makes of the greatest negative word. */
  predicate ShrByFits(a: Interval, b: Interval) {
    a.lo >= 0 || (LeastCount(b) >= 1 && WordShr(Min(a.hi, -1), LeastCount(b)) <= a.hi)
  }

  lemma ScaleOfCount(k: Word)
    ensures Scale(k) == 1 <==> k % 64 == 0
    ensures k % 64 >= 1 ==> Scale(k) >= 2
  {
  }

  lemma DivOfProduct(m: nat, p: nat)
    requires p >= 1
    ensures (m * p) / p == m
  {
    var q := (m * p) / p;
    assert m * p == q * p + (m * p) % p;
    Product(m - q - 1, p);
    Product(q - m - 1, p);
    assert (m - q - 1) * p == m * p - q * p - p;
    assert (q - m - 1) * p == q * p - m * p - p;
  }

  lemma DivFurther(u: nat, p: nat, q: nat)
    requires p >= 1 && q >= 1
    ensures u / (p * q) <= u / p
  {
    var r := u / (p * q);
    Product(q, p);
    assert p * q >= 1 by { Product(p, q); }
    assert u >= r * (p * q) == (r * q) * p;
    DivOfProduct(r * q, p);
    DivMonotone((r * q) * p, u, p);
    Product(r, q);
  }

  /** A negative word that is shifted at all is shifted as an unsigned one. */
  lemma ShrOfNegative(x: Word, k: Word)
    requires x < 0 && k % 64 >= 1
    ensures WordShr(x, k) == (x + TWO64) / Scale(k) >= 0
  {
    ScaleOfCount(k);
    DivBounds(x + TWO64, Scale(k));
  }

  /** Lesser negative words and greater counts give lesser results. */
  lemma ShrDecreases(x: Word, k: Word, y: Word, n: Word)
    requires x <= y < 0 && 1 <= n % 64 <= k % 64
    ensures 0 <= WordShr(x, k) <= WordShr(y, n)
  {
    ShrOfNegative(x, k);
    ShrOfNegative(y, n);
    hide WordShr, Scale;
    var q := FurtherCount(n, k);
    DivFurther(x + TWO64, Scale(n), q);
    DivMonotone(x + TWO64, y + TWO64, Scale(n));
  }

  lemma ShrByZero(x: Word, k: Word)
    requires k % 64 == 0
    ensures WordShr(x, k) == x
  {
    assert Scale(k) == 1;
  }

  lemma ShrByExact(a: Interval, b: Interval)
    requires a.Inhabited() && b.Inhabited()
    ensures SoundShrBy(a, b) <==> ShrByFits(a, b)
  {
    hide WordShr, LeastCount, Scale;
    var n := LeastCountHeld(b);
    var top := Min(a.hi, -1);
    if a.lo >= 0 {
      forall x: Word, k: Word | a.Contains(x) && b.Contains(k) ensures a.Shr(Top()).Contains(WordShr(x, k)) {
        ShrBounds(x, k);
      }
    } else if LeastCount(b) == 0 {
      ShrByZero(a.lo, n);
      assert a.Contains(a.lo) && !a.Shr(Top()).Contains(WordShr(a.lo, n));
    } else {
      SameCount(top, LeastCount(b), n);
      ShrDecreases(top, n, top, n);
      if WordShr(top, n) <= a.hi {
        forall x: Word, k: Word | a.Contains(x) && b.Contains(k) ensures a.Shr(Top()).Contains(WordShr(x, k)) {
          LeastCountBelow(b, k);
          if x < 0 {
            ShrDecreases(x, k, top, n);
          } else {
            ShrBounds(x, k);
          }
        }
      } else {
        assert a.Contains(top) && !a.Shr(Top()).Contains(WordShr(top, n));
      }
    }
  }

  // ----- Shifts of a register by itself -----

  ghost predicate SoundShlItself(a: Interval) {
    forall x: Word :: a.Contains(x) ==> a.Shl(Top()).Contains(WordShl(x, x))
  }

  ghost predicate SoundShrItself(a: Interval) {
    forall x: Word :: a.Contains(x) ==> a.Shr(Top()).Contains(WordShr(x, x))
  }

  lemma ShlItselfExact(a: Interval)
    requires a.Inhabited()
    ensures SoundShlItself(a) <==> ShlByFits(a, a)
  {
    if a.IsConstant() {
      SameCount(a.lo, a.lo, LeastCount(a));
      ShlConstantBy(a, a.lo);
    } else {
      var x: Word := if a.lo % 2 == 1 then a.lo else a.lo + 1;
      OddStays(x, x);
      ShlTopUpper(a);
      assert a.Contains(x) && !a.Shl(Top()).Contains(WordShl(x, x));
    }
  }

  /** The negative words of the interval. */
  function Negatives(a: Interval): Interval {
    Range(a.lo, Min(a.hi, -1))
  }

  predicate ShrItselfFits(a: Interval) {
    a.lo >= 0 || (LeastCount(Negatives(a)) >= 1 && WordShr(a.lo, a.lo) <= a.hi)
  }

  lemma DivOfSum(m: nat, p: nat, r: nat)
    requires p >= 1 && r < p
    ensures (m * p + r) / p == m
  {
    var u := m * p + r;
    var q := u / p;
    assert u == q * p + u % p;
    Product(m - q - 1, p);
    Product(q - m - 1, p);
    assert (m - q - 1) * p == m * p - q * p - p;
    assert (q - m - 1) * p == q * p - m * p - p;
  }

  lemma HalvesCancel(u: nat, p: nat)
    requires p >= 1
    ensures (2 * u) / (2 * p) == u / p
  {
    var q, r := u / p, u % p;
    assert u == q * p + r;
    assert 2 * u == q * (2 * p) + 2 * r;
    DivOfSum(q, 2 * p, 2 * r);
  }

  /** Shifted by itself, the least of a range of negative words without a multiple of 64 gives the
      greatest result: each step up adds less than it takes by the greater count. */
  lemma ShrItselfDecreases(x: Word, y: Word)
    requires x < y < 0 && x / 64 == y / 64 && x % 64 >= 1
    ensures 0 <= WordShr(y, y) <= WordShr(x, x)
  {
    ShrOfNegative(x, x);
    ShrOfNegative(y, y);
    hide WordShr, Scale;
    var q := FurtherCount(x, y);
    var p, h := Scale(x), q / 2;
    assert q == 2 * h && h >= 1;
    assert Scale(y) == (2 * p) * h by { assert p * (2 * h) == (2 * p) * h; }
    DivFurther(y + TWO64, 2 * p, h);
    DivMonotone(y + TWO64, 2 * (x + TWO64), 2 * p);
    HalvesCancel(x + TWO64, p);
  }

  lemma ShrItselfExact(a: Interval)
    requires a.Inhabited()
    ensures SoundShrItself(a) <==> ShrItselfFits(a)
  {
    hide WordShr, Scale;
    var neg := Negatives(a);
    if a.lo >= 0 {
      forall x: Word | a.Contains(x) ensures a.Shr(Top()).Contains(WordShr(x, x)) {
        ShrBounds(x, x);
      }
    } else if LeastCount(neg) == 0 {
      var x := LeastCountHeld(neg);
      ShrByZero(x, x);
      assert a.Contains(x) && !a.Shr(Top()).Contains(WordShr(x, x));
    } else {
      ShrDecreases(a.lo, a.lo, a.lo, a.lo);
      if WordShr(a.lo, a.lo) <= a.hi {
        forall x: Word | a.Contains(x) ensures a.Shr(Top()).Contains(WordShr(x, x)) {
          if x >= 0 {
            ShrBounds(x, x);
          } else if x > a.lo {
            ShrItselfDecreases(a.lo, x);
          }
        }
      } else {
        assert a.Contains(a.lo) && !a.Shr(Top()).Contains(WordShr(a.lo, a.lo));
      }
    }
  }
}
