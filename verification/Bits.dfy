/** Bits of integers. Bit i of a negative number is bit i of its two's complement, so the unsigned
    32-bit operations of the source are these operations cut off at their width. */
module Bits {
  import opened Arithmetic

  function Pow2(n: nat): (p: nat)
    ensures p >= 1
  {
    if n == 0 then 1 else 2 * Pow2(n - 1)
  }

  function Bit(x: int, i: nat): bool
    decreases i
  {
    if i == 0 then x % 2 == 1 else Bit(x / 2, i - 1)
  }

  /** x modulo 2^k. */
  function Low(x: int, k: nat): (r: nat)
    ensures r < Pow2(k)
    decreases k
  {
    if k == 0 then 0 else x % 2 + 2 * Low(x / 2, k - 1)
  }

  // ---- bitwise operators on the low w bits ----------------------------------------------

  function And(w: nat, x: int, y: int): nat {
    if w == 0 then 0 else (if x % 2 == 1 && y % 2 == 1 then 1 else 0) + 2 * And(w - 1, x / 2, y / 2)
  }

  function Or(w: nat, x: int, y: int): nat {
    if w == 0 then 0 else (if x % 2 == 1 || y % 2 == 1 then 1 else 0) + 2 * Or(w - 1, x / 2, y / 2)
  }

  function Xor(w: nat, x: int, y: int): nat {
    if w == 0 then 0 else (if x % 2 != y % 2 then 1 else 0) + 2 * Xor(w - 1, x / 2, y / 2)
  }

  function Not(w: nat, x: int): nat {
    if w == 0 then 0 else (if x % 2 == 1 then 0 else 1) + 2 * Not(w - 1, x / 2)
  }

  function Shl(x: int, k: nat): (r: int)
    ensures x >= 0 ==> r >= x
    decreases k
  {
    if k == 0 then x else 2 * Shl(x, k - 1)
  }

  function Shr(x: int, k: nat): int
    decreases k
  {
    if k == 0 then x else Shr(x / 2, k - 1)
  }

  lemma BitZero(i: nat)
    ensures !Bit(0, i)
  {
    if i > 0 { BitZero(i - 1); }
  }

  lemma BitAnd(w: nat, x: int, y: int, i: nat)
    ensures Bit(And(w, x, y), i) == (i < w && Bit(x, i) && Bit(y, i))
  {
    if w == 0 { BitZero(i); } else if i > 0 { BitAnd(w - 1, x / 2, y / 2, i - 1); }
  }

  lemma BitOr(w: nat, x: int, y: int, i: nat)
    ensures Bit(Or(w, x, y), i) == (i < w && (Bit(x, i) || Bit(y, i)))
  {
    if w == 0 { BitZero(i); } else if i > 0 { BitOr(w - 1, x / 2, y / 2, i - 1); }
  }

  lemma BitXor(w: nat, x: int, y: int, i: nat)
    ensures Bit(Xor(w, x, y), i) == (i < w && Bit(x, i) != Bit(y, i))
  {
    if w == 0 { BitZero(i); } else if i > 0 { BitXor(w - 1, x / 2, y / 2, i - 1); }
  }

  lemma BitNot(w: nat, x: int, i: nat)
    ensures Bit(Not(w, x), i) == (i < w && !Bit(x, i))
  {
    if w == 0 { BitZero(i); } else if i > 0 { BitNot(w - 1, x / 2, i - 1); }
  }

  lemma BitShl(x: int, k: nat, i: nat)
    ensures Bit(Shl(x, k), i) == (i >= k && Bit(x, i - k))
  {
    if k > 0 && i > 0 { BitShl(x, k - 1, i - 1); }
  }

  lemma BitShr(x: int, k: nat, i: nat)
    ensures Bit(Shr(x, k), i) == Bit(x, i + k)
    decreases k
  {
    if k > 0 { BitShr(x / 2, k - 1, i); }
  }

  lemma BitLow(x: int, k: nat, i: nat)
    ensures Bit(Low(x, k), i) == (i < k && Bit(x, i))
    decreases k
  {
    if k == 0 { BitZero(i); } else if i > 0 { BitLow(x / 2, k - 1, i - 1); }
  }

  /** The mask of k ones. */
  lemma BitMask(k: nat, i: nat)
    ensures Bit(Shl(1, k) - 1, i) == (i < k)
  {
    if k == 0 {
      BitZero(i);
    } else if i > 0 {
      assert (Shl(1, k) - 1) / 2 == Shl(1, k - 1) - 1;
      BitMask(k - 1, i - 1);
    }
  }

  lemma AndZero(w: nat, x: int)
    ensures And(w, x, 0) == 0
  {
    if w > 0 { AndZero(w - 1, x / 2); }
  }

  /** Masking with k ones is reduction modulo 2^k. */
  lemma AndMask(w: nat, x: int, k: nat)
    requires k <= w
    ensures And(w, x, Shl(1, k) - 1) == Low(x, k)
  {
    if k == 0 {
      AndZero(w, x);
    } else {
      assert (Shl(1, k) - 1) / 2 == Shl(1, k - 1) - 1;
      AndMask(w - 1, x / 2, k - 1);
    }
  }

  /** The results of w-bit operations have w bits. */
  lemma WordRange(w: nat, x: int, y: int)
    ensures And(w, x, y) < Pow2(w) && Or(w, x, y) < Pow2(w)
  {
    if w > 0 { WordRange(w - 1, x / 2, y / 2); }
  }

  lemma OrRange(w: nat, x: nat, y: nat, k: nat)
    requires x < Pow2(k) && y < Pow2(k)
    ensures Or(w, x, y) < Pow2(k)
  {
    if w > 0 {
      if k > 0 { OrRange(w - 1, x / 2, y / 2, k - 1); } else { OrRange(w - 1, x / 2, y / 2, k); }
    }
  }

  lemma ShlIsProduct(x: int, k: nat)
    ensures Shl(x, k) == x * Pow2(k)
    decreases k
  {
    if k > 0 {
      ShlIsProduct(x, k - 1);
      var p := Pow2(k - 1);
      assert 2 * (x * p) == x * (2 * p);
    }
  }

  /** Dividing by 2 and then by p. */
  lemma HalfDivision(x: int, p: nat)
    requires p > 0
    ensures x / (2 * p) == (x / 2) / p && x % (2 * p) == x % 2 + 2 * ((x / 2) % p)
  {
    var q, r := (x / 2) / p, (x / 2) % p;
    assert x / 2 == q * p + r;
    Distribute(2, q * p, r);
    assert 2 * (q * p) == q * (2 * p);
    DivModUnique(x, 2 * p, q, 2 * r + x % 2);
  }

  lemma ShrIsQuotient(x: int, k: nat)
    ensures Shr(x, k) == x / Pow2(k)
    decreases k
  {
    if k > 0 {
      ShrIsQuotient(x / 2, k - 1);
      HalfDivision(x, Pow2(k - 1));
    }
  }

  /** Testing one bit. */
  lemma TestBit(w: nat, x: int, k: nat)
    requires k < w
    ensures And(w, x, Shl(1, k)) == if Bit(x, k) then Shl(1, k) else 0
    ensures Shl(1, k) > 0
  {
    if k == 0 {
      AndZero(w - 1, x / 2);
    } else {
      assert Shl(1, k) == 2 * Shl(1, k - 1);
      TestBit(w - 1, x / 2, k - 1);
    }
  }

  /** x above k low bits y. */
  lemma BitJoin(x: int, k: nat, y: int, i: nat)
    requires 0 <= y < Pow2(k)
    ensures Bit(Shl(x, k) + y, i) == if i < k then Bit(y, i) else Bit(x, i - k)
    decreases k
  {
    if k > 0 {
      assert (Shl(x, k) + y) / 2 == Shl(x, k - 1) + y / 2;
      if i > 0 { BitJoin(x, k - 1, y / 2, i - 1); }
    }
  }

  lemma BitHigh(x: int, k: nat, i: nat)
    requires 0 <= x < Pow2(k) && i >= k
    ensures !Bit(x, i)
  {
    if k == 0 { BitZero(i); } else { BitHigh(x / 2, k - 1, i - 1); }
  }

  /** Numbers below 2^k are equal when their k low bits are. */
  lemma SameBits(x: int, y: int, k: nat)
    requires 0 <= x < Pow2(k) && 0 <= y < Pow2(k)
    requires forall i | 0 <= i < k :: Bit(x, i) == Bit(y, i)
    ensures x == y
  {
    if k > 0 {
      assert Bit(x, 0) == Bit(y, 0);
      forall i | 0 <= i < k - 1 ensures Bit(x / 2, i) == Bit(y / 2, i) {
        assert Bit(x, i + 1) == Bit(y, i + 1);
      }
      SameBits(x / 2, y / 2, k - 1);
    }
  }

  lemma LowIsMod(x: int, k: nat)
    ensures Low(x, k) == x % Pow2(k)
    decreases k
  {
    if k > 0 {
      LowIsMod(x / 2, k - 1);
      HalfDivision(x, Pow2(k - 1));
    }
  }

  lemma LowId(x: int, k: nat)
    requires 0 <= x < Pow2(k)
    ensures Low(x, k) == x
    decreases k
  {
    if k > 0 { LowId(x / 2, k - 1); }
  }

  lemma LowNone(x: int)
    ensures Low(x, 0) == 0
  {
  }

  lemma LowHalf(x: int, k: nat)
    requires k > 0
    ensures Low(x, k) == x % 2 + 2 * Low(x / 2, k - 1)
  {
  }

  lemma LowLow(x: int, k: nat, j: nat)
    requires j <= k
    ensures Low(Low(x, k), j) == Low(x, j)
    decreases j
  {
    if j > 0 { LowLow(x / 2, k - 1, j - 1); }
  }

  /** One more bit. */
  lemma LowNext(x: int, k: nat)
    ensures Low(x, k + 1) == Low(x, k) + if Bit(x, k) then Pow2(k) else 0
    decreases k
  {
    if k > 0 { LowNext(x / 2, k - 1); }
  }

  lemma DoubleProduct(x: int, y: int)
    ensures (2 * x) * y == 2 * (x * y)
  {
  }

  lemma PowSum(a: nat, b: nat)
    ensures Pow2(a + b) == Pow2(a) * Pow2(b)
  {
    if a > 0 {
      PowSum(a - 1, b);
      DoubleProduct(Pow2(a - 1), Pow2(b));
    }
  }

  lemma Powers()
    ensures Pow2(4) == 16 && Pow2(8) == 0x100 && Pow2(16) == 0x1_0000 && Pow2(32) == 0x1_0000_0000
  {
    PowSum(4, 4); PowSum(8, 8); PowSum(16, 16);
    assert Pow2(2) == 4;
    assert Pow2(4) == 16;
  }

  lemma PowNext(k: nat)
    ensures Pow2(k + 1) == 2 * Pow2(k)
  {
  }

  lemma PowGrows(j: nat, k: nat)
    requires j < k
    ensures Pow2(j) < Pow2(k)
  {
    if j > 0 { PowGrows(j - 1, k - 1); }
  }

  // ---- the carry and the borrow into each bit -------------------------------------------

  function Majority(a: bool, b: bool, c: bool): bool {
    (a && b) || (a && c) || (b && c)
  }

  /** The carry into bit i of d + s + c. */
  function Carry(d: int, s: int, c: bool, i: nat): bool
    decreases i
  {
    if i == 0 then c
    else Carry(d / 2, s / 2, Majority(d % 2 == 1, s % 2 == 1, c), i - 1)
  }

  /** The borrow into bit i of d - s - b. */
  function Borrow(d: int, s: int, b: bool, i: nat): bool
    decreases i
  {
    if i == 0 then b
    else Borrow(d / 2, s / 2, Majority(d % 2 == 0, s % 2 == 1, b), i - 1)
  }

  function Num(b: bool): int {
    if b then 1 else 0
  }

  /** The lowest bit of a sum, and the sum of what is left. */
  lemma HalfSum(d: int, s: int, c: bool)
    ensures var m := Majority(d % 2 == 1, s % 2 == 1, c);
      && (d + s + Num(c)) / 2 == d / 2 + s / 2 + Num(m)
      && (d + s + Num(c)) % 2 + 2 * Num(m) == d % 2 + s % 2 + Num(c)
  {
  }

  lemma HalfDifference(d: int, s: int, b: bool)
    ensures var m := Majority(d % 2 == 0, s % 2 == 1, b);
      && (d - s - Num(b)) / 2 == d / 2 - s / 2 - Num(m)
      && (d - s - Num(b)) % 2 - 2 * Num(m) == d % 2 - s % 2 - Num(b)
  {
  }

  /** A sum bit is the exclusive or of both bits and the carry into it. */
  lemma SumBit(d: int, s: int, c: bool, i: nat)
    ensures Bit(d + s + Num(c), i) == ((Bit(d, i) != Bit(s, i)) != Carry(d, s, c, i))
    ensures Carry(d, s, c, i + 1) == Majority(Bit(d, i), Bit(s, i), Carry(d, s, c, i))
    decreases i
  {
    if i > 0 {
      var m := Majority(d % 2 == 1, s % 2 == 1, c);
      HalfSum(d, s, c);
      SumBit(d / 2, s / 2, m, i - 1);
    }
  }

  lemma DifferenceBit(d: int, s: int, b: bool, i: nat)
    ensures Bit(d - s - Num(b), i) == ((Bit(d, i) != Bit(s, i)) != Borrow(d, s, b, i))
    ensures Borrow(d, s, b, i + 1) == Majority(!Bit(d, i), Bit(s, i), Borrow(d, s, b, i))
    decreases i
  {
    if i > 0 {
      var m := Majority(d % 2 == 0, s % 2 == 1, b);
      HalfDifference(d, s, b);
      DifferenceBit(d / 2, s / 2, m, i - 1);
    }
  }

  /** The carry into bit i says that the low i bits overflow. */
  lemma CarryMeans(d: int, s: int, c: bool, i: nat)
    ensures Low(d, i) + Low(s, i) + Num(c) == Low(d + s + Num(c), i) + if Carry(d, s, c, i) then Pow2(i) else 0
    ensures Carry(d, s, c, i) <==> Low(d, i) + Low(s, i) + Num(c) >= Pow2(i)
    decreases i
  {
    hide Low, Majority;
    LowNone(d); LowNone(s); LowNone(d + s + Num(c));
    if i > 0 {
      var m := Majority(d % 2 == 1, s % 2 == 1, c);
      HalfSum(d, s, c);
      LowHalf(d, i); LowHalf(s, i); LowHalf(d + s + Num(c), i);
      CarryMeans(d / 2, s / 2, m, i - 1);
    }
  }

  /** The borrow into bit i says that the low i bits of d are below those of s. */
  lemma BorrowMeans(d: int, s: int, b: bool, i: nat)
    ensures Low(d, i) - Low(s, i) - Num(b) == Low(d - s - Num(b), i) - if Borrow(d, s, b, i) then Pow2(i) else 0
    ensures Borrow(d, s, b, i) <==> Low(d, i) < Low(s, i) + Num(b)
    decreases i
  {
    hide Low, Majority;
    LowNone(d); LowNone(s); LowNone(d - s - Num(b));
    if i > 0 {
      var m := Majority(d % 2 == 0, s % 2 == 1, b);
      HalfDifference(d, s, b);
      LowHalf(d, i); LowHalf(s, i); LowHalf(d - s - Num(b), i);
      BorrowMeans(d / 2, s / 2, m, i - 1);
    }
  }

  /** The carry chain of the source: bit i of (s & d) | (~res & (s | d)) is the carry out of bit i. */
  lemma CarryChain(w: nat, d: int, s: int, c: bool, res: int, i: nat)
    requires i < w && Bit(res, i) == Bit(d + s + Num(c), i)
    ensures Bit(Or(w, And(w, s, d), And(w, Not(w, res), Or(w, s, d))), i) == Carry(d, s, c, i + 1)
  {
    BitOr(w, And(w, s, d), And(w, Not(w, res), Or(w, s, d)), i);
    BitAnd(w, s, d, i);
    BitAnd(w, Not(w, res), Or(w, s, d), i);
    BitNot(w, res, i);
    BitOr(w, s, d, i);
    SumBit(d, s, c, i);
  }

  /** The borrow chain: bit i of (res & (~d | s)) | (~d & s) is the borrow out of bit i. */
  lemma BorrowChain(w: nat, d: int, s: int, b: bool, res: int, i: nat)
    requires i < w && Bit(res, i) == Bit(d - s - Num(b), i)
    ensures Bit(Or(w, And(w, res, Or(w, Not(w, d), s)), And(w, Not(w, d), s)), i) == Borrow(d, s, b, i + 1)
  {
    BitOr(w, And(w, res, Or(w, Not(w, d), s)), And(w, Not(w, d), s), i);
    BitAnd(w, res, Or(w, Not(w, d), s), i);
    BitOr(w, Not(w, d), s, i);
    BitNot(w, d, i);
    BitAnd(w, Not(w, d), s, i);
    DifferenceBit(d, s, b, i);
  }

  // ---- rotation of a ring of n bits -----------------------------------------------------

  /** One step to the left: the top bit becomes the lowest one. */
  function LeftOne(n: nat, v: int): int
    requires n > 0
  {
    Low(2 * v, n) + Num(Bit(v, n - 1))
  }

  function RightOne(n: nat, v: int): int
    requires n > 0
  {
    v / 2 + if v % 2 == 1 then Pow2(n - 1) else 0
  }

  function Left(n: nat, v: int, k: nat): int
    requires n > 0
    decreases k
  {
    if k == 0 then v else LeftOne(n, Left(n, v, k - 1))
  }

  function Right(n: nat, v: int, k: nat): int
    requires n > 0
    decreases k
  {
    if k == 0 then v else RightOne(n, Right(n, v, k - 1))
  }

  lemma LeftOneBit(n: nat, v: int, i: nat)
    requires i < n && 0 <= v < Pow2(n)
    ensures 0 <= LeftOne(n, v) < Pow2(n)
    ensures Bit(LeftOne(n, v), i) == Bit(v, if i == 0 then n - 1 else i - 1)
  {
    assert Low(2 * v, n) == 2 * Low(v, n - 1);
    if i > 0 {
      assert LeftOne(n, v) / 2 == Low(v, n - 1);
      BitLow(v, n - 1, i - 1);
    }
  }

  lemma TopBit(n: nat, x: int, b: bool, i: nat)
    requires i < n && 0 <= x < Pow2(n - 1)
    ensures Bit(x + if b then Pow2(n - 1) else 0, i) == if i == n - 1 then b else Bit(x, i)
    decreases n
  {
    if n > 1 && i > 0 {
      TopBit(n - 1, x / 2, b, i - 1);
    }
  }

  lemma RightOneBit(n: nat, v: int, i: nat)
    requires i < n && 0 <= v < Pow2(n)
    ensures 0 <= RightOne(n, v) < Pow2(n)
    ensures Bit(RightOne(n, v), i) == Bit(v, if i == n - 1 then 0 else i + 1)
  {
    TopBit(n, v / 2, v % 2 == 1, i);
    if i == n - 1 { BitHigh(v / 2, n - 1, i); }
  }

  /** Position j around the ring. */
  function Around(n: nat, j: int): nat
    requires n > 0
  {
    j % n
  }

  lemma TurnBack(i: nat, k: nat, n: nat)
    requires i < n
    ensures Around(n, (if i == 0 then n - 1 else i - 1) - (k - 1)) == Around(n, i - k)
    ensures k == 0 ==> Around(n, i - k) == i
  {
    var q, r := (i - k) / n, (i - k) % n;
    assert i - k == q * n + r;
    DivModUnique(i - k + n, n, q + 1, r);
  }

  /** After k steps to the left, bit i is the original bit i - k around the ring. */
  lemma LeftBit(n: nat, v: int, k: nat, i: nat)
    requires i < n && 0 <= v < Pow2(n)
    ensures 0 <= Left(n, v, k) < Pow2(n)
    ensures Bit(Left(n, v, k), i) == Bit(v, Around(n, i - k))
    decreases k
  {
    hide Pow2, Bit, Low, LeftOne;
    TurnBack(i, k, n);
    hide Around;
    if k > 0 {
      LeftBit(n, v, k - 1, if i == 0 then n - 1 else i - 1);
      LeftOneBit(n, Left(n, v, k - 1), i);
    }
  }

  lemma TurnOn(i: nat, k: nat, n: nat)
    requires i < n
    ensures Around(n, (if i == n - 1 then 0 else i + 1) + (k - 1)) == Around(n, i + k)
    ensures k == 0 ==> Around(n, i + k) == i
  {
    var q, r := (i + k) / n, (i + k) % n;
    assert i + k == q * n + r;
    DivModUnique(i + k - n, n, q - 1, r);
  }

  lemma RightBit(n: nat, v: int, k: nat, i: nat)
    requires i < n && 0 <= v < Pow2(n)
    ensures 0 <= Right(n, v, k) < Pow2(n)
    ensures Bit(Right(n, v, k), i) == Bit(v, Around(n, i + k))
    decreases k
  {
    hide Pow2, Bit, RightOne;
    TurnOn(i, k, n);
    hide Around;
    if k > 0 {
      RightBit(n, v, k - 1, if i == n - 1 then 0 else i + 1);
      RightOneBit(n, Right(n, v, k - 1), i);
    }
  }

  /** One step to the right undoes one step to the left, and the other way round. */
  lemma LeftThenRight(n: nat, v: int)
    requires n > 0 && 0 <= v < Pow2(n)
    ensures RightOne(n, LeftOne(n, v)) == v
  {
    hide Pow2, Bit, Low, LeftOne, RightOne;
    LeftOneBit(n, v, 0);
    var l := LeftOne(n, v);
    RightOneBit(n, l, 0);
    forall i: nat | i < n ensures Bit(RightOne(n, l), i) == Bit(v, i) {
      RightOneBit(n, l, i);
      LeftOneBit(n, v, if i == n - 1 then 0 else i + 1);
    }
    SameBits(RightOne(n, l), v, n);
  }

  lemma RightThenLeft(n: nat, v: int)
    requires n > 0 && 0 <= v < Pow2(n)
    ensures LeftOne(n, RightOne(n, v)) == v
  {
    hide Pow2, Bit, Low, LeftOne, RightOne;
    RightOneBit(n, v, 0);
    var r := RightOne(n, v);
    LeftOneBit(n, r, 0);
    forall i: nat | i < n ensures Bit(LeftOne(n, r), i) == Bit(v, i) {
      LeftOneBit(n, r, i);
      RightOneBit(n, v, if i == 0 then n - 1 else i - 1);
    }
    SameBits(LeftOne(n, r), v, n);
  }

  lemma RightFirst(n: nat, v: int, k: nat)
    requires n > 0 && k > 0
    ensures Right(n, v, k) == Right(n, RightOne(n, v), k - 1)
    decreases k
  {
    if k > 1 { RightFirst(n, v, k - 1); }
  }

  lemma LeftFirst(n: nat, v: int, k: nat)
    requires n > 0 && k > 0
    ensures Left(n, v, k) == Left(n, LeftOne(n, v), k - 1)
    decreases k
  {
    if k > 1 { LeftFirst(n, v, k - 1); }
  }

  /** k steps to the right undo k steps to the left, and the other way round. */
  lemma {:induction false} RotationUndone(n: nat, v: int, k: nat)
    requires n > 0 && 0 <= v < Pow2(n)
    ensures Right(n, Left(n, v, k), k) == v && Left(n, Right(n, v, k), k) == v
    decreases k
  {
    if k > 0 {
      RightFirst(n, Left(n, v, k), k);
      LeftFirst(n, Right(n, v, k), k);
      LeftBit(n, v, k - 1, 0);
      RightBit(n, v, k - 1, 0);
      LeftThenRight(n, Left(n, v, k - 1));
      RightThenLeft(n, Right(n, v, k - 1));
      RotationUndone(n, v, k - 1);
    }
  }
}
