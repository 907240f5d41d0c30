/** The arithmetic primitives of prim_ops.c. Every operation computes its flags as the source
    does (carry and borrow chains, closed-form rotates) on 32-bit words; its contract says in
    plain integers what result and flags mean. */
module Alu {
  import opened Arithmetic
  import opened Bits

  datatype Width = Byte | Word | Long {
    function Bits(): (n: nat)
      ensures 8 <= n <= 32
    {
      match this
      case Byte => 8
      case Word => 16
      case Long => 32
    }
  }

  // ---- parity ---------------------------------------------------------------------------

  const PARITY_TAB: seq<int> := [
    0x96696996, 0x69969669, 0x69969669, 0x96696996,
    0x69969669, 0x96696996, 0x96696996, 0x69969669]

  /** The number of ones in x. */
  function Ones(x: nat): nat {
    if x == 0 then 0 else x % 2 + Ones(x / 2)
  }

  function ParityTab(j: nat): int
    requires j < 8
  {
    PARITY_TAB[j]
  }

  predicate Parity(x: nat)
    requires x < 0x100
  {
    And(32, Shr(ParityTab(x / 32), x % 32), 1) == 0
  }

  lemma OnesJoin(x: nat, k: nat, y: nat)
    requires y < Pow2(k)
    ensures Ones(Shl(x, k) + y) == Ones(x) + Ones(y)
    decreases k
  {
    if k > 0 {
      assert (Shl(x, k) + y) / 2 == Shl(x, k - 1) + y / 2;
      OnesJoin(x, k - 1, y / 2);
    }
  }

  /** The word of 2^k bits whose bit i says whether i has an odd number of ones (inverted by odd):
      each half is the inverse of the other. */
  function ParityWord(k: nat, odd: bool): (r: nat)
    decreases k
  {
    if k == 0 then (if odd then 1 else 0)
    else Shl(ParityWord(k - 1, !odd), Pow2(k - 1)) + ParityWord(k - 1, odd)
  }

  lemma JoinRange(x: nat, j: nat, k: nat, y: nat)
    requires x < Pow2(j) && y < Pow2(k)
    ensures Shl(x, k) + y < Pow2(j + k)
    decreases k
  {
    if k > 0 {
      assert (Shl(x, k) + y) / 2 == Shl(x, k - 1) + y / 2;
      JoinRange(x, j, k - 1, y / 2);
    }
  }

  lemma ParityWordRange(k: nat, odd: bool)
    ensures ParityWord(k, odd) < Pow2(Pow2(k))
    decreases k
  {
    if k > 0 {
      ParityWordRange(k - 1, odd);
      ParityWordRange(k - 1, !odd);
      JoinRange(ParityWord(k - 1, !odd), Pow2(k - 1), Pow2(k - 1), ParityWord(k - 1, odd));
    }
  }

  lemma ParityWordHalves(k: nat, odd: bool, i: nat)
    requires k > 0 && i < Pow2(k)
    ensures Bit(ParityWord(k, odd), i)
         == if i < Pow2(k - 1) then Bit(ParityWord(k - 1, odd), i)
            else Bit(ParityWord(k - 1, !odd), i - Pow2(k - 1))
  {
    hide Bit;
    ParityWordRange(k - 1, odd);
    BitJoin(ParityWord(k - 1, !odd), Pow2(k - 1), ParityWord(k - 1, odd), i);
  }

  /** Setting bit k adds a one. */
  lemma OnesOfUpper(i: nat, k: nat)
    requires Pow2(k) <= i < 2 * Pow2(k)
    ensures Ones(i) == Ones(i - Pow2(k)) + 1
  {
    ShlIsProduct(1, k);
    OnesJoin(1, k, i - Pow2(k));
    assert Ones(1) == 1;
  }

  lemma ParityBit(odd: bool)
    ensures Bit(ParityWord(0, odd), 0) == ((Ones(0) % 2 == 1) != odd)
  {
  }

  lemma {:induction false} ParityWordBit(k: nat, odd: bool, i: nat)
    requires i < Pow2(k)
    ensures Bit(ParityWord(k, odd), i) == ((Ones(i) % 2 == 1) != odd)
    decreases k
  {
    hide Bit, Ones, ParityWord;
    if k == 0 {
      ParityBit(odd);
    } else {
      ParityWordHalves(k, odd, i);
      var half := Pow2(k - 1);
      if i < half {
        ParityWordBit(k - 1, odd, i);
      } else {
        ParityWordBit(k - 1, !odd, i - half);
        OnesOfUpper(i, k - 1);
      }
    }
  }

  lemma ParityWordSum(k: nat, odd: bool, p: nat)
    requires k > 0 && p == Pow2(Pow2(k - 1))
    ensures ParityWord(k, odd) == ParityWord(k - 1, !odd) * p + ParityWord(k - 1, odd)
  {
    ShlIsProduct(ParityWord(k - 1, !odd), Pow2(k - 1));
  }

  lemma ParityPowers()
    ensures Pow2(Pow2(0)) == 2 && Pow2(Pow2(1)) == 4 && Pow2(Pow2(2)) == 16 && Pow2(Pow2(3)) == 0x100
    ensures Pow2(Pow2(4)) == 0x1_0000
    ensures ParityWord(0, false) == 0 && ParityWord(0, true) == 1
  {
    Powers();
    assert Pow2(0) == 1 && Pow2(1) == 2 && Pow2(2) == 4 && Pow2(3) == 8;
  }

  lemma ParityWords()
    ensures ParityWord(5, false) == 0x96696996 && ParityWord(5, true) == 0x69969669
  {
    hide ParityWord, Pow2;
    ParityPowers();
    ParityWordSum(1, false, 2); ParityWordSum(1, true, 2);
    ParityWordSum(2, false, 4); ParityWordSum(2, true, 4);
    ParityWordSum(3, false, 16); ParityWordSum(3, true, 16);
    ParityWordSum(4, false, 0x100); ParityWordSum(4, true, 0x100);
    ParityWordSum(5, false, 0x1_0000); ParityWordSum(5, true, 0x1_0000);
  }

  lemma SmallOnes(j: nat)
    requires j < 8
    ensures Ones(j) % 2 == 1 <==> j == 1 || j == 2 || j == 4 || j == 7
  {
  }

  lemma ParityTable(j: nat)
    requires j < 8
    ensures ParityTab(j) == ParityWord(5, Ones(j) % 2 == 1)
  {
    hide ParityWord, Ones;
    ParityWords();
    SmallOnes(j);
    if j == 1 || j == 2 || j == 4 || j == 7 {
      assert ParityTab(j) == 0x69969669;
    } else {
      assert ParityTab(j) == 0x96696996;
    }
  }

  lemma Power5()
    ensures Pow2(5) == 32
  {
  }

  lemma OnesOfParts(x: nat)
    ensures Ones(x) == Ones(x / 32) + Ones(x % 32)
  {
    hide Pow2, Shl, Ones;
    Power5();
    ShlIsProduct(x / 32, 5);
    OnesJoin(x / 32, 5, x % 32);
  }

  lemma LowestBit(x: int)
    ensures And(32, x, 1) == Num(Bit(x, 0))
  {
    TestBit(32, x, 0);
  }

  /** The table lookup says whether x has an even number of ones. */
  lemma ParityIsEven(x: nat)
    requires x < 0x100
    ensures Parity(x) <==> Ones(x) % 2 == 0
  {
    hide Ones, Bit, ParityWord, Pow2, Shr, Shl, And, ParityTab;
    var j, i := x / 32, x % 32;
    Power5();
    ParityTable(j);
    ParityWordBit(5, Ones(j) % 2 == 1, i);
    OnesOfParts(x);
    var word := ParityTab(j);
    LowestBit(Shr(word, i));
    BitShr(word, i, 0);
  }

  // ---- what the flags mean --------------------------------------------------------------

  datatype Flags = Flags(cf: bool, pf: bool, af: bool, zf: bool, sf: bool, of: bool)

  /** x read as a two's complement number of n bits. */
  function Signed(n: nat, x: int): int
    requires n > 0
  {
    if x < Pow2(n - 1) then x else x - Pow2(n)
  }

  predicate Representable(n: nat, x: int)
    requires n > 0
  {
    0 - Pow2(n - 1) <= x < Pow2(n - 1)
  }

  /** Zero, sign and parity describe the result. */
  predicate DescribesResult(n: nat, r: nat, f: Flags)
    requires n > 0
  {
    && (f.zf <==> r == 0)
    && (f.sf <==> Signed(n, r) < 0)
    && (f.pf <==> Ones(r % 0x100) % 2 == 0)
  }

  /** Carry, overflow and adjust of the sum d + s + c. */
  predicate DescribesSum(n: nat, d: nat, s: nat, c: bool, f: Flags)
    requires n > 0
  {
    && (f.cf <==> d + s + Num(c) >= Pow2(n))
    && (f.of <==> !Representable(n, Signed(n, d) + Signed(n, s) + Num(c)))
    && (f.af <==> d % 16 + s % 16 + Num(c) >= 16)
  }

  /** Carry, overflow and adjust of the difference d - s - b. */
  predicate DescribesDifference(n: nat, d: nat, s: nat, b: bool, f: Flags)
    requires n > 0
  {
    && (f.cf <==> d < s + Num(b))
    && (f.of <==> !Representable(n, Signed(n, d) - Signed(n, s) - Num(b)))
    && (f.af <==> d % 16 < s % 16 + Num(b))
  }

  // ---- the formulas of the source -------------------------------------------------------

  function Xor2(x: int): bool {
    And(32, Xor(32, x, Shr(x, 1)), 1) != 0
  }

  function CarryWord(d: int, s: int, res: int): int {
    Or(32, And(32, s, d), And(32, Not(32, res), Or(32, s, d)))
  }

  function BorrowWord(d: int, s: int, res: int): int {
    Or(32, And(32, res, Or(32, Not(32, d), s)), And(32, Not(32, d), s))
  }

  lemma Xor2Bits(x: int, k: nat)
    ensures Xor2(Shr(x, k)) <==> Bit(x, k) != Bit(x, k + 1)
  {
    hide And, Xor, Shr, Bit;
    LowestBit(Xor(32, Shr(x, k), Shr(Shr(x, k), 1)));
    BitXor(32, Shr(x, k), Shr(Shr(x, k), 1), 0);
    BitShr(Shr(x, k), 1, 0);
    BitShr(x, k, 0);
    BitShr(x, k, 1);
  }

  /** A number of n bits is its n - 1 low bits and its sign. */
  lemma SignSplit(n: nat, x: int)
    requires n > 0 && 0 <= x < Pow2(n)
    ensures x == Low(x, n - 1) + if Bit(x, n - 1) then Pow2(n - 1) else 0
    ensures Signed(n, x) == Low(x, n - 1) - if Bit(x, n - 1) then Pow2(n - 1) else 0
    ensures Pow2(n) == 2 * Pow2(n - 1)
  {
    hide Bit, Low;
    LowNext(x, n - 1);
    LowId(x, n);
  }

  /** The carries into and out of the sign bit differ exactly on signed overflow. */
  lemma SignedSumOverflow(n: nat, d: nat, s: nat, c: bool)
    requires n > 0 && d < Pow2(n) && s < Pow2(n)
    ensures Carry(d, s, c, n - 1) != Carry(d, s, c, n)
        <==> !Representable(n, Signed(n, d) + Signed(n, s) + Num(c))
    ensures Carry(d, s, c, n) <==> d + s + Num(c) >= Pow2(n)
  {
    hide Bit, Low, Carry, Signed, Pow2;
    SignSplit(n, d);
    SignSplit(n, s);
    CarryMeans(d, s, c, n - 1);
    CarryMeans(d, s, c, n);
    LowId(d, n);
    LowId(s, n);
  }

  lemma SignedDifferenceOverflow(n: nat, d: nat, s: nat, b: bool)
    requires n > 0 && d < Pow2(n) && s < Pow2(n)
    ensures Borrow(d, s, b, n - 1) != Borrow(d, s, b, n)
        <==> !Representable(n, Signed(n, d) - Signed(n, s) - Num(b))
    ensures Borrow(d, s, b, n) <==> d < s + Num(b)
  {
    hide Bit, Low, Borrow, Signed, Pow2;
    SignSplit(n, d);
    SignSplit(n, s);
    BorrowMeans(d, s, b, n - 1);
    BorrowMeans(d, s, b, n);
    LowId(d, n);
    LowId(s, n);
  }

  lemma NibbleCarry(d: nat, s: nat, c: bool)
    ensures Carry(d, s, c, 4) <==> d % 16 + s % 16 + Num(c) >= 16
    ensures Borrow(d, s, c, 4) <==> d % 16 < s % 16 + Num(c)
  {
    hide Low, Carry, Borrow, Pow2;
    CarryMeans(d, s, c, 4);
    BorrowMeans(d, s, c, 4);
    Powers();
    LowIsMod(d, 4);
    LowIsMod(s, 4);
  }

  /** The carry out of 32 bits from two 16-bit halves. */
  function HighHalf(d: int, s: int, c: bool): int {
    var lo := Low(And(32, d, 0xFFFF) + And(32, s, 0xFFFF) + Num(c), 32);
    Low(Shr(lo, 16) + Shr(d, 16) + Shr(s, 16), 32)
  }

  lemma SeventeenthBit(x: nat)
    requires x < 0x2_0000
    ensures Bit(x, 16) <==> x >= 0x1_0000
  {
    hide Low, Bit, Pow2;
    Powers();
    LowNext(x, 16);
    PowNext(16);
    LowId(x, 17);
  }

  lemma HighHalfCarry(d: nat, s: nat, c: bool)
    requires d < Pow2(32) && s < Pow2(32)
    ensures And(32, HighHalf(d, s, c), 0x10000) != 0 <==> d + s + Num(c) >= Pow2(32)
  {
    hide And, Low, Shr, Shl, Bit, Pow2;
    Powers();
    ShlIsProduct(1, 16);
    AndMask(32, d, 16);
    AndMask(32, s, 16);
    LowIsMod(d, 16);
    LowIsMod(s, 16);
    var lo := d % 0x10000 + s % 0x10000 + Num(c);
    LowId(lo, 32);
    ShrIsQuotient(lo, 16);
    ShrIsQuotient(d, 16);
    ShrIsQuotient(s, 16);
    var hi := lo / 0x10000 + d / 0x10000 + s / 0x10000;
    assert hi == (d + s + Num(c)) / 0x10000;
    LowId(hi, 32);
    TestBit(32, hi, 16);
    SeventeenthBit(hi);
  }

  lemma EighthBit(x: int)
    ensures And(32, x, 8) != 0 <==> Bit(x, 3)
  {
    hide And, Bit;
    TestBit(32, x, 3);
  }

  /** The flags that the source reads off the carry word. */
  lemma SumChain(n: nat, d: nat, s: nat, c: bool)
    requires 8 <= n <= 32 && d < Pow2(n) && s < Pow2(n)
    ensures var cc := CarryWord(d, s, Low(d + s + Num(c), 32));
      && (Xor2(Shr(cc, n - 2)) <==> !Representable(n, Signed(n, d) + Signed(n, s) + Num(c)))
      && (And(32, cc, 8) != 0 <==> d % 16 + s % 16 + Num(c) >= 16)
  {
    hide And, Or, Not, Xor2, Low, Shl, Shr, Bit, Signed, Pow2, Carry, Representable;
    var res := Low(d + s + Num(c), 32);
    var cc := CarryWord(d, s, res);
    Xor2Bits(cc, n - 2);
    EighthBit(cc);
    forall i: nat | i < n ensures Bit(cc, i) == Carry(d, s, c, i + 1) {
      BitLow(d + s + Num(c), 32, i);
      CarryChain(32, d, s, c, res, i);
    }
    SignedSumOverflow(n, d, s, c);
    NibbleCarry(d, s, c);
  }

  lemma DifferenceChain(n: nat, d: nat, s: nat, b: bool)
    requires 8 <= n <= 32 && d < Pow2(n) && s < Pow2(n)
    ensures var bc := BorrowWord(d, s, Low(d - s - Num(b), 32));
      && (And(32, bc, Shl(1, n - 1)) != 0 <==> d < s + Num(b))
      && (Xor2(Shr(bc, n - 2)) <==> !Representable(n, Signed(n, d) - Signed(n, s) - Num(b)))
      && (And(32, bc, 8) != 0 <==> d % 16 < s % 16 + Num(b))
  {
    hide And, Or, Not, Xor2, Low, Shl, Shr, Bit, Signed, Pow2, Borrow, Representable;
    var res := Low(d - s - Num(b), 32);
    var bc := BorrowWord(d, s, res);
    Xor2Bits(bc, n - 2);
    TestBit(32, bc, n - 1);
    EighthBit(bc);
    forall i: nat | i < n ensures Bit(bc, i) == Borrow(d, s, b, i + 1) {
      BitLow(d - s - Num(b), 32, i);
      BorrowChain(32, d, s, b, res, i);
    }
    SignedDifferenceOverflow(n, d, s, b);
    NibbleCarry(d, s, b);
  }

  /** The ninth bit of a byte sum, the seventeenth of a word sum. */
  lemma ShortCarry(n: nat, d: nat, s: nat, c: bool)
    requires n < 32 && d < Pow2(n) && s < Pow2(n)
    ensures And(32, Low(d + s + Num(c), 32), Shl(1, n)) != 0 <==> d + s + Num(c) >= Pow2(n)
  {
    hide And, Low, Shl, Bit, Pow2;
    var x := d + s + Num(c);
    TestBit(32, Low(x, 32), n);
    BitLow(x, 32, n);
    LowNext(x, n);
    PowNext(n);
    LowId(x, n + 1);
  }

  // ---- the closed forms of the rotates --------------------------------------------------

  /** The n + 1 bits that rcl and rcr rotate: the operand with the carry above it. */
  function Ring(n: nat, d: nat, c: bool): nat {
    d + if c then Pow2(n) else 0
  }

  function RclWord(n: nat, d: int, c: bool, cnt: nat): int
    requires 0 < cnt <= n
  {
    var shifted := And(32, Shl(d, cnt), Shl(1, n) - 1);
    var res := Or(32, shifted, And(32, Shr(d, n + 1 - cnt), Shl(1, cnt - 1) - 1));
    if c then Or(32, res, Shl(1, cnt - 1)) else res
  }

  function RcrWord(n: nat, d: int, c: bool, cnt: nat): int
    requires 0 < cnt <= n
  {
    var shifted := And(32, Shr(d, cnt), Shl(1, n - cnt) - 1);
    var res := Or(32, shifted, Shl(d, n + 1 - cnt));
    if c then Or(32, res, Shl(1, n - cnt)) else res
  }

  /** The low part of rol and ror: the operand shifted up by k, its top k bits below. */
  function RolWord(n: nat, d: int, k: nat): int
    requires k <= n
  {
    Shl(d, k) + And(32, Shr(d, n - k), Shl(1, k) - 1)
  }

  lemma OneBit(i: nat)
    ensures Bit(1, i) == (i == 0)
  {
    if i > 0 { BitZero(i - 1); }
  }

  lemma BitOfOne(k: nat, i: nat)
    ensures Bit(Shl(1, k), i) == (i == k)
  {
    hide Bit, Shl;
    BitShl(1, k, i);
    if i >= k { OneBit(i - k); }
  }

  lemma RclBit(n: nat, d: nat, c: bool, cnt: nat, i: nat)
    requires 0 < cnt <= n <= 32 && d < Pow2(n) && i < n
    ensures Bit(RclWord(n, d, c, cnt), i)
         == if i >= cnt then Bit(d, i - cnt) else if i == cnt - 1 then c else Bit(d, i + n + 1 - cnt)
  {
    hide Bit, Shl, Shr, And, Or, Pow2;
    var shifted := And(32, Shl(d, cnt), Shl(1, n) - 1);
    var low := And(32, Shr(d, n + 1 - cnt), Shl(1, cnt - 1) - 1);
    BitAnd(32, Shl(d, cnt), Shl(1, n) - 1, i);
    BitMask(n, i);
    BitShl(d, cnt, i);
    BitAnd(32, Shr(d, n + 1 - cnt), Shl(1, cnt - 1) - 1, i);
    BitMask(cnt - 1, i);
    BitShr(d, n + 1 - cnt, i);
    BitOr(32, shifted, low, i);
    BitOr(32, Or(32, shifted, low), Shl(1, cnt - 1), i);
    BitOfOne(cnt - 1, i);
    if i >= cnt - 1 { BitHigh(d, n, i + n + 1 - cnt); }
  }

  lemma RcrBit(n: nat, d: nat, c: bool, cnt: nat, i: nat)
    requires 0 < cnt <= n <= 32 && d < Pow2(n) && i < n
    ensures Bit(RcrWord(n, d, c, cnt), i)
         == if i < n - cnt then Bit(d, i + cnt) else if i == n - cnt then c else Bit(d, i - (n + 1 - cnt))
  {
    hide Bit, Shl, Shr, And, Or, Pow2;
    var shifted := And(32, Shr(d, cnt), Shl(1, n - cnt) - 1);
    var high := Shl(d, n + 1 - cnt);
    BitAnd(32, Shr(d, cnt), Shl(1, n - cnt) - 1, i);
    BitMask(n - cnt, i);
    BitShr(d, cnt, i);
    BitShl(d, n + 1 - cnt, i);
    BitOr(32, shifted, high, i);
    BitOr(32, Or(32, shifted, high), Shl(1, n - cnt), i);
    BitOfOne(n - cnt, i);
  }

  lemma RolBit(n: nat, d: nat, k: nat, i: nat)
    requires k <= n <= 32 && d < Pow2(n) && i < n
    ensures Bit(RolWord(n, d, k), i) == if i < k then Bit(d, i + n - k) else Bit(d, i - k)
  {
    hide Bit, Shl, Shr, And, Pow2, Low;
    AndMask(32, Shr(d, n - k), k);
    BitLow(Shr(d, n - k), k, i);
    BitShr(d, n - k, i);
    BitJoin(d, k, Low(Shr(d, n - k), k), i);
  }

  lemma RingBit(n: nat, d: nat, c: bool, i: nat)
    requires d < Pow2(n) && i <= n
    ensures Ring(n, d, c) < Pow2(n + 1)
    ensures Bit(Ring(n, d, c), i) == if i == n then c else Bit(d, i)
  {
    hide Bit;
    TopBit(n + 1, d, c, i);
  }

  /** Going s steps around the ring is going s modulo its size. */
  lemma AroundLess(n: nat, i: nat, s: nat)
    requires i < n
    ensures Around(n, i - s) == if i >= s % n then i - s % n else i - s % n + n
    ensures Around(n, i + s) == if i + s % n < n then i + s % n else i + s % n - n
  {
    var q, c := s / n, s % n;
    assert s == q * n + c;
    DivModUnique(i - s, n, if i >= c then -q else -q - 1, if i >= c then i - c else i - c + n);
    DivModUnique(i + s, n, if i + c < n then q else q + 1, if i + c < n then i + c else i + c - n);
  }

  /** The closed form of rcl is s single steps of the ring to the left. */
  lemma RclIsRotation(n: nat, d: nat, c: bool, s: nat)
    requires 8 <= n <= 32 && d < Pow2(n) && s % (n + 1) > 0
    ensures var cnt := s % (n + 1);
      Ring(n, Low(RclWord(n, d, c, cnt), n), Bit(d, n - cnt)) == Left(n + 1, Ring(n, d, c), s)
  {
    hide Bit, Low, RclWord, Ring, Left, Around, Pow2;
    var cnt, v := s % (n + 1), Ring(n, d, c);
    var r := Low(RclWord(n, d, c, cnt), n);
    var v' := Ring(n, r, Bit(d, n - cnt));
    forall i: nat | i < n + 1 ensures Bit(v', i) == Bit(Left(n + 1, v, s), i) {
      RingBit(n, d, c, 0);
      RingBit(n, r, Bit(d, n - cnt), i);
      LeftBit(n + 1, v, s, i);
      AroundLess(n + 1, i, s);
      RingBit(n, d, c, if i >= cnt then i - cnt else i - cnt + n + 1);
      if i < n {
        BitLow(RclWord(n, d, c, cnt), n, i);
        RclBit(n, d, c, cnt, i);
      }
    }
    RingBit(n, d, c, 0);
    RingBit(n, r, Bit(d, n - cnt), 0);
    LeftBit(n + 1, v, s, 0);
    SameBits(v', Left(n + 1, v, s), n + 1);
  }

  /** The closed form of rcr is s single steps to the right. */
  lemma RcrIsRotation(n: nat, d: nat, c: bool, s: nat)
    requires 8 <= n <= 32 && d < Pow2(n) && s % (n + 1) > 0
    ensures var cnt := s % (n + 1);
      Ring(n, Low(RcrWord(n, d, c, cnt), n), Bit(d, cnt - 1)) == Right(n + 1, Ring(n, d, c), s)
  {
    hide Bit, Low, RcrWord, Ring, Right, Around, Pow2;
    var cnt, v := s % (n + 1), Ring(n, d, c);
    var r := Low(RcrWord(n, d, c, cnt), n);
    var v' := Ring(n, r, Bit(d, cnt - 1));
    forall i: nat | i < n + 1 ensures Bit(v', i) == Bit(Right(n + 1, v, s), i) {
      RingBit(n, d, c, 0);
      RingBit(n, r, Bit(d, cnt - 1), i);
      RightBit(n + 1, v, s, i);
      AroundLess(n + 1, i, s);
      RingBit(n, d, c, if i + cnt < n + 1 then i + cnt else i + cnt - (n + 1));
      if i < n {
        BitLow(RcrWord(n, d, c, cnt), n, i);
        RcrBit(n, d, c, cnt, i);
      }
    }
    RingBit(n, d, c, 0);
    RingBit(n, r, Bit(d, cnt - 1), 0);
    RightBit(n + 1, v, s, 0);
    SameBits(v', Right(n + 1, v, s), n + 1);
  }

  lemma RolIsRotation(n: nat, d: nat, s: nat)
    requires 8 <= n <= 32 && d < Pow2(n)
    ensures Low(RolWord(n, d, s % n), n) == Left(n, d, s)
  {
    hide Bit, Low, RolWord, Left, Around, Pow2;
    var cnt := s % n;
    var r := Low(RolWord(n, d, cnt), n);
    forall i: nat | i < n ensures Bit(r, i) == Bit(Left(n, d, s), i) {
      BitLow(RolWord(n, d, cnt), n, i);
      RolBit(n, d, cnt, i);
      LeftBit(n, d, s, i);
      AroundLess(n, i, s);
    }
    LeftBit(n, d, s, 0);
    SameBits(r, Left(n, d, s), n);
  }

  lemma RorIsRotation(n: nat, d: nat, s: nat)
    requires 8 <= n <= 32 && d < Pow2(n)
    ensures Low(RolWord(n, d, n - s % n), n) == Right(n, d, s)
  {
    hide Bit, Low, RolWord, Right, Around, Pow2;
    var k := n - s % n;
    var r := Low(RolWord(n, d, k), n);
    forall i: nat | i < n ensures Bit(r, i) == Bit(Right(n, d, s), i) {
      BitLow(RolWord(n, d, k), n, i);
      RolBit(n, d, k, i);
      RightBit(n, d, s, i);
      AroundLess(n, i, s);
    }
    RightBit(n, d, s, 0);
    SameBits(r, Right(n, d, s), n);
  }

  /** A rotation by a multiple of the ring's size changes nothing. */
  lemma WholeTurns(n: nat, v: nat, s: nat)
    requires n > 0 && v < Pow2(n) && s % n == 0
    ensures Left(n, v, s) == v && Right(n, v, s) == v
  {
    hide Bit, Left, Right, Around, Pow2;
    forall i: nat | i < n ensures Bit(Left(n, v, s), i) == Bit(v, i) && Bit(Right(n, v, s), i) == Bit(v, i) {
      LeftBit(n, v, s, i);
      RightBit(n, v, s, i);
      AroundLess(n, i, s);
    }
    LeftBit(n, v, s, 0);
    RightBit(n, v, s, 0);
    SameBits(Left(n, v, s), v, n);
    SameBits(Right(n, v, s), v, n);
  }

  /** The ring determines value and carry. */
  lemma RingInjective(n: nat, d: nat, c: bool, d': nat, c': bool)
    requires d < Pow2(n) && d' < Pow2(n)
    requires Ring(n, d, c) == Ring(n, d', c')
    ensures d == d' && c == c'
  {
  }

  /** Any value and carry that Alu.Rcr may leave behind after Alu.Rcl by the same count are the
      original value and carry, and the other way round. */
  lemma RotateThroughCarryUndone(n: nat, d: nat, c: bool, s: nat, d1: nat, c1: bool, d2: nat, c2: bool)
    requires n > 0 && d < Pow2(n) && d2 < Pow2(n)
    requires
      || (Ring(n, d1, c1) == Left(n + 1, Ring(n, d, c), s) && Ring(n, d2, c2) == Right(n + 1, Ring(n, d1, c1), s))
      || (Ring(n, d1, c1) == Right(n + 1, Ring(n, d, c), s) && Ring(n, d2, c2) == Left(n + 1, Ring(n, d1, c1), s))
    ensures d2 == d && c2 == c
  {
    hide Left, Right, Ring, Bit, Pow2;
    RingBit(n, d, c, 0);
    RotationUndone(n + 1, Ring(n, d, c), s);
    RingInjective(n, d, c, d2, c2);
  }

  /** The smallest rotations through the carry, in plain integers. */
  lemma RclOnce(n: nat, d: nat, c: bool, r: nat, c': bool)
    requires n > 0 && d < Pow2(n) && r < Pow2(n) && Ring(n, r, c') == Left(n + 1, Ring(n, d, c), 1)
    ensures r + (if c' then Pow2(n) else 0) == 2 * d + (if c then 1 else 0)
  {
    hide Bit, Pow2, Low;
    var v := Ring(n, d, c);
    assert Left(n + 1, v, 0) == v;
    RingBit(n, d, c, n);
    PowNext(n);
    LowIsMod(2 * v, n + 1);
    DivModUnique(2 * v, Pow2(n + 1), if c then 1 else 0, 2 * d);
  }

  lemma RcrOnce(n: nat, d: nat, c: bool, r: nat, c': bool)
    requires n > 0 && d < Pow2(n) && r < Pow2(n) && Ring(n, r, c') == Right(n + 1, Ring(n, d, c), 1)
    ensures r == d / 2 + (if c then Pow2(n - 1) else 0) && (c' <==> d % 2 == 1)
  {
    hide Pow2;
    var v := Ring(n, d, c);
    assert Right(n + 1, v, 0) == v;
    PowNext(n - 1);
  }

  lemma TopOfValue(n: nat, d: nat)
    requires n > 0 && d < Pow2(n)
    ensures Bit(d, n - 1) <==> 2 * d >= Pow2(n)
  {
    hide Bit, Pow2;
    PowNext(n - 1);
    var c := d >= Pow2(n - 1);
    TopBit(n, if c then d - Pow2(n - 1) else d, c, n - 1);
  }

  lemma RolOnce(n: nat, d: nat)
    requires n > 0 && d < Pow2(n)
    ensures Left(n, d, 1) == if 2 * d >= Pow2(n) then 2 * d - Pow2(n) + 1 else 2 * d
    ensures Right(n, d, 1) == d / 2 + (if d % 2 == 1 then Pow2(n - 1) else 0)
  {
    hide Bit, Pow2, Low;
    assert Left(n, d, 0) == d && Right(n, d, 0) == d;
    PowNext(n - 1);
    TopOfValue(n, d);
    LowIsMod(2 * d, n);
    var over := 2 * d >= Pow2(n);
    DivModUnique(2 * d, Pow2(n), if over then 1 else 0, if over then 2 * d - Pow2(n) else 2 * d);
  }

  lemma RcrTop(n: nat, d: nat, c: bool)
    requires 8 <= n <= 32 && d < Pow2(n)
    ensures var r := Low(RcrWord(n, d, c, 1), n);
      Bit(r, n - 1) == c && Bit(r, n - 2) == Bit(d, n - 1)
  {
    hide Bit, Low, RcrWord, Pow2;
    RcrBit(n, d, c, 1, n - 1);
    RcrBit(n, d, c, 1, n - 2);
    BitLow(RcrWord(n, d, c, 1), n, n - 1);
    BitLow(RcrWord(n, d, c, 1), n, n - 2);
  }

  lemma WholeTurn(n: nat, d: nat, s: nat)
    requires n > 0 && d < Pow2(n)
    ensures s % n == 0 ==> Left(n, d, s) == d && Right(n, d, s) == d
    ensures s == 0 ==> s % n == 0
  {
    hide Left, Right;
    if s % n == 0 { WholeTurns(n, d, s); }
  }

  lemma RolSum(n: nat, d: nat, k: nat)
    requires k <= n
    ensures RolWord(n, d, k) == Shl(d, k) + And(32, Shr(d, n - k), Shl(1, k) - 1)
  {
  }

  lemma LowestOfSum(r: nat, n: nat)
    requires 0 < n
    ensures And(32, r + Shr(r, n - 1), 1) != 0 <==> Bit(r, 0) != Bit(r, n - 1)
  {
    hide And, Shr;
    LowestBit(r + Shr(r, n - 1));
    BitShr(r, n - 1, 0);
  }

  lemma CarryBit(d: int, k: nat)
    ensures And(32, Shr(d, k), 1) == Num(Bit(d, k))
  {
    hide And, Shr, Bit;
    LowestBit(Shr(d, k));
    BitShr(d, k, 0);
  }

  /** The word of rcl has no bits above the operand's. */
  lemma RclFits(n: nat, d: nat, c: bool, cnt: nat)
    requires 0 < cnt <= n <= 32 && d < Pow2(n)
    ensures 0 <= RclWord(n, d, c, cnt) < Pow2(n)
    ensures Low(RclWord(n, d, c, cnt), n) == RclWord(n, d, c, cnt)
  {
    hide Low, Or, And, Shl, Shr, Pow2;
    AndMask(32, Shl(d, cnt), n);
    AndMask(32, Shr(d, n + 1 - cnt), cnt - 1);
    var shifted, low := Low(Shl(d, cnt), n), Low(Shr(d, n + 1 - cnt), cnt - 1);
    ShlIsProduct(1, cnt - 1);
    PowGrows(cnt - 1, n);
    OrRange(32, shifted, low, n);
    OrRange(32, Or(32, shifted, low), Shl(1, cnt - 1), n);
    LowId(RclWord(n, d, c, cnt), n);
  }

  /** A shift by the width of the word leaves nothing to join in. */
  lemma NothingAbove(x: int, d: int)
    requires 0 <= x < Pow2(32)
    ensures Or(32, x, Shl(d, 32)) == x
  {
    hide Or, Shl, Bit, Pow2;
    WordRange(32, x, Shl(d, 32));
    forall i: nat | i < 32 ensures Bit(Or(32, x, Shl(d, 32)), i) == Bit(x, i) {
      BitOr(32, x, Shl(d, 32), i);
      BitShl(d, 32, i);
    }
    SameBits(Or(32, x, Shl(d, 32)), x, 32);
  }

  lemma SmallXor2()
    ensures !Xor2(0) && Xor2(1) && Xor2(2) && !Xor2(3)
  {
    hide And;
    LowestBit(Xor(32, 0, 0)); LowestBit(Xor(32, 1, 0)); LowestBit(Xor(32, 2, 1)); LowestBit(Xor(32, 3, 1));
  }

  /** The overflow formulas of the rotates, read off bits. */
  lemma RclOverflow(n: nat, res: nat, carry: bool)
    requires 8 <= n <= 32 && res < Pow2(n)
    ensures Xor2(Num(carry) + And(32, Shr(res, n - 2), 2)) <==> carry != Bit(res, n - 1)
  {
    hide And, Shr, Bit, Pow2, Xor2;
    TestBit(32, Shr(res, n - 2), 1);
    BitShr(res, n - 2, 1);
    assert Shl(1, 1) == 2;
    SmallXor2();
  }

  lemma ResultBits(n: nat, res: int)
    requires 8 <= n <= 32
    ensures And(32, res, Shl(1, n) - 1) == Low(res, n)
    ensures And(32, res, Shl(1, n - 1)) != 0 <==> Signed(n, Low(res, n)) < 0
    ensures And(32, res, 0xFF) < 0x100
    ensures Parity(And(32, res, 0xFF)) <==> Ones(Low(res, n) % 0x100) % 2 == 0
  {
    hide And, Low, Shl, Bit, Ones, Pow2, Parity;
    var r := Low(res, n);
    AndMask(32, res, n);
    TestBit(32, res, n - 1);
    SignSplit(n, r);
    BitLow(res, n, n - 1);
    Powers();
    ShlIsProduct(1, 8);
    AndMask(32, res, 8);
    LowLow(res, n, 8);
    LowIsMod(r, 8);
    ParityIsEven(Low(res, 8));
  }

  /** Cutting at 32 bits first does not change the low bits. */
  lemma Truncated(w: Width, x: int)
    ensures Low(Low(x, 32), w.Bits()) == Low(x, w.Bits()) == x % Pow2(w.Bits())
  {
    hide Low, Pow2;
    LowLow(x, 32, w.Bits());
    LowIsMod(x, w.Bits());
  }

  // ---- the operations -------------------------------------------------------------------

  /** The carry word of inc_byte is the general one. */
  lemma IncWord(d: nat, res: int)
    ensures And(32, Or(32, And(32, 1, d), Not(32, res)), Or(32, 1, d)) == CarryWord(d, 1, res)
  {
    hide And, Or, Not, Bit, Pow2;
    var own := And(32, Or(32, And(32, 1, d), Not(32, res)), Or(32, 1, d));
    var kept := And(32, Not(32, res), Or(32, 1, d));
    forall i: nat | i < 32 ensures Bit(own, i) == Bit(CarryWord(d, 1, res), i) {
      BitAnd(32, Or(32, And(32, 1, d), Not(32, res)), Or(32, 1, d), i);
      BitOr(32, And(32, 1, d), Not(32, res), i);
      BitOr(32, And(32, 1, d), kept, i);
      BitAnd(32, Not(32, res), Or(32, 1, d), i);
      BitAnd(32, 1, d, i);
      BitOr(32, 1, d, i);
    }
    WordRange(32, Or(32, And(32, 1, d), Not(32, res)), Or(32, 1, d));
    WordRange(32, And(32, 1, d), kept);
    SameBits(own, CarryWord(d, 1, res), 32);
  }

  lemma SmallOperand(n: nat)
    requires 8 <= n
    ensures 1 < Pow2(n) && Signed(n, 1) == 1
  {
    hide Pow2;
    PowNext(n - 1);
    PowNext(n - 2);
  }

  /** For 0 - s the borrow word is the union of result and operand. */
  lemma NegChain(n: nat, s: nat)
    requires 8 <= n <= 32 && s < Pow2(n)
    ensures var bc := Or(32, Low(0 - s, n), s);
      && (Xor2(Shr(bc, n - 2)) <==> !Representable(n, Signed(n, 0) - Signed(n, s)))
      && (And(32, bc, 8) != 0 <==> 0 < s % 16)
  {
    hide And, Or, Xor2, Low, Shr, Bit, Signed, Pow2, Borrow, Representable;
    var bc := Or(32, Low(0 - s, n), s);
    Xor2Bits(bc, n - 2);
    EighthBit(bc);
    forall i: nat | i < n ensures Bit(bc, i) == Borrow(0, s, false, i + 1) {
      BitOr(32, Low(0 - s, n), s, i);
      BitLow(0 - s, n, i);
      DifferenceBit(0, s, false, i);
      BitZero(i);
    }
    SignedDifferenceOverflow(n, 0, s, false);
    NibbleCarry(0, s, false);
  }

  class Alu {
    var cf: bool
    var pf: bool
    var af: bool
    var zf: bool
    var sf: bool
    var of: bool

    function F(): Flags
      reads this
    {
      Flags(cf, pf, af, zf, sf, of)
    }

    /** The zero, sign and parity lines that every operation repeats. */
    method SetResultFlags(n: nat, res: int)
      requires 8 <= n <= 32
      modifies this`zf, this`sf, this`pf
      ensures DescribesResult(n, Low(res, n), F())
    {
      hide And, Low, Shl, Bit, Ones, Pow2;
      ResultBits(n, res);
      zf := And(32, res, Shl(1, n) - 1) == 0;
      sf := And(32, res, Shl(1, n - 1)) != 0;
      pf := Parity(And(32, res, 0xFF));
    }

    /** Overflow and adjust from the carry word. */
    method SetSumFlags(n: nat, d: nat, s: nat, ghost c: bool, res: int)
      requires 8 <= n <= 32 && d < Pow2(n) && s < Pow2(n)
      requires res == Low(d + s + Num(c), 32)
      modifies this`of, this`af
      ensures of <==> !Representable(n, Signed(n, d) + Signed(n, s) + Num(c))
      ensures af <==> d % 16 + s % 16 + Num(c) >= 16
    {
      hide *;
      SumChain(n, d, s, c);
      var cc := CarryWord(d, s, res);
      of := Xor2(Shr(cc, n - 2));
      af := And(32, cc, 8) != 0;
    }

    /** Overflow and adjust from the borrow word; its sign bit is returned for the carry. */
    method SetDifferenceFlags(n: nat, d: nat, s: nat, ghost b: bool, res: int) returns (borrow: bool)
      requires 8 <= n <= 32 && d < Pow2(n) && s < Pow2(n)
      requires res == Low(d - s - Num(b), 32)
      modifies this`of, this`af
      ensures borrow <==> d < s + Num(b)
      ensures of <==> !Representable(n, Signed(n, d) - Signed(n, s) - Num(b))
      ensures af <==> d % 16 < s % 16 + Num(b)
    {
      hide *;
      DifferenceChain(n, d, s, b);
      var bc := BorrowWord(d, s, res);
      borrow := And(32, bc, Shl(1, n - 1)) != 0;
      of := Xor2(Shr(bc, n - 2));
      af := And(32, bc, 8) != 0;
    }

    /** The carry of a sum: a bit of the result, or for 32 bits the sum by halves. */
    method SetCarry(w: Width, d: nat, s: nat, c: bool, res: int)
      requires d < Pow2(w.Bits()) && s < Pow2(w.Bits())
      requires res == Low(d + s + Num(c), 32)
      modifies this`cf
      ensures cf <==> d + s + Num(c) >= Pow2(w.Bits())
    {
      hide And, Low, Shl, Shr, Pow2;
      var n := w.Bits();
      if w.Long? {
        HighHalfCarry(d, s, c);
        cf := And(32, HighHalf(d, s, c), 0x10000) != 0;
      } else {
        ShortCarry(n, d, s, c);
        cf := And(32, res, Shl(1, n)) != 0;
      }
    }

    method Adc(w: Width, d: nat, s: nat) returns (r: nat)
      requires d < Pow2(w.Bits()) && s < Pow2(w.Bits())
      modifies this
      ensures r == (d + s + Num(old(cf))) % Pow2(w.Bits())
      ensures DescribesSum(w.Bits(), d, s, old(cf), F()) && DescribesResult(w.Bits(), r, F())
    {
      hide Low, Pow2, Signed, Representable, Ones, Width.Bits;
      ghost var c := cf;
      var res := Low(d + s + Num(cf), 32);
      SetCarry(w, d, s, cf, res);
      SetResultFlags(w.Bits(), res);
      SetSumFlags(w.Bits(), d, s, c, res);
      r := Low(res, w.Bits());
      Truncated(w, d + s + Num(c));
    }

    method Add(w: Width, d: nat, s: nat) returns (r: nat)
      requires d < Pow2(w.Bits()) && s < Pow2(w.Bits())
      modifies this
      ensures r == (d + s) % Pow2(w.Bits())
      ensures DescribesSum(w.Bits(), d, s, false, F()) && DescribesResult(w.Bits(), r, F())
    {
      hide Low, Pow2, Signed, Representable, Ones, Width.Bits;
      var res := Low(d + s, 32);
      SetCarry(w, d, s, false, res);
      SetResultFlags(w.Bits(), res);
      SetSumFlags(w.Bits(), d, s, false, res);
      r := Low(res, w.Bits());
      Truncated(w, d + s);
    }

    /** inc leaves the carry flag alone. The byte form has its own, equivalent carry word. */
    method Inc(w: Width, d: nat) returns (r: nat)
      requires d < Pow2(w.Bits())
      modifies this`pf, this`af, this`zf, this`sf, this`of
      ensures r == (d + 1) % Pow2(w.Bits())
      ensures of <==> Signed(w.Bits(), d) == Pow2(w.Bits() - 1) - 1
      ensures af <==> d % 16 == 15
      ensures DescribesResult(w.Bits(), r, F())
    {
      hide Low, Pow2, And, Or, Not, CarryWord, Shr, Xor2, Ones, Width.Bits;
      var n, res := w.Bits(), Low(d + 1, 32);
      SetResultFlags(n, res);
      var cc := if w.Byte? then And(32, Or(32, And(32, 1, d), Not(32, res)), Or(32, 1, d)) else CarryWord(d, 1, res);
      of := Xor2(Shr(cc, n - 2));
      af := And(32, cc, 8) != 0;
      r := Low(res, n);
      IncWord(d, res);
      SmallOperand(n);
      SumChain(n, d, 1, false);
      SignSplit(n, d);
      Truncated(w, d + 1);
    }

    method Sbb(w: Width, d: nat, s: nat) returns (r: nat)
      requires d < Pow2(w.Bits()) && s < Pow2(w.Bits())
      modifies this
      ensures r == (d - s - Num(old(cf))) % Pow2(w.Bits())
      ensures DescribesDifference(w.Bits(), d, s, old(cf), F()) && DescribesResult(w.Bits(), r, F())
    {
      hide Low, Pow2, Signed, Representable, Ones, Width.Bits;
      ghost var b := cf;
      var res := Low(if cf then d - s - 1 else d - s, 32);
      SetResultFlags(w.Bits(), res);
      cf := SetDifferenceFlags(w.Bits(), d, s, b, res);
      r := Low(res, w.Bits());
      Truncated(w, d - s - Num(b));
    }

    method Sub(w: Width, d: nat, s: nat) returns (r: nat)
      requires d < Pow2(w.Bits()) && s < Pow2(w.Bits())
      modifies this
      ensures r == (d - s) % Pow2(w.Bits())
      ensures DescribesDifference(w.Bits(), d, s, false, F()) && DescribesResult(w.Bits(), r, F())
    {
      hide Low, Pow2, Signed, Representable, Ones, Width.Bits;
      var res := Low(d - s, 32);
      SetResultFlags(w.Bits(), res);
      cf := SetDifferenceFlags(w.Bits(), d, s, false, res);
      r := Low(res, w.Bits());
      Truncated(w, d - s);
    }

    /** cmp sets the flags of the difference and returns its first operand. */
    method Cmp(w: Width, d: nat, s: nat) returns (r: nat)
      requires d < Pow2(w.Bits()) && s < Pow2(w.Bits())
      modifies this
      ensures r == d
      ensures DescribesDifference(w.Bits(), d, s, false, F())
      ensures DescribesResult(w.Bits(), (d - s) % Pow2(w.Bits()), F())
    {
      hide Low, Pow2, Signed, Representable, Ones, Width.Bits;
      var res := Low(d - s, 32);
      if w.Byte? {
        cf := false;
      }
      SetResultFlags(w.Bits(), res);
      cf := SetDifferenceFlags(w.Bits(), d, s, false, res);
      r := d;
      Truncated(w, d - s);
    }

    method Dec(w: Width, d: nat) returns (r: nat)
      requires d < Pow2(w.Bits())
      modifies this`pf, this`af, this`zf, this`sf, this`of
      ensures r == (d - 1) % Pow2(w.Bits())
      ensures of <==> Signed(w.Bits(), d) == 0 - Pow2(w.Bits() - 1)
      ensures af <==> d % 16 == 0
      ensures DescribesResult(w.Bits(), r, F())
    {
      hide Low, Pow2, Ones, Width.Bits;
      var n, res := w.Bits(), Low(d - 1, 32);
      SetResultFlags(n, res);
      SmallOperand(n);
      var borrow := SetDifferenceFlags(n, d, 1, false, res);
      r := Low(res, n);
      SignSplit(n, d);
      Truncated(w, d - 1);
    }

    /** neg is 0 - s; its borrow word is simplified to the union of result and operand. */
    method Neg(w: Width, s: nat) returns (r: nat)
      requires s < Pow2(w.Bits())
      modifies this
      ensures r == (0 - s) % Pow2(w.Bits())
      ensures DescribesDifference(w.Bits(), 0, s, false, F()) && DescribesResult(w.Bits(), r, F())
    {
      hide Low, Pow2, Or, And, Shr, Xor2, Signed, Representable, Ones, Width.Bits;
      var n := w.Bits();
      cf := s != 0;
      r := Low(0 - s, n);
      SetResultFlags(n, r);
      var bc := Or(32, r, s);
      of := Xor2(Shr(bc, n - 2));
      af := And(32, bc, 8) != 0;
      LowLow(0 - s, n, n);
      NegChain(n, s);
      Truncated(w, 0 - s);
    }

    /** rcl. In the 32-bit form a count that is 32 modulo 33 would shift by the width of the word, which
        the source's language does not define; for a count of 1 the same shift stands under an empty
        mask. */
    method Rcl(w: Width, d: nat, s: nat) returns (r: nat)
      requires d < Pow2(w.Bits()) && s < 0x100 && (w.Long? ==> s % 33 != 32)
      modifies this`cf, this`of
      ensures r < Pow2(w.Bits())
      ensures Ring(w.Bits(), r, cf) == Left(w.Bits() + 1, Ring(w.Bits(), d, old(cf)), s)
      ensures of == match s % (w.Bits() + 1)
                    case 0 => old(of)
                    case 1 => cf != Bit(r, w.Bits() - 1)
                    case _ => false
    {
      hide Bit, Low, And, Or, Shl, Shr, Pow2, Ring, Left, Xor2;
      var n := w.Bits();
      var res, cnt := d, s % (n + 1);
      ghost var c := cf;
      if cnt != 0 {
        var carry := And(32, Shr(d, n - cnt), 1);
        res := And(32, Shl(d, cnt), Shl(1, n) - 1);
        var mask := Shl(1, cnt - 1) - 1;
        res := Or(32, res, And(32, Shr(d, n + 1 - cnt), mask));
        if cf {
          res := Or(32, res, Shl(1, cnt - 1));
        }
        assert res == RclWord(n, d, c, cnt);
        RclIsRotation(n, d, c, s);
        CarryBit(d, n - cnt);
        RclFits(n, d, c, cnt);
        RclOverflow(n, res, Bit(d, n - cnt));
        cf := carry != 0;
        of := cnt == 1 && Xor2(carry + And(32, Shr(res, n - 2), 2));
      } else {
        RingBit(n, d, c, 0);
        WholeTurns(n + 1, Ring(n, d, c), s);
        LowId(d, n);
      }
      r := Low(res, n);
    }

    /** rcr; only a count of 1 touches the overflow flag. */
    method Rcr(w: Width, d: nat, s: nat) returns (r: nat)
      requires d < Pow2(w.Bits()) && s < 0x100 && (w.Long? ==> s % 33 != 32)
      modifies this`cf, this`of
      ensures r < Pow2(w.Bits())
      ensures Ring(w.Bits(), r, cf) == Right(w.Bits() + 1, Ring(w.Bits(), d, old(cf)), s)
      ensures of == if s % (w.Bits() + 1) == 1 then Bit(r, w.Bits() - 1) != Bit(r, w.Bits() - 2) else old(of)
    {
      hide Bit, Low, And, Or, Shl, Shr, Pow2, Ring, Right, Xor2;
      var n := w.Bits();
      var res, cnt := d, s % (n + 1);
      ghost var c := cf;
      if cnt != 0 {
        var carry, ocf := 0, 0;
        if cnt == 1 {
          LowestBit(d);
          carry := And(32, d, 1);
          ocf := Num(cf);
        } else {
          CarryBit(d, cnt - 1);
          carry := And(32, Shr(d, cnt - 1), 1);
        }
        var mask := Shl(1, n - cnt) - 1;
        res := And(32, Shr(d, cnt), mask);
        if w.Long? && cnt == 1 {
          WordRange(32, Shr(d, cnt), mask);
          NothingAbove(res, d);
        } else {
          res := Or(32, res, Shl(d, n + 1 - cnt));
        }
        if cf {
          res := Or(32, res, Shl(1, n - cnt));
        }
        assert res == RcrWord(n, d, c, cnt);
        RcrIsRotation(n, d, c, s);
        cf := carry != 0;
        if cnt == 1 {
          RclOverflow(n, d, c);
          RcrTop(n, d, c);
          of := Xor2(ocf + And(32, Shr(d, n - 2), 2));
        }
      } else {
        RingBit(n, d, c, 0);
        WholeTurns(n + 1, Ring(n, d, c), s);
        LowId(d, n);
      }
      r := Low(res, n);
    }

    method Rol(w: Width, d: nat, s: nat) returns (r: nat)
      requires d < Pow2(w.Bits()) && s < 0x100
      modifies this`cf, this`of
      ensures r < Pow2(w.Bits()) && r == Left(w.Bits(), d, s)
      ensures cf == if s == 0 then old(cf) else Bit(r, 0)
      ensures of == if s == 1 then cf != Bit(r, w.Bits() - 1) else old(of)
    {
      hide Bit, Low, And, Shl, Shr, Pow2, Left, Xor2, RolWord;
      var n := w.Bits();
      r := d;
      RolIsRotation(n, d, s);
      WholeTurn(n, d, s);
      if s == 0 {
        return;
      }
      var cnt := s % n;
      if cnt != 0 {
        RolSum(n, d, cnt);
        r := Low(Shl(d, cnt) + And(32, Shr(d, n - cnt), Shl(1, cnt) - 1), n);
      }
      if s == 1 {
        LowestOfSum(r, n);
        of := And(32, r + Shr(r, n - 1), 1) != 0;
      }
      LowestBit(r);
      cf := And(32, r, 1) != 0;
    }

    method Ror(w: Width, d: nat, s: nat) returns (r: nat)
      requires d < Pow2(w.Bits()) && s < 0x100
      modifies this`cf, this`of
      ensures r < Pow2(w.Bits()) && r == Right(w.Bits(), d, s)
      ensures cf == if s == 0 then old(cf) else Bit(r, w.Bits() - 1)
      ensures of == if s == 1 then cf != Bit(r, w.Bits() - 2) else old(of)
    {
      hide Bit, Low, And, Shl, Shr, Pow2, Right, Xor2, RolWord;
      var n := w.Bits();
      r := d;
      RorIsRotation(n, d, s);
      WholeTurn(n, d, s);
      if s == 0 {
        return;
      }
      var cnt := s % n;
      if cnt != 0 {
        RolSum(n, d, n - cnt);
        r := Low(Shl(d, n - cnt) + And(32, Shr(d, cnt), Shl(1, n - cnt) - 1), n);
      }
      if s == 1 {
        Xor2Bits(r, n - 2);
        of := Xor2(Shr(r, n - 2));
      }
      TestBit(32, r, n - 1);
      cf := And(32, r, Shl(1, n - 1)) != 0;
    }
  }

  // ---- conditions -----------------------------------------------------------------------

  /** eval_condition on the flags. */
  function EvalCondition(f: Flags, kind: nat): bool {
    var cond :=
      match kind / 2
      case 0 => f.of
      case 1 => f.cf
      case 2 => f.zf
      case 3 => f.cf || f.zf
      case 4 => f.sf
      case 5 => f.pf
      case 6 => f.sf != f.of
      case 7 => f.zf || f.sf != f.of
      case _ => false;
    if kind % 2 == 1 then !cond else cond
  }

  lemma DifferenceResult(n: nat, d: nat, s: nat)
    requires d < Pow2(n) && s < Pow2(n)
    ensures (d - s) % Pow2(n) == if d >= s then d - s else d - s + Pow2(n)
  {
    hide Pow2;
    DivModUnique(d - s, Pow2(n), if d >= s then 0 else -1, if d >= s then d - s else d - s + Pow2(n));
  }

  /** After a comparison of d with s (see Alu.Cmp) the condition codes are the unsigned and
      signed order of the operands. */
  lemma ComparisonConditions(n: nat, d: nat, s: nat, f: Flags)
    requires n > 0 && d < Pow2(n) && s < Pow2(n)
    requires DescribesDifference(n, d, s, false, f) && DescribesResult(n, (d - s) % Pow2(n), f)
    ensures EvalCondition(f, 2) <==> d < s
    ensures EvalCondition(f, 4) <==> d == s
    ensures EvalCondition(f, 6) <==> d <= s
    ensures EvalCondition(f, 12) <==> Signed(n, d) < Signed(n, s)
    ensures EvalCondition(f, 14) <==> Signed(n, d) <= Signed(n, s)
    ensures EvalCondition(f, 8) <==> Signed(n, (d - s) % Pow2(n)) < 0
    ensures EvalCondition(f, 0) <==> !(0 - Pow2(n - 1) <= Signed(n, d) - Signed(n, s) < Pow2(n - 1))
    ensures EvalCondition(f, 10) <==> Ones((d - s) % Pow2(n) % 0x100) % 2 == 0
  {
    hide Pow2, Ones;
    PowNext(n - 1);
    DifferenceResult(n, d, s);
  }

  /** An odd code is the negation of the even code before it. */
  lemma OddConditions(f: Flags, kind: nat)
    requires kind % 2 == 0
    ensures EvalCondition(f, kind + 1) <==> !EvalCondition(f, kind)
  {
    assert (kind + 1) / 2 == kind / 2;
  }
}
