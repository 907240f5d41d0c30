/** The string instructions of ops.c with 32-bit addresses and flat segments: movs, stos, cmps and
    scas, single and repeated, in both directions. */
module Strings {
  import opened Alu
  import opened Arithmetic
  import opened Bits
  import opened FlatMemory
  import opened Registers

  // ---- memory after repeated moves and stores ----------------------------------------------

  /** n elements of w bytes moved one after the other, from the element at src on. */
  function Moved(m: Mem, src: int, dst: int, step: int, w: nat, n: nat): Mem
    decreases n
  {
    if n == 0 then m
    else Moved(Put(m, dst, Get(m, src, w)), src + step, dst + step, step, w, n - 1)
  }

  function Stored(m: Mem, dst: int, step: int, value: seq<byte>, n: nat): Mem
    decreases n
  {
    if n == 0 then m else Stored(Put(m, dst, value), dst + step, step, value, n - 1)
  }

  function Repeat(value: seq<byte>, n: nat): (b: seq<byte>)
    ensures |b| == |value| * n
  {
    if n == 0 then [] else value + Repeat(value, n - 1)
  }

  // ---- the instructions --------------------------------------------------------------------

  /** The k-th element. */
  function Nth(a: int, inc: int, k: nat): int {
    a + inc * k
  }

  lemma NthMeans(a: int, inc: int, k: nat)
    ensures Nth(a, inc, k) == a + inc * k
  {
  }

  lemma NthStart(a: u32, inc: int)
    ensures Nth(a, inc, 0) == a && Wrap(Nth(a, inc, 0)) == a
  {
  }

  lemma NthNext(a: int, inc: int, k: nat)
    ensures Nth(a, inc, k + 1) == Nth(a, inc, k) + inc && Nth(a, inc, 0) == a
    ensures Wrap(Wrap(Nth(a, inc, k)) + inc) == Wrap(Nth(a, inc, k + 1))
  {
    WrapAgain(Nth(a, inc, k), inc);
  }

  /** The flags describe the comparison of two bytes. */
  predicate Compared(f: Flags, d: byte, s: byte) {
    DescribesDifference(8, d, s, false, f) && DescribesResult(8, (d - s) % 0x100, f)
  }

  lemma BytePower()
    ensures Pow2(8) == 0x100
  {
    Powers();
  }

  predicate Examined(ecx: u32, rep: bool, k: nat) {
    if rep then k <= ecx else k == 1
  }

  /** The byte at the k-th element. */
  function At(m: Mem, a: int, inc: int, k: nat): byte {
    m[Wrap(Nth(a, inc, k))]
  }

  /** The k-th pair ends a repeated comparison. */
  predicate Stops(m: Mem, src: int, dst: int, inc: int, repe: bool, k: nat) {
    if repe then At(m, src, inc, k) != At(m, dst, inc, k) else At(m, src, inc, k) == At(m, dst, inc, k)
  }

  /** Of n pairs k have been examined: no pair before the last examined one ends the comparison, and
      the last one does unless it is the n-th. */
  ghost predicate StopsAfter(m: Mem, src: int, dst: int, inc: int, repe: bool, k: nat, n: nat) {
    && k <= n
    && (forall j: nat :: j < k - 1 ==> !Stops(m, src, dst, inc, repe, j))
    && (k < n ==> k > 0 && Stops(m, src, dst, inc, repe, k - 1))
  }

  lemma StopsStart(m: Mem, src: int, dst: int, inc: int, repe: bool)
    ensures StopsAfter(m, src, dst, inc, repe, 0, 0)
  {
  }

  lemma StopsNext(m: Mem, src: int, dst: int, inc: int, repe: bool, k: nat)
    requires StopsAfter(m, src, dst, inc, repe, k, k) && (k > 0 ==> !Stops(m, src, dst, inc, repe, k - 1))
    ensures StopsAfter(m, src, dst, inc, repe, k + 1, k + 1)
  {
    hide Stops;
  }

  lemma StopsLast(m: Mem, src: int, dst: int, inc: int, repe: bool, k: nat, n: nat)
    requires StopsAfter(m, src, dst, inc, repe, k, k) && k <= n
    requires k < n ==> k > 0 && Stops(m, src, dst, inc, repe, k - 1)
    ensures StopsAfter(m, src, dst, inc, repe, k, n)
  {
    hide Stops;
  }

  /** Condition codes 4 and 5 after a comparison. */
  lemma ComparedCondition(f: Flags, d: byte, s: byte)
    requires Compared(f, d, s)
    ensures EvalCondition(f, 4) <==> d == s
    ensures EvalCondition(f, 5) <==> d != s
  {
    hide Pow2, EvalCondition;
    BytePower();
    ComparisonConditions(8, d, s, f);
    OddConditions(f, 4);
  }

  /** The same for a scan of the elements for one byte. */
  predicate ScanStops(m: Mem, al: byte, dst: int, inc: int, repe: bool, k: nat) {
    if repe then al != At(m, dst, inc, k) else al == At(m, dst, inc, k)
  }

  ghost predicate ScanStopsAfter(m: Mem, al: byte, dst: int, inc: int, repe: bool, k: nat, n: nat) {
    && k <= n
    && (forall j: nat :: j < k - 1 ==> !ScanStops(m, al, dst, inc, repe, j))
    && (k < n ==> k > 0 && ScanStops(m, al, dst, inc, repe, k - 1))
  }

  class StringUnit {
    var regs: Regs
    var mem: Mem
    var df: bool
    const alu: Alu

    constructor (regs: Regs, mem: Mem, df: bool, alu: Alu)
      ensures this.regs == regs && this.mem == mem && this.df == df && this.alu == alu
    {
      this.regs, this.mem, this.df, this.alu := regs, mem, df, alu;
    }

    function Step(w: nat): int
      reads this`df
    {
      if df then 0 - w else w
    }

    function Count(rep: bool): u32
      reads this`regs
    {
      if rep then regs.ecx else 1
    }

    /** movs: the counter is cleared first, then the elements are moved. */
    method Movs(w: nat, rep: bool)
      modifies this`regs, this`mem
      ensures var n: nat, inc: int := if rep then old(regs.ecx) else 1, if old(df) then 0 - w else w;
        && mem == Moved(old(mem), old(regs.esi), old(regs.edi), inc, w, n)
        && regs == old(regs).(esi := Wrap(old(regs.esi) + inc * n), edi := Wrap(old(regs.edi) + inc * n),
                              ecx := if rep then 0 else old(regs.ecx))
    {
      hide Get, Put, Wrap, Nth;
      ghost var src: int, dst: int, n, m := regs.esi, regs.edi, Count(rep), mem;
      var inc := Step(w);
      var count: int := 1;
      if rep {
        count := regs.ecx;
        regs := regs.(ecx := 0);
      }
      ghost var k := 0;
      NthStart(src, inc); NthStart(dst, inc);
      while count > 0
        invariant 0 <= count && count + k == n
        invariant Moved(mem, Nth(src, inc, k), Nth(dst, inc, k), inc, w, n - k) == Moved(m, src, dst, inc, w, n)
        invariant regs == old(regs).(esi := Wrap(Nth(src, inc, k)), edi := Wrap(Nth(dst, inc, k)),
                                     ecx := if rep then 0 else old(regs.ecx))
      {
        GetWrap(mem, Nth(src, inc, k), w);
        PutWrap(mem, Nth(dst, inc, k), Get(mem, regs.esi, w));
        NthNext(src, inc, k); NthNext(dst, inc, k);
        mem := Put(mem, regs.edi, Get(mem, regs.esi, w));
        regs := regs.(esi := Wrap(regs.esi + inc));
        regs := regs.(edi := Wrap(regs.edi + inc));
        count := count - 1;
        k := k + 1;
      }
      NthMeans(src, inc, n); NthMeans(dst, inc, n);
    }

    /** stos: the low w bytes of EAX. */
    method Stos(w: nat, rep: bool)
      requires w <= 4
      modifies this`regs, this`mem
      ensures var n: nat, inc: int := if rep then old(regs.ecx) else 1, if old(df) then 0 - w else w;
        && mem == Stored(old(mem), old(regs.edi), inc, LE4(old(regs.eax))[..w], n)
        && regs == old(regs).(edi := Wrap(old(regs.edi) + inc * n), ecx := if rep then 0 else old(regs.ecx))
    {
      hide Get, Put, Wrap, Nth, LE4;
      ghost var dst: int, n, m := regs.edi, Count(rep), mem;
      var inc := Step(w);
      var value := LE4(regs.eax)[..w];
      var count: int := 1;
      if rep {
        count := regs.ecx;
        regs := regs.(ecx := 0);
      }
      ghost var k := 0;
      NthStart(dst, inc);
      while count > 0
        invariant 0 <= count && count + k == n
        invariant Stored(mem, Nth(dst, inc, k), inc, value, n - k) == Stored(m, dst, inc, value, n)
        invariant regs == old(regs).(edi := Wrap(Nth(dst, inc, k)), ecx := if rep then 0 else old(regs.ecx))
      {
        PutWrap(mem, Nth(dst, inc, k), value);
        NthNext(dst, inc, k);
        mem := Put(mem, regs.edi, value);
        regs := regs.(edi := Wrap(regs.edi + inc));
        count := count - 1;
        k := k + 1;
      }
      NthMeans(dst, inc, n);
    }

    /** One comparison of cmps: flags, then both indexes. */
    method CompareOnce(v1: byte, v2: byte, inc: int)
      modifies this`regs, alu
      ensures Compared(alu.F(), v1, v2)
      ensures regs == old(regs).(esi := Wrap(old(regs.esi) + inc), edi := Wrap(old(regs.edi) + inc))
    {
      hide Wrap, Pow2;
      BytePower();
      var d := alu.Cmp(Byte, v1, v2);
      regs := regs.(esi := Wrap(regs.esi + inc));
      regs := regs.(edi := Wrap(regs.edi + inc));
    }

    /** cmps on bytes; k elements are examined. A repeated comparison stops behind the first pair that
        differs (repe) or agrees (repne), and the flags are those of the last comparison. */
    method CmpsByte(rep: bool, repe: bool) returns (ghost k: nat)
      modifies this`regs, alu
      ensures Examined(old(regs.ecx), rep, k)
      ensures var src, dst, inc := old(regs.esi), old(regs.edi), if old(df) then -1 else 1;
        && regs == old(regs).(esi := Wrap(src + inc * k), edi := Wrap(dst + inc * k),
                              ecx := if rep then old(regs.ecx) - k else old(regs.ecx))
        && (rep ==> StopsAfter(mem, src, dst, inc, repe, k, old(regs.ecx)))
        && (if k == 0 then alu.F() == old(alu.F())
            else Compared(alu.F(), At(mem, src, inc, k - 1), At(mem, dst, inc, k - 1)))
    {
      hide Wrap, Nth, EvalCondition, Compared, StopsAfter;
      var inc := Step(1);
      var cond := if repe then 5 else 4;
      ghost var src: int, dst: int, r, f := regs.esi, regs.edi, regs, alu.F();
      NthStart(regs.esi, inc); NthStart(regs.edi, inc);
      StopsStart(mem, src, dst, inc, repe);
      k := 0;
      if !rep {
        NthNext(src, inc, 0); NthNext(dst, inc, 0);
        CompareOnce(mem[regs.esi], mem[regs.edi], inc);
        k := 1;
        NthMeans(src, inc, 1); NthMeans(dst, inc, 1);
        return;
      }
      while regs.ecx != 0
        invariant k <= r.ecx && StopsAfter(mem, src, dst, inc, repe, k, k)
        invariant k > 0 ==> !Stops(mem, src, dst, inc, repe, k - 1)
        invariant regs == r.(esi := Wrap(Nth(src, inc, k)), edi := Wrap(Nth(dst, inc, k)), ecx := r.ecx - k)
        invariant if k == 0 then alu.F() == f
                  else Compared(alu.F(), At(mem, src, inc, k - 1), At(mem, dst, inc, k - 1))
        decreases regs.ecx
      {
        var v1, v2 := mem[regs.esi], mem[regs.edi];
        NthNext(src, inc, k); NthNext(dst, inc, k);
        StopsNext(mem, src, dst, inc, repe, k);
        CompareOnce(v1, v2, inc);
        regs := regs.(ecx := regs.ecx - 1);
        k := k + 1;
        ComparedCondition(alu.F(), v1, v2);
        if EvalCondition(alu.F(), cond) {
          break;
        }
      }
      NthMeans(src, inc, k); NthMeans(dst, inc, k);
      StopsLast(mem, src, dst, inc, repe, k, r.ecx);
    }

    method ScanOnce(val: byte, inc: int)
      modifies this`regs, alu
      ensures Compared(alu.F(), old(regs.eax) % 0x100, val)
      ensures regs == old(regs).(edi := Wrap(old(regs.edi) + inc))
    {
      hide Wrap, Pow2;
      BytePower();
      var d := alu.Cmp(Byte, regs.eax % 0x100, val);
      regs := regs.(edi := Wrap(regs.edi + inc));
    }

    /** scas on bytes: AL against the elements at EDI, stopping in the same way. */
    method ScasByte(rep: bool, repe: bool) returns (ghost k: nat)
      modifies this`regs, alu
      ensures Examined(old(regs.ecx), rep, k)
      ensures var al, dst, inc := old(regs.eax) % 0x100, old(regs.edi), if old(df) then -1 else 1;
        && regs == old(regs).(edi := Wrap(dst + inc * k), ecx := if rep then old(regs.ecx) - k else old(regs.ecx))
        && (rep ==> ScanStopsAfter(mem, al, dst, inc, repe, k, old(regs.ecx)))
        && (if k == 0 then alu.F() == old(alu.F()) else Compared(alu.F(), al, At(mem, dst, inc, k - 1)))
    {
      hide Wrap, Nth, EvalCondition, Compared;
      var inc := Step(1);
      var cond := if repe then 5 else 4;
      ghost var al, dst: int, r, f := regs.eax % 0x100, regs.edi, regs, alu.F();
      NthStart(regs.edi, inc);
      k := 0;
      if !rep {
        NthNext(dst, inc, 0);
        ScanOnce(mem[regs.edi], inc);
        k := 1;
        NthMeans(dst, inc, 1);
        return;
      }
      while regs.ecx != 0
        invariant k <= r.ecx && ScanStopsAfter(mem, al, dst, inc, repe, k, k)
        invariant k > 0 ==> !ScanStops(mem, al, dst, inc, repe, k - 1)
        invariant regs == r.(edi := Wrap(Nth(dst, inc, k)), ecx := r.ecx - k)
        invariant if k == 0 then alu.F() == f else Compared(alu.F(), al, At(mem, dst, inc, k - 1))
        decreases regs.ecx
      {
        var val := mem[regs.edi];
        NthNext(dst, inc, k);
        ScanOnce(val, inc);
        regs := regs.(ecx := regs.ecx - 1);
        k := k + 1;
        ComparedCondition(alu.F(), al, val);
        if EvalCondition(alu.F(), cond) {
          break;
        }
      }
      NthMeans(dst, inc, k);
    }
  }

  // ---- what repeated byte moves amount to --------------------------------------------------

  function Direction(down: bool): int {
    if down then -1 else 1
  }

  /** The i-th address in the direction of the move. */
  function Along(a: int, down: bool, i: int): int {
    if down then a - i else a + i
  }

  /** How far the target is ahead of the source in the direction of the move; a full turn of the
      address space when they are the same. */
  function Lead(src: int, dst: int, down: bool): (d: nat)
    ensures 0 < d <= SIZE
  {
    var d := if down then Wrap(src - dst) else Wrap(dst - src);
    if d == 0 then SIZE else d
  }

  /** Put of one byte. */
  lemma PutOne(m: Mem, a: int, b: byte, x: u32)
    ensures Put(m, a, [b])[x] == if x == Wrap(a) then b else m[x]
  {
    WrapAgain(a, x);
  }

  /** The distance of x from a in the direction of the move. */
  function Distance(x: int, a: int, down: bool): u32 {
    if down then Wrap(a - x) else Wrap(x - a)
  }

  lemma DistanceNext(x: int, a: int, down: bool)
    ensures Distance(x, Along(a, down, 1), down)
         == if Distance(x, a, down) == 0 then SIZE - 1 else Distance(x, a, down) - 1
    ensures Distance(x, a, down) == 0 ==> Wrap(x) == Wrap(a)
    ensures Along(a, down, 1) == a + Direction(down)
  {
    var e := if down then a - x else x - a;
    var q, r := e / SIZE, e % SIZE;
    var p, u := a / SIZE, a % SIZE;
    DivModUnique(e - 1, SIZE, if r == 0 then q - 1 else q, if r == 0 then SIZE - 1 else r - 1);
    if r == 0 {
      DivModUnique(x, SIZE, if down then p - q else p + q, u);
    }
  }

  lemma GetOne(m: Mem, a: int)
    ensures Get(m, a, 1) == [m[Wrap(a)]]
  {
  }

  lemma SameDistance(x: u32, a: int, down: bool)
    ensures x == Wrap(a) ==> Distance(x, a, down) == 0
  {
    WrapAgain(a, 0 - a);
    WrapAgain(a, a);
  }

  /** Bytes that the moves do not reach are unchanged. */
  lemma {:induction false} MovedElsewhere(m: Mem, src: int, dst: int, down: bool, n: nat, x: u32)
    requires Distance(x, dst, down) >= n
    ensures Moved(m, src, dst, Direction(down), 1, n)[x] == m[x]
    decreases n
  {
    hide Put, Get, Wrap, Distance, Along;
    if n > 0 {
      var m1 := Put(m, dst, Get(m, src, 1));
      DistanceNext(x, dst, down);
      MovedElsewhere(m1, src + Direction(down), dst + Direction(down), down, n - 1, x);
      GetOne(m, src);
      PutOne(m, dst, m[Wrap(src)], x);
      SameDistance(x, dst, down);
    }
  }

  lemma MovedUnfold(m: Mem, src: int, dst: int, step: int, n: nat)
    requires n > 0
    ensures Moved(m, src, dst, step, 1, n)
         == Moved(Put(m, dst, Get(m, src, 1)), src + step, dst + step, step, 1, n - 1)
  {
  }

  lemma SameLead(src: int, dst: int, down: bool)
    ensures Lead(src + Direction(down), dst + Direction(down), down) == Lead(src, dst, down)
  {
  }

  lemma WrapOf(q: int, r: u32, e: int)
    requires -SIZE <= e <= SIZE
    ensures Wrap(q * SIZE + (r + e)) == r <==> e == 0 || e == SIZE || e == -SIZE
  {
  }

  /** The j-th source address is the first target address exactly when j is the lead. */
  lemma LeadMeets(src: int, dst: int, down: bool, j: nat)
    requires 0 < j <= Lead(src, dst, down) && j <= SIZE
    ensures Wrap(Along(src, down, j)) == Wrap(dst) <==> j == Lead(src, dst, down)
  {
    var d := if down then Wrap(src - dst) else Wrap(dst - src);
    var q := (if down then src - dst else dst - src) / SIZE;
    assert (if down then src - dst else dst - src) == q * SIZE + d;
    var p, r := dst / SIZE, Wrap(dst);
    assert dst == p * SIZE + r;
    if down {
      assert src - j == (p + q) * SIZE + (r + d - j);
      WrapOf(p + q, r, d - j);
    } else {
      assert src + j == (p - q) * SIZE + (r - (d - j));
      WrapOf(p - q, r, j - d);
    }
  }

  /** The i-th byte stored is the (i modulo lead)-th byte of the original source: when the target runs
      ahead inside the source range, the bytes before it are repeated. */
  lemma {:induction false} MovedByte(m: Mem, src: int, dst: int, down: bool, n: nat, i: nat)
    requires i < n < SIZE
    ensures Moved(m, src, dst, Direction(down), 1, n)[Wrap(Along(dst, down, i))]
         == m[Wrap(Along(src, down, i % Lead(src, dst, down)))]
    decreases n
  {
    hide Put, Get, Moved, Lead, Wrap, Distance;
    var step := Direction(down);
    var m1 := Put(m, dst, Get(m, src, 1));
    var lead := Lead(src, dst, down);
    MovedUnfold(m, src, dst, step, n);
    GetOne(m, src);
    if i == 0 {
      var x := Wrap(dst);
      SameDistance(x, dst, down);
      DistanceNext(x, dst, down);
      MovedElsewhere(m1, src + step, dst + step, down, n - 1, x);
      PutOne(m, dst, m[Wrap(src)], x);
      assert 0 % lead == 0;
    } else {
      MovedByte(m1, src + step, dst + step, down, n - 1, i - 1);
      SameLead(src, dst, down);
      var j := 1 + (i - 1) % lead;
      PutOne(m, dst, m[Wrap(src)], Wrap(Along(src, down, j)));
      LeadMeets(src, dst, down, j);
      NextRemainder(i - 1, lead);
    }
  }

  predicate Copied(m: Mem, m': Mem, src: int, dst: int, down: bool, i: nat) {
    m'[Wrap(Along(dst, down, i))] == m[Wrap(Along(src, down, i))]
  }

  predicate Repeats(m: Mem, src: int, dst: int, down: bool, i: nat) {
    m[Wrap(Along(src, down, i))] == m[Wrap(Along(src, down, i % Lead(src, dst, down)))]
  }

  /** The n target bytes of m' are the n source bytes of m. */
  ghost predicate IsBlockCopy(m: Mem, m': Mem, src: int, dst: int, down: bool, n: nat) {
    forall i: nat :: i < n ==> Copied(m, m', src, dst, down, i)
  }

  /** The source bytes repeat with a period of the lead. */
  ghost predicate IsPeriodic(m: Mem, src: int, dst: int, down: bool, n: nat) {
    forall i: nat :: i < n ==> Repeats(m, src, dst, down, i)
  }

  lemma CopiedMeans(m: Mem, src: int, dst: int, down: bool, n: nat, i: nat)
    requires i < n < SIZE
    ensures Copied(m, Moved(m, src, dst, Direction(down), 1, n), src, dst, down, i) == Repeats(m, src, dst, down, i)
  {
    hide Moved, Lead, Wrap, Along;
    MovedByte(m, src, dst, down, n, i);
  }

  lemma NoTurn(m: Mem, src: int, dst: int, down: bool, i: nat)
    requires i < Lead(src, dst, down)
    ensures Repeats(m, src, dst, down, i)
  {
    hide Lead, Wrap, Along;
    DivModUnique(i, Lead(src, dst, down), 0, i);
  }

  /** rep movsb is a block copy of n bytes exactly when the source repeats with a period of the lead;
      every source does when the target is the source or at least n bytes ahead of it, that is for
      disjoint ranges and for overlap in the safe direction. */
  lemma BlockCopyExactly(m: Mem, src: int, dst: int, down: bool, n: nat)
    requires n < SIZE
    ensures IsBlockCopy(m, Moved(m, src, dst, Direction(down), 1, n), src, dst, down, n)
       <==> IsPeriodic(m, src, dst, down, n)
    ensures Lead(src, dst, down) >= n ==> IsPeriodic(m, src, dst, down, n)
  {
    hide Moved, Lead, Wrap, Along, Copied, Repeats;
    var m' := Moved(m, src, dst, Direction(down), 1, n);
    forall i: nat | i < n ensures Copied(m, m', src, dst, down, i) == Repeats(m, src, dst, down, i) {
      CopiedMeans(m, src, dst, down, n, i);
    }
    if Lead(src, dst, down) >= n {
      forall i: nat | i < n ensures Repeats(m, src, dst, down, i) {
        NoTurn(m, src, dst, down, i);
      }
    }
  }

  /** Two bytes moved upwards by one: the first byte overwrites the second before that is read, so it
      ends up in both places. */
  lemma LeadRepeated(m: Mem)
    requires m[0] != m[1]
    ensures var m' := Moved(m, 0, 1, Direction(false), 1, 2);
      m'[1] == m'[2] == m[0] && !IsBlockCopy(m, m', 0, 1, false, 2)
  {
    hide Moved;
    MovedByte(m, 0, 1, false, 2, 0);
    MovedByte(m, 0, 1, false, 2, 1);
    assert !Copied(m, Moved(m, 0, 1, Direction(false), 1, 2), 0, 1, false, 1);
  }

  // ---- wider elements ----------------------------------------------------------------------

  /** Moving w bytes at a time upwards between disjoint ranges copies the block. */
  lemma {:induction false} MovedUp(m: Mem, src: int, dst: int, w: nat, n: nat)
    requires w * n <= SIZE && Apart(src, w * n, dst, w * n)
    ensures Moved(m, src, dst, w, w, n) == Put(m, dst, Get(m, src, w * n))
    decreases n
  {
    hide Put, Get, Apart;
    if n == 0 {
      PutNone(m, dst);
      assert Get(m, src, w * n) == [];
    } else {
      var rest := w * (n - 1);
      assert w * n == w + rest by { Distribute(w, n, 1); }
      var m1 := Put(m, dst, Get(m, src, w));
      ApartSub(src, w * n, dst, w * n, w, rest, 0, w);
      GetPutApart(m, dst, Get(m, src, w), src + w, rest);
      ApartSub(src, w * n, dst, w * n, w, rest, w, rest);
      MovedUp(m1, src + w, dst + w, w, n - 1);
      PutPut(m, dst, Get(m, src, w), Get(m, src + w, rest));
      GetSplit(m, src, w * n, w);
    }
  }

  /** Moving downwards copies the block that ends with the first element. */
  lemma {:induction false} MovedDown(m: Mem, src: int, dst: int, w: nat, n: nat)
    requires n > 0 && w * n <= SIZE
    requires Apart(src - w * (n - 1), w * n, dst - w * (n - 1), w * n)
    ensures Moved(m, src, dst, 0 - w, w, n) == Put(m, dst - w * (n - 1), Get(m, src - w * (n - 1), w * n))
    decreases n
  {
    hide Put, Get, Apart;
    var m1 := Put(m, dst, Get(m, src, w));
    if n == 1 {
      assert Moved(m1, src - w, dst - w, 0 - w, w, 0) == m1;
    } else {
      var rest := w * (n - 1);
      var s, d := src - rest, dst - rest;
      assert w * n == w + rest && w * (n - 2) == rest - w by { Distribute(w, n, 1); Distribute(w, n, 2); }
      ApartSub(s, w * n, d, w * n, 0, rest, rest, w);
      GetPutApart(m, dst, Get(m, src, w), s, rest);
      ApartSub(s, w * n, d, w * n, 0, rest, 0, rest);
      MovedDown(m1, src - w, dst - w, w, n - 1);
      PutBelow(m, d, Get(m, s, rest), Get(m, src, w));
      GetSplit(m, s, w * n, rest);
    }
  }

  /** Storing upwards or downwards fills the block with the value. */
  lemma {:induction false} StoredUp(m: Mem, dst: int, value: seq<byte>, n: nat)
    requires |value| * n <= SIZE
    ensures Stored(m, dst, |value|, value, n) == Put(m, dst, Repeat(value, n))
    decreases n
  {
    hide Put;
    if n == 0 {
      PutNone(m, dst);
    } else {
      Distribute(|value|, n, 1);
      StoredUp(Put(m, dst, value), dst + |value|, value, n - 1);
      PutPut(m, dst, value, Repeat(value, n - 1));
    }
  }

  lemma {:induction false} RepeatEnd(value: seq<byte>, n: nat)
    requires n > 0
    ensures Repeat(value, n) == Repeat(value, n - 1) + value
  {
    if n > 1 {
      RepeatEnd(value, n - 1);
    } else {
      assert Repeat(value, 1) == value + Repeat(value, 0) == value;
    }
  }

  lemma {:induction false} StoredDown(m: Mem, dst: int, value: seq<byte>, n: nat)
    requires n > 0 && |value| * n <= SIZE
    ensures Stored(m, dst, 0 - |value|, value, n) == Put(m, dst - |value| * (n - 1), Repeat(value, n))
    decreases n
  {
    hide Put;
    var w, m1 := |value|, Put(m, dst, value);
    if n == 1 {
      assert Stored(m1, dst - w, 0 - w, value, 0) == m1;
      assert Repeat(value, 1) == value + Repeat(value, 0) == value;
    } else {
      Distribute(w, n, 1); Distribute(w, n, 2);
      StoredDown(m1, dst - w, value, n - 1);
      PutBelow(m, dst - w * (n - 1), Repeat(value, n - 1), value);
      RepeatEnd(value, n);
    }
  }

  // ---- what repeated comparisons decide ----------------------------------------------------

  lemma ComparedFlags(f: Flags, d: byte, s: byte)
    requires Compared(f, d, s)
    ensures f.zf <==> d == s
    ensures f.cf <==> d < s
  {
    hide Pow2;
    BytePower();
    ComparisonConditions(8, d, s, f);
  }

  lemma AtMeans(m: Mem, a: int, inc: int, k: nat)
    ensures At(m, a, inc, k) == m[Wrap(a + inc * k)]
  {
  }

  /** The k-th bytes of two strings are the same. */
  predicate SameAt(m: Mem, src: int, dst: int, inc: int, k: nat) {
    m[Wrap(src + inc * k)] == m[Wrap(dst + inc * k)]
  }

  predicate ByteAt(m: Mem, dst: int, inc: int, k: nat, b: byte) {
    m[Wrap(dst + inc * k)] == b
  }

  lemma SameMeans(m: Mem, src: int, dst: int, inc: int, j: nat)
    ensures SameAt(m, src, dst, inc, j) <==> At(m, src, inc, j) == At(m, dst, inc, j)
  {
  }

  /** After repe cmpsb of n pairs ZF says whether the ranges are equal; if they are not, the last pair
      examined is the first difference, and CF says which side is smaller there. */
  lemma EqualRanges(m: Mem, src: int, dst: int, inc: int, k: nat, n: nat, f: Flags)
    requires n > 0 && StopsAfter(m, src, dst, inc, true, k, n)
    requires k > 0 && Compared(f, At(m, src, inc, k - 1), At(m, dst, inc, k - 1))
    ensures f.zf <==> forall j: nat :: j < n ==> SameAt(m, src, dst, inc, j)
    ensures !f.zf ==>
      && (forall j: nat :: j < k - 1 ==> SameAt(m, src, dst, inc, j))
      && (f.cf <==> m[Wrap(src + inc * (k - 1))] < m[Wrap(dst + inc * (k - 1))])
      && !SameAt(m, src, dst, inc, k - 1)
  {
    hide Wrap, Compared, EvalCondition, At, SameAt;
    AtMeans(m, src, inc, k - 1);
    AtMeans(m, dst, inc, k - 1);
    ComparedFlags(f, At(m, src, inc, k - 1), At(m, dst, inc, k - 1));
    SameMeans(m, src, dst, inc, k - 1);
    forall j: nat | j < k - 1 ensures SameAt(m, src, dst, inc, j) {
      assert !Stops(m, src, dst, inc, true, j);
      SameMeans(m, src, dst, inc, j);
    }
  }

  /** After repne scasb over n bytes ZF says whether AL occurs among them; if it does, the last byte
      examined is its first occurrence. */
  lemma FirstOccurrence(m: Mem, al: byte, dst: int, inc: int, k: nat, n: nat, f: Flags)
    requires n > 0 && ScanStopsAfter(m, al, dst, inc, false, k, n)
    requires k > 0 && Compared(f, al, At(m, dst, inc, k - 1))
    ensures f.zf <==> exists j: nat :: j < n && ByteAt(m, dst, inc, j, al)
    ensures f.zf ==> ByteAt(m, dst, inc, k - 1, al) && forall j: nat :: j < k - 1 ==> !ByteAt(m, dst, inc, j, al)
  {
    hide Wrap, Compared, EvalCondition, At;
    ComparedFlags(f, al, At(m, dst, inc, k - 1));
    AtMeans(m, dst, inc, k - 1);
    forall j: nat | j < k - 1 ensures !ByteAt(m, dst, inc, j, al) {
      assert !ScanStops(m, al, dst, inc, false, j);
      AtMeans(m, dst, inc, j);
    }
    assert f.zf <==> ByteAt(m, dst, inc, k - 1, al);
    assert k < n ==> ScanStops(m, al, dst, inc, false, k - 1);
    forall j: nat | j < n && !f.zf ensures !ByteAt(m, dst, inc, j, al) {
      assert j < k - 1 || j == k - 1;
    }
  }

  // ---- the repeated instructions as a program sees them ------------------------------------

  lemma SomeExamined(m: Mem, src: int, dst: int, inc: int, repe: bool, k: nat, n: nat)
    requires StopsAfter(m, src, dst, inc, repe, k, n) && n > 0
    ensures k > 0
  {
    hide Stops;
  }

  /** repe cmpsb: ZF says whether ECX bytes in the direction of DF agree. */
  method CompareStrings(u: StringUnit)
    requires u.regs.ecx > 0
    modifies u`regs, u.alu
    ensures var src, dst, n, inc := old(u.regs.esi), old(u.regs.edi), old(u.regs.ecx), if u.df then -1 else 1;
      u.alu.zf <==> forall j: nat :: j < n ==> SameAt(u.mem, src, dst, inc, j)
  {
    hide StopsAfter, Compared, SameAt, At, Wrap;
    ghost var src, dst, n, inc := u.regs.esi, u.regs.edi, u.regs.ecx, if u.df then -1 else 1;
    ghost var k := u.CmpsByte(true, true);
    SomeExamined(u.mem, src, dst, inc, true, k, n);
    EqualRanges(u.mem, src, dst, inc, k, n, u.alu.F());
  }

  lemma SomeScanned(m: Mem, al: byte, dst: int, inc: int, repe: bool, k: nat, n: nat)
    requires ScanStopsAfter(m, al, dst, inc, repe, k, n) && n > 0
    ensures 0 < k <= n
  {
    hide ScanStops;
  }

  /** repne scasb: ZF says whether AL occurs in ECX bytes in the direction of DF, and EDI is then behind
      its first occurrence. */
  method FindByte(u: StringUnit)
    requires u.regs.ecx > 0
    modifies u`regs, u.alu
    ensures var al, dst, n, inc := old(u.regs.eax) % 0x100, old(u.regs.edi), old(u.regs.ecx), if u.df then -1 else 1;
      && (u.alu.zf <==> exists j: nat :: j < n && ByteAt(u.mem, dst, inc, j, al))
      && (u.alu.zf ==>
            exists j: nat :: j < n && ByteAt(u.mem, dst, inc, j, al) && u.regs.edi == Wrap(dst + inc * (j + 1))
                             && forall i: nat :: i < j ==> !ByteAt(u.mem, dst, inc, i, al))
  {
    hide ScanStopsAfter, Compared, ByteAt, At, Wrap;
    ghost var al, dst, n, inc := u.regs.eax % 0x100, u.regs.edi, u.regs.ecx, if u.df then -1 else 1;
    ghost var k := u.ScasByte(true, false);
    SomeScanned(u.mem, al, dst, inc, false, k, n);
    FirstOccurrence(u.mem, al, dst, inc, k, n, u.alu.F());
    assert k == (k - 1) + 1;
  }

  lemma LeadMeans(src: u32, dst: u32)
    ensures Lead(src, dst, false) == if src == dst then SIZE else Wrap(dst - src)
  {
  }

  /** rep movsb upwards: every byte stored is a source byte, the i-th one modulo the distance from source
      to target. */
  method MoveBytes(u: StringUnit)
    requires !u.df
    modifies u`regs, u`mem
    ensures var src, dst, n := old(u.regs.esi), old(u.regs.edi), old(u.regs.ecx);
      var lead := if src == dst then SIZE else Wrap(dst - src);
      && (forall i: nat :: i < n ==> u.mem[Wrap(dst + i)] == old(u.mem)[Wrap(src + i % lead)])
      && (forall x: u32 :: Wrap(x - dst) >= n ==> u.mem[x] == old(u.mem)[x])
      && u.regs == old(u.regs).(esi := Wrap(src + n), edi := Wrap(dst + n), ecx := 0)
  {
    hide Moved, Wrap;
    ghost var m, src, dst, n := u.mem, u.regs.esi, u.regs.edi, u.regs.ecx;
    u.Movs(1, true);
    LeadMeans(src, dst);
    forall i: nat | i < n ensures u.mem[Wrap(dst + i)] == m[Wrap(src + i % Lead(src, dst, false))] {
      MovedByte(m, src, dst, false, n, i);
    }
    forall x: u32 | Wrap(x - dst) >= n ensures u.mem[x] == m[x] {
      MovedElsewhere(m, src, dst, false, n, x);
    }
  }

  /** rep stos upwards: ECX copies of the low w bytes of EAX from EDI on. */
  method FillMemory(u: StringUnit, w: nat)
    requires !u.df && (w == 1 || w == 2 || w == 4) && w * u.regs.ecx <= SIZE
    modifies u`regs, u`mem
    ensures u.mem == Put(old(u.mem), old(u.regs.edi), Repeat(LE4(old(u.regs.eax))[..w], old(u.regs.ecx)))
    ensures u.regs == old(u.regs).(edi := Wrap(old(u.regs.edi) + w * old(u.regs.ecx)), ecx := 0)
  {
    hide Stored, Wrap, Put, LE4, Repeat;
    ghost var m, dst, n, value := u.mem, u.regs.edi, u.regs.ecx, LE4(u.regs.eax)[..w];
    u.Stos(w, true);
    StoredUp(m, dst, value, n);
  }
}
