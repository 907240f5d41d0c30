/** gcd and permute_args of include/getopt.h: two adjacent blocks of an array change places by
    walking gcd-many cycles. The number theory below says where each cycle is after k steps. */
module Permuter {
  import opened Arithmetic

  /** Only 1 times g is g. */
  lemma CancelFactor(g: int, x: int)
    requires g > 0 && g * x == g
    ensures x == 1
  {
    if x < 1 {
      MulMono(x, 0, g);
    } else if x > 1 {
      MulMono(2, x, g);
    }
  }

  ghost predicate Divides(d: int, x: int)
  {
    exists q :: x == d * q
  }

  // ---- the greatest common divisor ------------------------------------------------------

  function GcdOf(a: nat, b: nat): (g: nat)
    requires b > 0
    ensures 0 < g <= b
    decreases b
  {
    if a % b == 0 then b else GcdOf(b, a % b)
  }

  lemma {:induction false} Bezout(a: nat, b: nat) returns (x: int, y: int)
    requires b > 0
    ensures GcdOf(a, b) == x * a + y * b
    decreases b
  {
    var q := a / b;
    if a % b == 0 {
      x, y := 0, 1;
    } else {
      var x', y' := Bezout(b, a % b);
      x, y := y', x' - y' * q;
      calc {
        x * a + y * b;
        y' * (q * b + a % b) + (x' - y' * q) * b;
        { assert y' * (q * b + a % b) == y' * (q * b) + y' * (a % b); assert (x' - y' * q) * b == x' * b - y' * q * b;
          assert y' * (q * b) == y' * q * b; }
        x' * b + y' * (a % b);
      }
    }
  }

  lemma DividesDividend(g: int, t: int, p: int, q: int)
    ensures t * (g * p) + g * q == g * (t * p + q)
  {
    assert t * (g * p) == g * (t * p);
    Distribute(g, t * p, q);
  }

  /** A divisor of b and of a modulo b divides a. */
  lemma NextFactors(a: nat, b: nat, g: nat, p': nat, q': nat) returns (p: nat, q: nat)
    requires b > 0 && b == g * p' && a % b == g * q'
    ensures a == g * p && b == g * q
  {
    var t := a / b;
    MulMono(0, t, p');
    p, q := t * p' + q', p';
    DividesDividend(g, t, p', q');
  }

  lemma {:induction false} GcdDivides(a: nat, b: nat) returns (p: nat, q: nat)
    requires b > 0
    ensures a == GcdOf(a, b) * p && b == GcdOf(a, b) * q
    decreases b
  {
    if a % b == 0 {
      p, q := a / b, 1;
    } else {
      var p', q' := GcdDivides(b, a % b);
      p, q := NextFactors(a, b, GcdOf(b, a % b), p', q');
    }
  }

  lemma CommonFactor(x: int, i: int, y: int, j: int, d: int)
    ensures x * (d * i) + y * (d * j) == d * (x * i + y * j)
  {
    assert x * (d * i) == d * (x * i);
    assert y * (d * j) == d * (y * j);
  }

  /** GcdOf is the greatest common divisor: it divides both, and every common divisor divides it. */
  lemma GcdIsGreatest(a: nat, b: nat, d: int)
    requires b > 0
    ensures Divides(GcdOf(a, b), a) && Divides(GcdOf(a, b), b)
    ensures Divides(d, a) && Divides(d, b) ==> Divides(d, GcdOf(a, b))
  {
    var p, q := GcdDivides(a, b);
    if Divides(d, a) && Divides(d, b) {
      var i :| a == d * i;
      var j :| b == d * j;
      var x, y := Bezout(a, b);
      CommonFactor(x, i, y, j, d);
    }
  }

  method Gcd(a: nat, b: nat) returns (g: nat)
    requires b > 0
    ensures g == GcdOf(a, b)
  {
    var x, y := a, b;
    var c := x % y;
    while c != 0
      invariant y > 0 && c == x % y
      invariant GcdOf(x, y) == GcdOf(a, b)
      decreases c
    {
      x := y;
      y := c;
      c := x % y;
    }
    return y;
  }

  // ---- the cycles -----------------------------------------------------------------------

  lemma ForwardThenInverse(u: int, m1: int, w: int, len: int, k: int, q: int)
    requires u * m1 == 1 + w * len
    ensures u * (k * m1 - q * len) == (k * w - u * q) * len + k
  {
    assert u * (k * m1 - q * len) == u * (k * m1) - u * (q * len);
    assert u * (k * m1) == k * (u * m1) == k * 1 + k * (w * len);
    assert k * (w * len) == (k * w) * len && u * (q * len) == (u * q) * len;
    assert (k * w - u * q) * len == (k * w) * len - (u * q) * len;
  }

  lemma InverseThenForward(u: int, m1: int, w: int, len: int, d: int, q: int, v: int)
    requires u * m1 == 1 + w * len
    requires u * d == q * len + v
    ensures v * m1 == (d * w - q * m1) * len + d
  {
    assert v * m1 == (u * d) * m1 - (q * len) * m1;
    assert (u * d) * m1 == d * (u * m1) == d * 1 + d * (w * len);
    assert d * (w * len) == (d * w) * len && (q * len) * m1 == (q * m1) * len;
    assert (d * w - q * m1) * len == (d * w) * len - (q * m1) * len;
  }

  /** The numbers one permutation works with: block lengths n and m, their gcd g, the cycle length
      len, and an inverse u of m/g modulo len. */
  datatype Cycles = Cycles(n: nat, m: nat, g: nat, n1: nat, m1: nat, u: int, w: int) {
    const len: int := n1 + m1

    ghost predicate Valid() {
      && g > 0 && m1 > 0
      && n == g * n1 && m == g * m1
      && u * m1 == 1 + w * len
    }

    ghost function Turn(k: nat): int
      requires Valid()
    {
      (n1 + k * m1) % len
    }

    /** Slot, relative to the first block, reached after k steps of the cycle that starts at n + i. */
    ghost function Slot(i: nat, k: nat): int
      requires Valid()
    {
      i + g * Turn(k)
    }

    /** The step at which a slot is reached. */
    ghost function StepOf(p: int): int
      requires Valid()
    {
      (u * (p / g - n1)) % len
    }

    lemma FewCycles()
      requires Valid()
      ensures g <= m
    {
      MulMono(1, m1, g);
    }

    lemma SlotRange(i: nat, k: nat)
      requires Valid() && i < g
      ensures 0 <= Slot(i, k) < n + m
      ensures Slot(i, k) / g == Turn(k) && Slot(i, k) % g == i
    {
      var t := (n1 + k * m1) % len;
      DivModUnique(Slot(i, k), g, t, i);
      MulMono(0, t, g);
      MulMono(t + 1, len, g);
    }

    /** One more step of m1 slots modulo len. */
    lemma TurnStep(k: nat)
      requires Valid()
      ensures Turn(k + 1) == if Turn(k) >= n1 then Turn(k) - n1 else Turn(k) + m1
    {
      var t, q := (n1 + k * m1) % len, (n1 + k * m1) / len;
      assert n1 + (k + 1) * m1 == q * len + t + m1;
      if t >= n1 {
        assert q * len + t + m1 == (q + 1) * len + (t - n1);
        DivModUnique(n1 + (k + 1) * m1, len, q + 1, t - n1);
      } else {
        DivModUnique(n1 + (k + 1) * m1, len, q, t + m1);
      }
    }

    lemma SlotStart(i: nat)
      requires Valid() && i < g
      ensures Slot(i, 0) == n + i
    {
      DivModUnique(n1, len, 0, n1);
    }

    /** The source's test-and-shift is one step of a cycle. */
    lemma SlotStep(i: nat, k: nat)
      requires Valid() && i < g
      ensures Slot(i, k + 1) == if Slot(i, k) >= n then Slot(i, k) - n else Slot(i, k) + m
    {
      hide Valid;
      TurnStep(k);
      hide Turn;
      ScaledTurn(i, Turn(k), Turn(k + 1));
    }

    lemma ScaledTurn(i: nat, t: int, t': int)
      requires Valid() && i < g
      requires t' == if t >= n1 then t - n1 else t + m1
      ensures i + g * t' == if i + g * t >= n then i + g * t - n else i + g * t + m
    {
      if t >= n1 {
        MulMono(n1, t, g);
        Distribute(g, t, n1);
      } else {
        MulMono(t + 1, n1, g);
        Distribute(g, t, 1);
        Distribute(g, t, m1);
      }
    }

    /** Different steps of a cycle reach different slots. */
    lemma StepOfSlot(i: nat, k: nat)
      requires Valid() && i < g && k < len
      ensures StepOf(Slot(i, k)) == k
    {
      SlotRange(i, k);
      var q := (n1 + k * m1) / len;
      var t := (n1 + k * m1) % len;
      ForwardThenInverse(u, m1, w, len, k, q);
      assert t - n1 == k * m1 - q * len;
      DivModUnique(u * (t - n1), len, k * w - u * q, k);
    }

    /** Every slot is reached: by the cycle of its residue, at step StepOf. */
    lemma SlotOfStep(p: nat)
      requires Valid() && p < n + m
      ensures 0 <= StepOf(p) < len
      ensures Slot(p % g, StepOf(p)) == p
    {
      var t := p / g;
      assert p == g * t + p % g;
      if t >= len {
        MulMono(len, t, g);
        assert false;
      }
      var q := (u * (t - n1)) / len;
      var v := StepOf(p);
      assert u * (t - n1) == q * len + v;
      InverseThenForward(u, m1, w, len, t - n1, q, v);
      DivModUnique(n1 + v * m1, len, (t - n1) * w - q * m1, t);
    }
  }

  lemma MakeCycles(n: nat, m: nat) returns (c: Cycles)
    requires m > 0
    ensures c.Valid() && c.n == n && c.m == m && c.g == GcdOf(n, m)
    ensures (n + m) / c.g == c.len
  {
    var g := GcdOf(n, m);
    var n1, m1 := GcdDivides(n, m);
    var x, y := Bezout(n, m);
    var len := n1 + m1;
    assert m1 > 0 by { assert m1 != 0; }
    assert x * n1 + y * m1 == 1 by {
      CommonFactor(x, n1, y, m1, g);
      CancelFactor(g, x * n1 + y * m1);
    }
    assert (y - x) * m1 == 1 + (-x) * len by {
      assert (y - x) * m1 == y * m1 - x * m1;
      assert x * len == x * n1 + x * m1;
    }
    c := Cycles(n, m, g, n1, m1, y - x, -x);
    assert n + m == len * g;
    DivModUnique(n + m, g, len, 0);
  }

  /** Step j + 1 reaches a slot not reached before, except that the last one closes the cycle. */
  lemma LastStep(c: Cycles, i: nat)
    requires c.Valid() && i < c.g
    ensures c.Slot(i, c.len) == c.Slot(i, 0)
  {
    var k := c.len;
    var q, t := (c.n1 + 0 * c.m1) / k, (c.n1 + 0 * c.m1) % k;
    assert c.n1 + k * c.m1 == (c.m1 + q) * k + t;
    DivModUnique(c.n1 + k * c.m1, k, c.m1 + q, t);
  }

  /** One move of permute_args: a non-option slot moves down, an option slot moves up. */
  function Shift(p: int, n: int, m: int): int {
    if p >= n then p - n else p + m
  }

  /** A partition of the n + m slots into cycles of one length: slots[i][k] is reached at step k of
      cycle i, and every slot p is reached once, at step[p] of cycle cyc[p]. */
  datatype Tour = Tour(n: nat, m: nat, len: nat, slots: seq<seq<int>>, cyc: seq<int>, step: seq<int>) {
    ghost predicate Shape() {
      && len > 0 && |cyc| == |step| == n + m && |slots| <= m
      && (forall i | 0 <= i < |slots| :: |slots[i]| == len)
      && (forall i | 0 <= i < |slots| :: slots[i][0] == n + i)
    }

    ghost predicate EverySlotReached()
      requires Shape()
    {
      forall p | 0 <= p < n + m ::
        0 <= cyc[p] < |slots| && 0 <= step[p] < len && slots[cyc[p]][step[p]] == p
    }

    ghost predicate ReachedOnce()
      requires Shape()
    {
      forall i, k | 0 <= i < |slots| && 0 <= k < len ::
        0 <= slots[i][k] < n + m && cyc[slots[i][k]] == i && step[slots[i][k]] == k
    }

    ghost predicate StepIsShift(i: int, k: int)
      requires Shape() && 0 <= i < |slots| && 0 <= k < len
    {
      slots[i][if k + 1 == len then 0 else k + 1] == Shift(slots[i][k], n, m)
    }

    ghost predicate FollowsShift()
      requires Shape()
    {
      forall i, k | 0 <= i < |slots| && 0 <= k < len :: StepIsShift(i, k)
    }

    ghost predicate Valid() {
      Shape() && EverySlotReached() && ReachedOnce() && FollowsShift()
    }
  }

  ghost function MakeTour(c: Cycles): (t: Tour)
    requires c.Valid()
    ensures t.Shape()
  {
    hide Cycles.Turn, Cycles.Slot, Cycles.StepOf;
    var slots := seq(c.g, i requires 0 <= i < c.g => seq(c.len, k requires 0 <= k < c.len => c.Slot(i, k)));
    var cyc := seq(c.n + c.m, p requires 0 <= p < c.n + c.m => p % c.g);
    var step := seq(c.n + c.m, p requires 0 <= p < c.n + c.m => c.StepOf(p));
    assert forall i | 0 <= i < c.g :: slots[i][0] == c.n + i by {
      forall i | 0 <= i < c.g ensures slots[i][0] == c.n + i { c.SlotStart(i); }
    }
    c.FewCycles();
    Tour(c.n, c.m, c.len, slots, cyc, step)
  }

  lemma TourReachesEverySlot(c: Cycles)
    requires c.Valid()
    ensures MakeTour(c).EverySlotReached()
  {
    var t := MakeTour(c);
    forall p | 0 <= p < t.n + t.m
      ensures 0 <= t.cyc[p] < |t.slots| && 0 <= t.step[p] < t.len && t.slots[t.cyc[p]][t.step[p]] == p
    {
      c.SlotOfStep(p);
    }
  }

  lemma TourReachesOnce(c: Cycles)
    requires c.Valid()
    ensures MakeTour(c).ReachedOnce()
  {
    var t := MakeTour(c);
    forall i, k | 0 <= i < |t.slots| && 0 <= k < t.len
      ensures 0 <= t.slots[i][k] < t.n + t.m && t.cyc[t.slots[i][k]] == i && t.step[t.slots[i][k]] == k
    {
      c.SlotRange(i, k);
      c.StepOfSlot(i, k);
    }
  }

  lemma TourFollowsShift(c: Cycles)
    requires c.Valid()
    ensures MakeTour(c).FollowsShift()
  {
    var t := MakeTour(c);
    forall i, k | 0 <= i < |t.slots| && 0 <= k < t.len
      ensures t.StepIsShift(i, k)
    {
      c.SlotStep(i, k);
      LastStep(c, i);
    }
  }

  /** The gcd(n,m) cycles of length (n+m)/gcd(n,m) that permute_args walks visit every slot of the
      two blocks exactly once. */
  lemma CyclesVisitEverySlotOnce(n: nat, m: nat) returns (t: Tour)
    requires m > 0
    ensures t.Valid() && t.n == n && t.m == m
    ensures |t.slots| == GcdOf(n, m) && t.len == (n + m) / GcdOf(n, m)
  {
    var c := MakeCycles(n, m);
    t := MakeTour(c);
    TourReachesEverySlot(c);
    TourReachesOnce(c);
    TourFollowsShift(c);
  }

  // ---- permute_args ---------------------------------------------------------------------

  /** The array with the block [start,mid) and the block [mid,end) exchanged. */
  function Exchanged<T>(s: seq<T>, start: nat, mid: nat, end: nat): (r: seq<T>)
    requires start <= mid <= end <= |s|
    ensures |r| == |s|
  {
    s[..start] + s[mid..end] + s[start..mid] + s[end..]
  }

  /** After j steps of cycle i, slot p already holds its final element. */
  ghost predicate Moved(t: Tour, p: int, i: nat, j: int)
    requires t.Valid() && 0 <= p < t.n + t.m
  {
    t.cyc[p] < i || (t.cyc[p] == i && t.step[p] <= j)
  }

  /** The array between two cycles: exactly the slots of the cycles below i hold their final elements. */
  ghost function Between<T>(t: Tour, was: seq<T>, want: seq<T>, start: nat, i: nat): (r: seq<T>)
    requires t.Valid() && start + t.n + t.m <= |was| == |want|
  {
    seq(|was|, p requires 0 <= p < |was| =>
      if start <= p < start + t.n + t.m && t.cyc[p - start] < i then want[p] else was[p])
  }

  /** The array after j steps of cycle i: the start slot of the cycle carries the next element. */
  ghost function Within<T>(t: Tour, was: seq<T>, want: seq<T>, start: nat, i: nat, j: nat): (r: seq<T>)
    requires t.Valid() && start + t.n + t.m <= |was| == |want|
    requires i < |t.slots| && j <= t.len
  {
    seq(|was|, p requires 0 <= p < |was| =>
      if p == start + t.n + i then
        if j < t.len then was[start + t.slots[i][j]] else want[p]
      else if start <= p < start + t.n + t.m && Moved(t, p - start, i, j) then want[p] else was[p])
  }

  /** Slot p of the array before and after cycle i. */
  lemma CycleEndsAt<T>(t: Tour, was: seq<T>, want: seq<T>, start: nat, i: nat, p: nat)
    requires t.Valid() && start + t.n + t.m <= |was| == |want| && i < |t.slots| && p < |was|
    ensures Within(t, was, want, start, i, 0)[p] == Between(t, was, want, start, i)[p]
    ensures Within(t, was, want, start, i, t.len)[p] == Between(t, was, want, start, i + 1)[p]
  {
    assert t.slots[i][0] == t.n + i;
    assert t.cyc[t.slots[i][0]] == i;
    if start <= p < start + t.n + t.m {
      var q := p - start;
      assert t.slots[t.cyc[q]][t.step[q]] == q;
      assert q != t.n + i ==> Moved(t, q, i, 0) == (t.cyc[q] < i);
      assert Moved(t, q, i, t.len) == (t.cyc[q] < i + 1);
    }
  }

  lemma CycleEnds<T>(t: Tour, was: seq<T>, want: seq<T>, start: nat, i: nat)
    requires t.Valid() && start + t.n + t.m <= |was| == |want| && i < |t.slots|
    ensures Within(t, was, want, start, i, 0) == Between(t, was, want, start, i)
    ensures Within(t, was, want, start, i, t.len) == Between(t, was, want, start, i + 1)
  {
    forall p | 0 <= p < |was|
      ensures Within(t, was, want, start, i, 0)[p] == Between(t, was, want, start, i)[p]
      ensures Within(t, was, want, start, i, t.len)[p] == Between(t, was, want, start, i + 1)[p]
    {
      CycleEndsAt(t, was, want, start, i, p);
    }
  }

  /** The exchanged array holds, at the slot a move leads to, the element the move starts from. */
  lemma ExchangedShift<T>(s: seq<T>, start: nat, n: nat, m: nat, p: int)
    requires start + n + m <= |s| && m > 0 && start <= p < start + n + m
    ensures 0 <= Shift(p - start, n, m) < n + m
    ensures Exchanged(s, start, start + n, start + n + m)[Shift(p - start, n, m) + start] == s[p]
  {
  }

  function Swapped<T>(s: seq<T>, i: nat, j: nat): seq<T>
    requires i < |s| && j < |s|
  {
    s[i := s[j]][j := s[i]]
  }

  lemma NextStepAt<T>(t: Tour, was: seq<T>, want: seq<T>, start: nat, i: nat, j: nat, pos: nat, p: nat)
    requires t.Valid() && start + t.n + t.m <= |was| == |want| && i < |t.slots| && j < t.len && p < |was|
    requires pos == start + t.slots[i][if j + 1 == t.len then 0 else j + 1]
    requires want[pos] == was[t.slots[i][j] + start]
    ensures Swapped(Within(t, was, want, start, i, j), pos, start + t.n + i)[p]
            == Within(t, was, want, start, i, j + 1)[p]
  {
    assert t.slots[i][0] == t.n + i;
    if start <= p < start + t.n + t.m {
      var q := p - start;
      assert t.slots[t.cyc[q]][t.step[q]] == q;
      if p != pos && q != t.n + i {
        assert Moved(t, q, i, j + 1) == Moved(t, q, i, j);
      } else if q != t.n + i {
        assert Moved(t, q, i, j + 1);
      } else if j + 1 < t.len {
        assert t.slots[i][j + 1] == pos - start;
        assert !Moved(t, pos - start, i, j);
      }
    }
  }

  /** Swapping the carried element into the next slot takes the cycle one step further. */
  lemma NextStep<T>(t: Tour, was: seq<T>, want: seq<T>, start: nat, i: nat, j: nat, pos: nat)
    requires t.Valid() && start + t.n + t.m <= |was| == |want| && i < |t.slots| && j < t.len
    requires pos == Shift(t.slots[i][j], t.n, t.m) + start
    requires pos < |want| && want[pos] == was[t.slots[i][j] + start]
    ensures pos == start + t.slots[i][if j + 1 == t.len then 0 else j + 1]
    ensures Swapped(Within(t, was, want, start, i, j), pos, start + t.n + i)
            == Within(t, was, want, start, i, j + 1)
  {
    assert t.StepIsShift(i, j);
    var l, r := Swapped(Within(t, was, want, start, i, j), pos, start + t.n + i), Within(t, was, want, start, i, j + 1);
    forall p | 0 <= p < |was| ensures l[p] == r[p] {
      NextStepAt(t, was, want, start, i, j, pos, p);
    }
  }

  method Swap<T>(a: array<T>, i: nat, j: nat)
    requires i < a.Length && j < a.Length
    modifies a
    ensures a[..] == Swapped(old(a[..]), i, j)
  {
    var swap := a[i];
    a[i] := a[j];
    a[j] := swap;
  }

  /** The inner loop of permute_args: one whole cycle. */
  method WalkCycle<T>(start: nat, mid: nat, end: nat, i: nat, cyclelen: nat, nargv: array<T>,
                      ghost t: Tour, ghost was: seq<T>)
    requires start <= mid < end <= nargv.Length == |was|
    requires t.Valid() && mid == start + t.n && end == start + t.n + t.m && cyclelen == t.len && i < |t.slots|
    requires nargv[..] == Between(t, was, Exchanged(was, start, mid, end), start, i)
    modifies nargv
    ensures nargv[..] == Between(t, was, Exchanged(was, start, mid, end), start, i + 1)
  {
    hide Exchanged, Between, Within, Tour.EverySlotReached, Tour.ReachedOnce, Tour.FollowsShift;
    ghost var want := Exchanged(was, start, mid, end);
    var cstart := mid + i;
    var pos := cstart;
    CycleEnds(t, was, want, start, i);
    for j := 0 to cyclelen
      invariant start <= pos < end
      invariant pos == start + t.slots[i][if j == t.len then 0 else j]
      invariant nargv[..] == Within(t, was, want, start, i, j)
    {
      ExchangedShift(was, start, t.n, t.m, pos);
      if pos >= mid {
        pos := pos - (mid - start);
      } else {
        pos := pos + (end - mid);
      }
      NextStep(t, was, want, start, i, j, pos);
      Swap(nargv, pos, cstart);
    }
  }

  method PermuteArgs<T>(start: nat, mid: nat, end: nat, nargv: array<T>)
    requires start <= mid < end <= nargv.Length
    modifies nargv
    ensures nargv[..] == Exchanged(old(nargv[..]), start, mid, end)
  {
    var nnonopts := mid - start;
    var nopts := end - mid;
    var ncycle := Gcd(nnonopts, nopts);
    var cyclelen := (end - start) / ncycle;
    ghost var t := CyclesVisitEverySlotOnce(nnonopts, nopts);
    ghost var was := nargv[..];
    assert was == Between(t, was, Exchanged(was, start, mid, end), start, 0);

    for i := 0 to ncycle
      invariant nargv[..] == Between(t, was, Exchanged(was, start, mid, end), start, i)
    {
      WalkCycle(start, mid, end, i, cyclelen, nargv, t, was);
    }
    assert nargv[..] == Exchanged(was, start, mid, end);
  }
}
