/** The trace detectors of Halt7.c: backward scans over the execution trace of a simulated
    function that answer 1 (infinite loop), 2 (infinite recursion) or 3 (recursive simulation),
    and Decide_Halting, which simulates until one of them answers or the function returns. */
module Detectors {
  import opened Arithmetic
  import opened FlatMemory

  datatype Opcode = JMP | CALL | JCC | RET | PUSH | OTHER | HLT

  /** Decoded_Line_Of_Code; 24 bytes. */
  datatype DecodedLine = DecodedLine(address: u32, esp: u32, tos: u32, numBytes: u32, opcode: Opcode, target: u32)

  const LINE_SIZE := 24

  /** A trace whose size in bytes, stored in front of it, is a u32. */
  type Trace = t: seq<DecodedLine> | LINE_SIZE * |t| < SIZE

  /** The index at which the backward scans start: the second last line, negative when there is none. */
  function NextToLast(trace: Trace): (r: int)
    ensures r == |trace| - 2
  {
    S32(Wrap(LINE_SIZE * |trace| / LINE_SIZE - 2))
  }

  // ---- what the detectors look for ------------------------------------------------------

  predicate NoJcc(trace: seq<DecodedLine>, from: nat) {
    forall j :: from <= j < |trace| - 1 ==> trace[j].opcode != JCC
  }

  /** Line k is the target of the upward jump that ends the trace, and no conditional jump follows it. */
  predicate LoopAt(trace: seq<DecodedLine>, current: DecodedLine, k: nat) {
    && k < |trace| - 1
    && current.opcode == JMP && current.target <= current.address
    && trace[k].address == current.target
    && NoJcc(trace, k)
  }

  /** Line k is the same call as the one that ends the trace, and no conditional jump follows it. */
  predicate RecursionAt(trace: seq<DecodedLine>, current: DecodedLine, k: nat) {
    && k < |trace| - 1
    && current.opcode == CALL && trace[k].opcode == CALL
    && trace[k].address == current.address && trace[k].target == current.target
    && NoJcc(trace, k)
  }

  /** The targets of the pushes among lines n.. before the last line, in order. */
  function Pushes(trace: seq<DecodedLine>, n: nat): (r: seq<u32>)
    decreases |trace| - n
  {
    if n >= |trace| - 1 then []
    else (if trace[n].opcode == PUSH then [trace[n].target] else []) + Pushes(trace, n + 1)
  }

  /** The lines before the last contain no conditional jump, and their last pushes are p and then i. */
  predicate SimulationFound(trace: seq<DecodedLine>, p: u32, i: u32) {
    var pushed := Pushes(trace, 0);
    NoJcc(trace, 0) && |pushed| >= 2 && pushed[|pushed| - 1] == p && pushed[|pushed| - 2] == i
  }

  predicate SimulationFound0(trace: seq<DecodedLine>, p: u32) {
    var pushed := Pushes(trace, 0);
    NoJcc(trace, 0) && |pushed| >= 1 && pushed[|pushed| - 1] == p
  }

  // ---- the scans ------------------------------------------------------------------------

  lemma NoJccStep(trace: seq<DecodedLine>, n: nat)
    requires n < |trace| - 1
    ensures NoJcc(trace, n) <==> NoJcc(trace, n + 1) && trace[n].opcode != JCC
  {
  }

  method InfiniteLoopNeedsToBeAborted(trace: Trace, current: DecodedLine) returns (r: u32)
    ensures r == if exists k: nat :: LoopAt(trace, current, k) then 1 else 0
  {
    var branches := 0;
    var n := NextToLast(trace);
    while n >= 0
      invariant -2 <= n <= |trace| - 2
      invariant n >= -1 ==> (branches == 0 <==> NoJcc(trace, n + 1))
      invariant branches >= 0
      invariant forall k: nat :: k > n ==> !LoopAt(trace, current, k)
    {
      var traced := trace[n];
      NoJccStep(trace, n);
      if traced.opcode == JCC {
        branches := branches + 1;
      }
      if current.opcode == JMP {
        if current.target <= current.address {
          if traced.address == current.target {
            if branches == 0 {
              assert LoopAt(trace, current, n);
              return 1;
            }
          }
        }
      }
      n := n - 1;
    }
    return 0;
  }

  method InfiniteRecursionNeedsToBeAborted(trace: Trace, current: DecodedLine) returns (r: u32)
    ensures r == if exists k: nat :: RecursionAt(trace, current, k) then 2 else 0
  {
    var branches := 0;
    var n := NextToLast(trace);
    while n >= 0
      invariant -2 <= n <= |trace| - 2
      invariant n >= -1 ==> (branches == 0 <==> NoJcc(trace, n + 1))
      invariant branches >= 0
      invariant forall k: nat :: k > n ==> !RecursionAt(trace, current, k)
    {
      var traced := trace[n];
      NoJccStep(trace, n);
      if traced.opcode == JCC {
        branches := branches + 1;
      }
      if current.opcode == CALL {
        if current.opcode == traced.opcode {
          if current.address == traced.address {
            if current.target == traced.target {
              if branches == 0 {
                assert RecursionAt(trace, current, n);
                return 2;
              }
            }
          }
        }
      }
      n := n - 1;
    }
    return 0;
  }

  /** How many of the last two pushes match so far. */
  function Matched(pushed: seq<u32>, p: u32, i: u32): nat {
    (if |pushed| >= 1 && pushed[|pushed| - 1] == p then 1 else 0)
    + (if |pushed| >= 2 && pushed[|pushed| - 2] == i then 1 else 0)
  }

  lemma NoJccEnd(trace: seq<DecodedLine>)
    ensures |trace| > 0 ==> NoJcc(trace, |trace| - 1)
  {
  }

  lemma PushesEnd(trace: seq<DecodedLine>, p: u32, i: u32)
    ensures |trace| > 0 ==> Pushes(trace, |trace| - 1) == []
    ensures Matched([], p, i) == 0
  {
  }

  lemma FoundMatched(trace: seq<DecodedLine>, p: u32, i: u32)
    ensures SimulationFound(trace, p, i) <==> NoJcc(trace, 0) && Matched(Pushes(trace, 0), p, i) == 2
    ensures |trace| <= 1 ==> !SimulationFound(trace, p, i)
  {
    hide NoJcc;
  }

  /** One more line to the front of the scanned ones. */
  lemma PushesStep(trace: seq<DecodedLine>, n: nat, p: u32, i: u32)
    requires n < |trace| - 1
    ensures var l, now, later := trace[n], Pushes(trace, n), Pushes(trace, n + 1);
      && |now| == |later| + (if l.opcode == PUSH then 1 else 0)
      && Matched(now, p, i) == Matched(later, p, i)
           + (if l.opcode == PUSH && l.target == p && |now| == 1 then 1 else 0)
           + (if l.opcode == PUSH && l.target == i && |now| == 2 then 1 else 0)
  {
  }

  method InfiniteSimulationNeedsToBeAborted(trace: Trace, p: u32, i: u32) returns (r: u32)
    ensures r == if SimulationFound(trace, p, i) then 3 else 0
  {
    hide NextToLast, NoJcc, Pushes, Matched, SimulationFound;
    NoJccEnd(trace);
    PushesEnd(trace, p, i);
    FoundMatched(trace, p, i);
    var pushes, matched, branches := 0, 0, 0;
    var n := NextToLast(trace);
    while n >= 0
      invariant -2 <= n <= |trace| - 2 && (n == -2 ==> |trace| == 0)
      invariant branches >= 0
      invariant n >= -1 ==> (branches == 0 <==> NoJcc(trace, n + 1))
      invariant n >= -1 ==> pushes == |Pushes(trace, n + 1)|
      invariant n >= -1 ==> matched == Matched(Pushes(trace, n + 1), p, i)
      invariant n == -1 && |trace| > 1 ==> !SimulationFound(trace, p, i)
    {
      var traced := trace[n];
      NoJccStep(trace, n);
      PushesStep(trace, n, p, i);
      if traced.opcode == JCC {
        branches := branches + 1;
      }
      if traced.opcode == PUSH {
        pushes := pushes + 1;
      }
      if traced.opcode == PUSH && traced.target == p && pushes == 1 {
        matched := matched + 1;
      }
      if traced.opcode == PUSH && traced.target == i && pushes == 2 {
        matched := matched + 1;
      }
      if matched == 2 && n == 0 && branches == 0 {
        return 3;
      }
      n := n - 1;
    }
    return 0;
  }

  method InfiniteSimulationNeedsToBeAborted0(trace: Trace, p: u32) returns (r: u32)
    ensures r == if SimulationFound0(trace, p) then 3 else 0
  {
    hide NextToLast, NoJcc;
    NoJccEnd(trace);
    var pushes, matched, branches := 0, 0, 0;
    var n := NextToLast(trace);
    while n >= 0
      invariant -2 <= n <= |trace| - 2 && (n == -2 ==> |trace| == 0)
      invariant branches >= 0
      invariant n >= -1 ==> (branches == 0 <==> NoJcc(trace, n + 1))
      invariant n >= -1 ==> pushes == |Pushes(trace, n + 1)|
      invariant n >= -1 ==> var pushed := Pushes(trace, n + 1);
                  matched == if |pushed| >= 1 && pushed[|pushed| - 1] == p then 1 else 0
      invariant n == -1 && |trace| > 1 ==> !SimulationFound0(trace, p)
    {
      var traced := trace[n];
      NoJccStep(trace, n);
      if traced.opcode == JCC {
        branches := branches + 1;
      }
      if traced.opcode == PUSH {
        pushes := pushes + 1;
      }
      if traced.opcode == PUSH && traced.target == p && pushes == 1 {
        matched := matched + 1;
      }
      if matched == 1 && n == 0 && branches == 0 {
        return 3;
      }
      n := n - 1;
    }
    return 0;
  }

  /** The single scan that looks for both patterns and answers 1 for either. */
  method NeedsToBeAbortedTraceHH(trace: Trace, current: DecodedLine) returns (r: u32)
    ensures r == if exists k: nat :: LoopAt(trace, current, k) || RecursionAt(trace, current, k) then 1 else 0
  {
    var branches := 0;
    var n := NextToLast(trace);
    while n >= 0
      invariant -2 <= n <= |trace| - 2
      invariant n >= -1 ==> (branches == 0 <==> NoJcc(trace, n + 1))
      invariant branches >= 0
      invariant forall k: nat :: k > n ==> !LoopAt(trace, current, k) && !RecursionAt(trace, current, k)
    {
      var traced := trace[n];
      NoJccStep(trace, n);
      if traced.opcode == JCC {
        branches := branches + 1;
      }
      if current.opcode == JMP {
        if current.target <= current.address {
          if traced.address == current.target {
            if branches == 0 {
              assert LoopAt(trace, current, n);
              return 1;
            }
          }
        }
      }
      if current.opcode == CALL {
        if current.opcode == traced.opcode {
          if current.address == traced.address {
            if current.target == traced.target {
              if branches == 0 {
                assert RecursionAt(trace, current, n);
                return 1;
              }
            }
          }
        }
      }
      n := n - 1;
    }
    return 0;
  }

  // ---- the answer for a trace -----------------------------------------------------------

  /** What Needs_To_Be_Aborted answers, by the last line of the trace. */
  ghost function AbortCode(trace: seq<DecodedLine>, h: u32, p: u32, i: u32): u32
    requires |trace| > 0
  {
    var current := trace[|trace| - 1];
    if current.opcode == CALL && current.target == h then
      if SimulationFound(trace, p, i) then 3 else 0
    else if exists k: nat :: RecursionAt(trace, current, k) then 2
    else if exists k: nat :: LoopAt(trace, current, k) then 1
    else 0
  }

  /** Line j of the trace is no push, and no conditional jump. */
  predicate NotPush(trace: seq<DecodedLine>, j: nat) {
    j < |trace| && trace[j].opcode != PUSH
  }

  predicate NotJcc(trace: seq<DecodedLine>, j: nat) {
    j < |trace| && trace[j].opcode != JCC
  }

  /** Lines a and b are the last two pushes before the last line. */
  ghost predicate LastPushes(trace: seq<DecodedLine>, a: nat, b: nat) {
    && a < b < |trace| - 1 && trace[a].opcode == PUSH && trace[b].opcode == PUSH
    && forall j: nat :: a < j < |trace| - 1 && j != b ==> NotPush(trace, j)
  }

  /** Line k is at the target of the jump that ends the trace, or the same call as the one that ends it,
      and nothing since is a conditional jump. */
  ghost predicate LoopsFrom(trace: seq<DecodedLine>, k: nat) {
    k < |trace| - 1 && trace[k].address == trace[|trace| - 1].target
    && forall j: nat :: k <= j < |trace| - 1 ==> NotJcc(trace, j)
  }

  ghost predicate RecursesFrom(trace: seq<DecodedLine>, k: nat) {
    var last := |trace| - 1;
    && k < last && trace[k].opcode == CALL
    && trace[k].address == trace[last].address && trace[k].target == trace[last].target
    && forall j: nat :: k <= j < last ==> NotJcc(trace, j)
  }

  /** r is what a trace is to be judged as: 3 for a call of h behind the pushes of i and then p without
      any conditional jump, 2 for another call seen before without a conditional jump since, 1 for a jump
      back to an address seen before without one since, and 0 otherwise. */
  ghost predicate Judged(trace: seq<DecodedLine>, h: u32, p: u32, i: u32, r: u32)
    requires |trace| > 0
  {
    var last := trace[|trace| - 1];
    && (r == 3 <==>
          && last.opcode == CALL && last.target == h
          && (forall j: nat :: j < |trace| - 1 ==> NotJcc(trace, j))
          && exists a: nat, b: nat :: LastPushes(trace, a, b) && trace[a].target == i && trace[b].target == p)
    && (r == 2 <==> last.opcode == CALL && last.target != h && exists k: nat :: RecursesFrom(trace, k))
    && (r == 1 <==> last.opcode == JMP && last.target <= last.address && exists k: nat :: LoopsFrom(trace, k))
    && r <= 3
  }

  lemma NoJccMeans(trace: seq<DecodedLine>, k: nat)
    ensures NoJcc(trace, k) <==> forall j: nat :: k <= j < |trace| - 1 ==> NotJcc(trace, j)
  {
    if forall j: nat :: k <= j < |trace| - 1 ==> NotJcc(trace, j) {
      forall j | k <= j < |trace| - 1 ensures trace[j].opcode != JCC {
        assert NotJcc(trace, j);
      }
    }
  }

  lemma PushesNone(trace: seq<DecodedLine>, n: nat)
    requires n >= |trace| - 1
    ensures Pushes(trace, n) == []
  {
  }

  lemma FirstPush(trace: seq<DecodedLine>, n: nat)
    requires n < |trace| - 1
    ensures Pushes(trace, n) == [] <==> NotPush(trace, n) && Pushes(trace, n + 1) == []
  {
  }

  lemma {:induction false} NoPush(trace: seq<DecodedLine>, n: nat)
    ensures Pushes(trace, n) == [] <==> forall j: nat :: n <= j < |trace| - 1 ==> NotPush(trace, j)
    decreases |trace| - n
  {
    hide Pushes, NotPush;
    if n < |trace| - 1 {
      NoPush(trace, n + 1);
      FirstPush(trace, n);
      if Pushes(trace, n) == [] {
        forall j: nat | n <= j < |trace| - 1 ensures NotPush(trace, j) {
          assert j == n || n + 1 <= j;
        }
      }
    } else {
      PushesNone(trace, n);
    }
  }

  lemma PushesNext(trace: seq<DecodedLine>, n: nat)
    requires n < |trace| - 1
    ensures Pushes(trace, n) == (if NotPush(trace, n) then [] else [trace[n].target]) + Pushes(trace, n + 1)
  {
  }

  /** The last push at or behind line n. */
  lemma {:induction false} LastPush(trace: seq<DecodedLine>, n: nat) returns (b: nat)
    requires Pushes(trace, n) != []
    ensures n <= b < |trace| - 1 && trace[b].opcode == PUSH
    ensures forall j: nat :: b < j < |trace| - 1 ==> NotPush(trace, j)
    ensures Pushes(trace, n)[|Pushes(trace, n)| - 1] == trace[b].target
    ensures |Pushes(trace, n)| == 1 ==> forall j: nat :: n <= j < b ==> NotPush(trace, j)
    decreases |trace| - n
  {
    hide Pushes;
    NoPush(trace, n);
    if n < |trace| - 1 {
      PushesNext(trace, n);
      NoPush(trace, n + 1);
      if Pushes(trace, n + 1) == [] {
        b := n;
      } else {
        b := LastPush(trace, n + 1);
      }
    }
  }

  lemma {:induction false} TwoPushes(trace: seq<DecodedLine>, n: nat) returns (a: nat, b: nat)
    requires |Pushes(trace, n)| >= 2
    ensures LastPushes(trace, a, b)
    ensures var pushed := Pushes(trace, n);
      pushed[|pushed| - 2] == trace[a].target && pushed[|pushed| - 1] == trace[b].target
    decreases |trace| - n
  {
    hide Pushes;
    NoPush(trace, n);
    if n < |trace| - 1 {
      PushesNext(trace, n);
      if |Pushes(trace, n + 1)| >= 2 {
        a, b := TwoPushes(trace, n + 1);
      } else {
        a := n;
        b := LastPush(trace, n + 1);
      }
    }
  }

  lemma Regroup(a: seq<u32>, b: seq<u32>, c: seq<u32>)
    ensures (a + b) + c == a + (b + c) && [] + a == a
  {
  }

  /** Lines without a push are skipped, and what is in front of the others comes first. */
  lemma {:induction false} PushesBehind(trace: seq<DecodedLine>, n: nat, k: nat) returns (before: seq<u32>)
    requires n <= k <= |trace| - 1
    ensures Pushes(trace, n) == before + Pushes(trace, k)
    ensures (forall j: nat :: n <= j < k ==> NotPush(trace, j)) ==> before == []
    decreases k - n
  {
    hide Pushes, NotPush;
    if n == k {
      before := [];
      Regroup(Pushes(trace, k), [], []);
    } else {
      var rest := PushesBehind(trace, n + 1, k);
      var head := if NotPush(trace, n) then [] else [trace[n].target];
      PushesNext(trace, n);
      Regroup(head, rest, Pushes(trace, k));
      before := head + rest;
    }
  }

  lemma PushesBoth(before: seq<u32>, i: u32, p: u32)
    ensures [p] + [] == [p] && [] + [p] == [p] && before + ([i] + [p]) == before + [i, p]
  {
  }

  lemma LastPushesAre(trace: seq<DecodedLine>, a: nat, b: nat)
    requires LastPushes(trace, a, b)
    ensures var pushed := Pushes(trace, 0);
      |pushed| >= 2 && pushed[|pushed| - 2] == trace[a].target && pushed[|pushed| - 1] == trace[b].target
  {
    hide Pushes;
    var before := PushesBehind(trace, 0, a);
    var between := PushesBehind(trace, a + 1, b);
    NoPush(trace, b + 1);
    PushesNext(trace, a);
    PushesNext(trace, b);
    PushesBoth(before, trace[a].target, trace[b].target);
  }

  lemma SimulationMeans(trace: seq<DecodedLine>, p: u32, i: u32)
    ensures SimulationFound(trace, p, i) <==>
      && (forall j: nat :: j < |trace| - 1 ==> NotJcc(trace, j))
      && exists a: nat, b: nat :: LastPushes(trace, a, b) && trace[a].target == i && trace[b].target == p
  {
    hide NoJcc, Pushes;
    NoJccMeans(trace, 0);
    if |Pushes(trace, 0)| >= 2 {
      var a, b := TwoPushes(trace, 0);
    }
    forall a: nat, b: nat | LastPushes(trace, a, b)
      ensures var pushed := Pushes(trace, 0);
        |pushed| >= 2 && pushed[|pushed| - 2] == trace[a].target && pushed[|pushed| - 1] == trace[b].target
    {
      LastPushesAre(trace, a, b);
    }
  }

  lemma MatchesMean(trace: seq<DecodedLine>)
    requires |trace| > 0
    ensures var last := trace[|trace| - 1];
      && (forall k: nat :: RecursionAt(trace, last, k) <==> last.opcode == CALL && RecursesFrom(trace, k))
      && (forall k: nat :: LoopAt(trace, last, k) <==>
            last.opcode == JMP && last.target <= last.address && LoopsFrom(trace, k))
  {
    hide NoJcc;
    forall k: nat ensures NoJcc(trace, k) <==> forall j: nat :: k <= j < |trace| - 1 ==> NotJcc(trace, j) {
      NoJccMeans(trace, k);
    }
  }

  /** The answer is the one that the trace deserves. */
  lemma AnswerMeans(trace: seq<DecodedLine>, h: u32, p: u32, i: u32)
    requires |trace| > 0
    ensures Judged(trace, h, p, i, AbortCode(trace, h, p, i))
  {
    hide LoopAt, RecursionAt, LoopsFrom, RecursesFrom, SimulationFound, LastPushes, NotJcc;
    SimulationMeans(trace, p, i);
    MatchesMean(trace);
  }

  lemma JudgedOnce(trace: seq<DecodedLine>, h: u32, p: u32, i: u32, r: u32, r': u32)
    requires |trace| > 0 && Judged(trace, h, p, i, r) && Judged(trace, h, p, i, r')
    ensures r == r'
  {
    hide LoopsFrom, RecursesFrom, LastPushes, NotJcc;
  }

  /** Pushes of i and of p and a call of h, in this order, at the end of a trace without conditional
      jumps. */
  lemma SimulationAnswered(before: seq<DecodedLine>, pushI: DecodedLine, pushP: DecodedLine, call: DecodedLine, h: u32)
    requires pushI.opcode == PUSH && pushP.opcode == PUSH && call.opcode == CALL && call.target == h
    requires forall l :: l in before ==> l.opcode != JCC
    ensures AbortCode(before + [pushI, pushP, call], h, pushP.target, pushI.target) == 3
  {
    hide NoJcc, Pushes;
    var trace := before + [pushI, pushP, call];
    var a := |before|;
    AnswerMeans(trace, h, pushP.target, pushI.target);
    forall j: nat | j < |trace| - 1 ensures NotJcc(trace, j) {
      if j < a { assert trace[j] in before; }
    }
    assert LastPushes(trace, a, a + 1) && trace[a] == pushI && trace[a + 1] == pushP;
  }

  lemma NoOther(trace: seq<DecodedLine>)
    requires |trace| > 0
    ensures var last := trace[|trace| - 1];
      && (last.opcode != CALL ==> forall k: nat :: !RecursionAt(trace, last, k))
      && (last.opcode != JMP ==> forall k: nat :: !LoopAt(trace, last, k))
  {
    hide NoJcc;
  }

  method NeedsToBeAborted(trace: Trace, h: u32, p: u32, i: u32) returns (r: u32)
    requires |trace| > 0
    ensures r == AbortCode(trace, h, p, i)
    ensures Judged(trace, h, p, i, r) && r <= 3
  {
    hide Judged, SimulationFound, RecursionAt, LoopAt;
    AnswerMeans(trace, h, p, i);
    NoOther(trace);
    var last := LINE_SIZE * |trace| / LINE_SIZE - 1;
    var current := trace[last];
    r := 0;
    if current.opcode == CALL {
      if current.target == h {
        r := InfiniteSimulationNeedsToBeAborted(trace, p, i);
      } else {
        r := InfiniteRecursionNeedsToBeAborted(trace, current);
      }
    } else if current.opcode == JMP {
      r := InfiniteLoopNeedsToBeAborted(trace, current);
    }
  }

  // ---- the simulated machine ------------------------------------------------------------

  /** One instruction of the simulated code: its class, its length and its static target. */
  datatype Instr = Instr(opcode: Opcode, length: u32, target: u32)

  predicate FallsThrough(op: Opcode) {
    op == OTHER || op == PUSH || op == HLT
  }

  /** A deterministic machine with states S running fixed code. Executing an instruction changes the
      state by step and yields the line that DebugStep leaves in its decoded record. */
  datatype Machine<!S(!new)> = Machine(step: S -> S, eip: S -> u32, line: S -> DecodedLine, code: u32 -> Instr) {

    /** OTHER, PUSH and HLT fall through (a halt only sets a mode flag that the next run clears), JMP and
        CALL go to their static target; nothing is said about conditional jumps and returns. The line
        describes the instruction. */
    ghost predicate Faithful() {
      forall s: S ::
        var i := code(eip(s));
        && line(s).address == eip(s) && line(s).opcode == i.opcode && line(s).numBytes == i.length
        && (i.opcode == JMP || i.opcode == CALL ==> line(s).target == i.target && eip(step(s)) == i.target)
        && (FallsThrough(i.opcode) ==> eip(step(s)) == Wrap(eip(s) + i.length))
    }

    /** The state after n instructions. */
    function Run(s: S, n: nat): S {
      if n == 0 then s else step(Run(s, n - 1))
    }

    /** The first n lines of the trace. */
    function Lines(s: S, n: nat): (t: seq<DecodedLine>)
      ensures |t| == n
    {
      seq(n, j requires 0 <= j < n => line(Run(s, j)))
    }

    /** The address of the n-th instruction. */
    function At(s: S, n: nat): u32 {
      eip(Run(s, n))
    }
  }

  datatype Verdict = Returned | Aborted(code: u32) | TraceFull

  class Simulation<!S(!new)> {
    const machine: Machine<S>
    const capacity: nat
    var slave: S
    var trace: seq<DecodedLine>

    constructor (machine: Machine<S>, slave: S, capacity: nat)
      requires LINE_SIZE * capacity < SIZE
      ensures this.machine == machine && this.slave == slave && this.capacity == capacity && trace == []
    {
      this.machine, this.slave, this.capacity, trace := machine, slave, capacity, [];
    }

    /** Decide_Halting appends the n lines it simulates to the trace. It stops before the instruction at
        codeEnd is traced, at the first extension of the trace for which Needs_To_Be_Aborted answers,
        or when the trace is full. */
    method DecideHalting(codeEnd: u32, h: u32, p: u32, i: u32) returns (v: Verdict, ghost n: nat)
      requires LINE_SIZE * capacity < SIZE && LINE_SIZE * |trace| < SIZE
      modifies this
      ensures trace == old(trace) + machine.Lines(old(slave), n)
      ensures forall j: nat :: j < n ==> machine.At(old(slave), j) != codeEnd
      ensures forall j: nat :: 0 < j < n ==> AbortCode(old(trace) + machine.Lines(old(slave), j), h, p, i) == 0
      ensures v.Aborted? <==> n > 0 && AbortCode(trace, h, p, i) != 0
      ensures v.Aborted? ==> v.code == AbortCode(trace, h, p, i)
      ensures v.Aborted? ==> v.code in {1, 2, 3} && |trace| > 0 && Judged(trace, h, p, i, v.code)
      ensures forall j: nat :: 0 < j < n + (if v.Aborted? then 0 else 1) ==>
        Judged(old(trace) + machine.Lines(old(slave), j), h, p, i, 0)
      ensures v.Returned? ==> machine.At(old(slave), n) == codeEnd
      ensures v.TraceFull? ==> machine.At(old(slave), n) != codeEnd && |trace| >= capacity
      ensures slave == machine.Run(old(slave), n + if v.Aborted? then 0 else 1)
    {
      hide Judged, AbortCode;
      ghost var was := trace;
      var aborted := 0;
      n := 0;
      assert machine.Lines(slave, 0) == [];
      while aborted == 0
        invariant LINE_SIZE * |trace| < SIZE
        invariant trace == was + machine.Lines(old(slave), n)
        invariant slave == machine.Run(old(slave), n)
        invariant forall j: nat :: j < n ==> machine.At(old(slave), j) != codeEnd
        invariant forall j: nat :: 0 < j < n ==> AbortCode(was + machine.Lines(old(slave), j), h, p, i) == 0
        invariant aborted == if n > 0 then AbortCode(trace, h, p, i) else 0
        invariant n > 0 ==> Judged(trace, h, p, i, aborted) && aborted <= 3
        invariant forall j: nat :: 0 < j < n ==> Judged(was + machine.Lines(old(slave), j), h, p, i, 0)
        decreases capacity - |trace|, aborted == 0
      {
        var eip := machine.eip(slave);
        var decoded := machine.line(slave);
        slave := machine.step(slave);
        if eip == codeEnd {
          return Returned, n;
        }
        if |trace| >= capacity {
          return TraceFull, n;
        }
        trace := trace + [decoded];
        n := n + 1;
        assert trace == was + machine.Lines(old(slave), n);
        aborted := NeedsToBeAborted(trace, h, p, i);
      }
      return Aborted(aborted), n;
    }
  }

  // ---- soundness of the loop and recursion detectors -------------------------------------

  predicate IsStatic(op: Opcode) {
    FallsThrough(op) || op == JMP || op == CALL
  }

  /** Lines k.. of the trace, up to the current one, fall through or go to a static target: none of
      them returns or jumps conditionally. */
  ghost predicate StaticFrom(trace: seq<DecodedLine>, k: nat) {
    forall j :: k <= j < |trace| ==> IsStatic(trace[j].opcode)
  }

  /** Two states of a run at the same static instruction go on to the same address. */
  lemma SameNext<S(!new)>(m: Machine<S>, s: S, a: nat, b: nat)
    requires m.Faithful() && m.At(s, a) == m.At(s, b) && IsStatic(m.code(m.At(s, b)).opcode)
    ensures m.At(s, a + 1) == m.At(s, b + 1)
  {
  }

  /** Where the run is back at an earlier address after p instructions, and the instructions in
      between are static, its addresses repeat forever. */
  lemma {:induction false} PeriodicForever<S(!new)>(m: Machine<S>, s: S, k: nat, p: nat, n: nat)
    requires m.Faithful() && p > 0 && n >= k
    requires m.At(s, k + p) == m.At(s, k)
    requires forall j: nat :: k <= j < k + p ==> IsStatic(m.code(m.At(s, j)).opcode)
    ensures m.At(s, n + p) == m.At(s, n) == m.At(s, k + (n - k) % p)
    decreases n
  {
    hide Machine.Faithful, Machine.Run, Machine.At, IsStatic;
    if n == k {
      DivModUnique(0, p, 0, 0);
    } else {
      PeriodicForever(m, s, k, p, n - 1);
      var r := (n - 1 - k) % p;
      SameNext(m, s, n - 1, k + r);
      SameNext(m, s, n - 1 + p, k + r);
      NextRemainder(n - 1 - k, p);
    }
  }

  /** A run whose addresses are periodic from k on, and that has not met codeEnd by the end of the
      first period, never meets it. */
  lemma NeverReached<S(!new)>(m: Machine<S>, s: S, k: nat, p: nat, codeEnd: u32, n: nat)
    requires m.Faithful() && p > 0
    requires m.At(s, k + p) == m.At(s, k)
    requires forall j: nat :: k <= j < k + p ==> IsStatic(m.code(m.At(s, j)).opcode)
    requires forall j: nat :: j < k + p ==> m.At(s, j) != codeEnd
    ensures m.At(s, n) != codeEnd
  {
    if n >= k {
      PeriodicForever(m, s, k, p, n);
    }
  }

  /** The loop detector's match at line k: when nothing in the matched segment returns, the
      addresses repeat forever with the length of the segment and codeEnd is never executed. */
  lemma LoopDetectorSound<S(!new)>(m: Machine<S>, s: S, len: nat, k: nat, codeEnd: u32, n: nat)
    requires m.Faithful() && len > 0
    requires var t := m.Lines(s, len); LoopAt(t, t[len - 1], k) && StaticFrom(t, k)
    requires forall j: nat :: j < len ==> m.At(s, j) != codeEnd
    ensures n >= k ==> m.At(s, n + (len - k)) == m.At(s, n)
    ensures m.At(s, n) != codeEnd
  {
    var t := m.Lines(s, len);
    assert m.At(s, len) == t[len - 1].target == t[k].address == m.At(s, k);
    forall j: nat | k <= j < k + (len - k) ensures IsStatic(m.code(m.At(s, j)).opcode) {
      assert IsStatic(t[j].opcode);
    }
    if n >= k { PeriodicForever(m, s, k, len - k, n); }
    NeverReached(m, s, k, len - k, codeEnd, n);
  }

  /** The recursion detector's match at line k, in the same way; the period ends at the second call. */
  lemma RecursionDetectorSound<S(!new)>(m: Machine<S>, s: S, len: nat, k: nat, codeEnd: u32, n: nat)
    requires m.Faithful() && len > 0
    requires var t := m.Lines(s, len); RecursionAt(t, t[len - 1], k) && StaticFrom(t, k)
    requires forall j: nat :: j < len ==> m.At(s, j) != codeEnd
    ensures n >= k ==> m.At(s, n + (len - 1 - k)) == m.At(s, n)
    ensures m.At(s, n) != codeEnd
  {
    var t := m.Lines(s, len);
    var p := len - 1 - k;
    assert m.At(s, k + p) == t[len - 1].address == t[k].address == m.At(s, k);
    forall j: nat | k <= j < k + p ensures IsStatic(m.code(m.At(s, j)).opcode) {
      assert IsStatic(t[j].opcode);
    }
    if n >= k { PeriodicForever(m, s, k, p, n); }
    NeverReached(m, s, k, p, codeEnd, n);
  }

  /** Some line matches the last one, and from it on the trace does not return. */
  ghost predicate StaticMatch(t: seq<DecodedLine>) {
    |t| > 0 && exists k: nat :: (LoopAt(t, t[|t| - 1], k) || RecursionAt(t, t[|t| - 1], k)) && StaticFrom(t, k)
  }

  /** When Decide_Halting has given up on a loop or a recursion whose matched segment does not return,
      simulating on, for any number n of instructions, would never have reached codeEnd. */
  lemma AbortIsSound<S(!new)>(m: Machine<S>, s: S, trace: seq<DecodedLine>, codeEnd: u32, n: nat)
    requires m.Faithful() && trace == m.Lines(s, |trace|)
    requires StaticMatch(trace)
    requires forall j: nat :: j < |trace| ==> m.At(s, j) != codeEnd
    ensures m.At(s, n) != codeEnd
  {
    var current := trace[|trace| - 1];
    var k: nat :| (LoopAt(trace, current, k) || RecursionAt(trace, current, k)) && StaticFrom(trace, k);
    if LoopAt(trace, current, k) {
      LoopDetectorSound(m, s, |trace|, k, codeEnd, n);
    } else {
      RecursionDetectorSound(m, s, |trace|, k, codeEnd, n);
    }
  }

  ghost predicate NoReturn(trace: seq<DecodedLine>) {
    forall j :: 0 <= j < |trace| ==> trace[j].opcode != RET
  }

  /** What the loop and recursion detectors answer for: on a trace without returns it is a match that
      the soundness theorem covers. */
  lemma AnswerIsMatch(trace: seq<DecodedLine>, h: u32, p: u32, i: u32)
    requires |trace| > 0 && NoReturn(trace) && AbortCode(trace, h, p, i) in {1, 2}
    ensures StaticMatch(trace)
  {
    var current := trace[|trace| - 1];
    var k: nat :| LoopAt(trace, current, k) || RecursionAt(trace, current, k);
    if LoopAt(trace, current, k) {
      assert NoJcc(trace, k);
    } else {
      assert RecursionAt(trace, current, k);
    }
    forall j | k <= j < |trace| ensures IsStatic(trace[j].opcode) {
      assert trace[j].opcode != RET;
      assert j < |trace| - 1 ==> trace[j].opcode != JCC;
    }
    assert StaticFrom(trace, k);
  }

  /** Decide_Halting from an empty trace: when it gives up on a loop or a recursion and no simulated
      instruction was a return, then codeEnd is never executed, however long the simulation would go
      on. */
  method DecideFromStart<S(!new)>(m: Machine<S>, s: S, capacity: nat, codeEnd: u32, h: u32, p: u32, i: u32)
    returns (v: Verdict, ghost n: nat)
    requires LINE_SIZE * capacity < SIZE && m.Faithful()
    ensures v.Aborted? ==> n > 0 && v.code in {1, 2, 3} && Judged(m.Lines(s, n), h, p, i, v.code)
    ensures v.Aborted? && v.code in {1, 2} && NoReturn(m.Lines(s, n)) ==>
      forall k: nat :: m.At(s, k) != codeEnd
    ensures v.Returned? ==> m.At(s, n) == codeEnd
  {
    hide Machine.Faithful, Machine.Lines, Machine.Run, AbortCode, NoReturn, Judged;
    var simulation := new Simulation(m, s, capacity);
    v, n := simulation.DecideHalting(codeEnd, h, p, i);
    ghost var trace := m.Lines(s, n);
    assert simulation.trace == trace;
    if v.Aborted? && v.code in {1, 2} && NoReturn(trace) {
      AnswerIsMatch(trace, h, p, i);
      forall k: nat ensures m.At(s, k) != codeEnd {
        AbortIsSound(m, s, trace, codeEnd, k);
      }
    }
  }

  // ---- a return in the matched segment can end the loop ----------------------------------

  /** EIP, EAX and the dword at the top of the stack. */
  datatype Small = Small(eip: u32, eax: u32, top: u32)

  /** The code
         0  call 16
         5  jmp 0
        16  add [esp], eax
        19  mov eax, 27
        24  ret
      and returns everywhere else. */
  function SmallCode(a: u32): Instr {
    if a == 0 then Instr(CALL, 5, 16)
    else if a == 5 then Instr(JMP, 2, 0)
    else if a == 16 then Instr(OTHER, 3, 0)
    else if a == 19 then Instr(OTHER, 5, 0)
    else Instr(RET, 1, 0)
  }

  /** A call leaves the address behind it on top of the stack, and a return goes to the address found
      there. */
  function SmallStep(s: Small): Small {
    var i := SmallCode(s.eip);
    match i.opcode
    case CALL => s.(eip := i.target, top := Wrap(s.eip + i.length))
    case JMP => s.(eip := i.target)
    case RET => s.(eip := s.top)
    case _ =>
      if s.eip == 16 then s.(eip := Wrap(s.eip + i.length), top := Wrap(s.top + s.eax))
      else s.(eip := Wrap(s.eip + i.length), eax := 27)
  }

  function SmallLine(s: Small): DecodedLine {
    var i := SmallCode(s.eip);
    DecodedLine(s.eip, 0, s.top, i.length, i.opcode, i.target)
  }

  function SmallMachine(): Machine<Small> {
    Machine(SmallStep, (s: Small) => s.eip, SmallLine, SmallCode)
  }

  lemma SmallFaithful()
    ensures SmallMachine().Faithful()
  {
  }

  lemma SmallRun()
    ensures var m, s := SmallMachine(), Small(0, 0, 0);
      && m.Run(s, 0) == s && m.Run(s, 1) == Small(16, 0, 5) && m.Run(s, 2) == Small(19, 0, 5)
      && m.Run(s, 3) == Small(24, 27, 5) && m.Run(s, 4) == Small(5, 27, 5) && m.Run(s, 9) == Small(32, 27, 32)
  {
    var m, s := SmallMachine(), Small(0, 0, 0);
    assert m.Run(s, 1) == Small(16, 0, 5);
    assert m.Run(s, 2) == Small(19, 0, 5);
    assert m.Run(s, 3) == Small(24, 27, 5);
    assert m.Run(s, 4) == Small(5, 27, 5);
    assert m.Run(s, 5) == Small(0, 27, 5);
    assert m.Run(s, 6) == Small(16, 27, 5);
    assert m.Run(s, 7) == Small(19, 27, 32);
    assert m.Run(s, 8) == Small(24, 27, 32);
  }

  /** The called function adds EAX to its return address: the first return goes back to the jump, the
      second one to 32. The loop detector answers after the jump, although the run reaches 32. */
  lemma ReturnCanEscape()
    ensures var m, s := SmallMachine(), Small(0, 0, 0);
      && m.Faithful()
      && AbortCode(m.Lines(s, 5), 0x1000, 0, 0) == 1
      && (forall j: nat :: j < 5 ==> m.At(s, j) != 32)
      && m.At(s, 9) == 32
  {
    hide SmallStep, Machine.Run;
    var m, s := SmallMachine(), Small(0, 0, 0);
    SmallFaithful();
    SmallRun();
    var t := m.Lines(s, 5);
    assert t[4].opcode == JMP;
    assert LoopAt(t, t[4], 0);
  }
}
