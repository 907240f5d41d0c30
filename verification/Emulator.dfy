/** The run loop of decode.c: prefixes and opcode are fetched, an abstract opcode handler executes the
    instruction, and the instruction budget (max_instr against TSC) decides when to stop. */
module Emulator {
  import opened FlatMemory
  import opened Registers
  import opened Wrappers

  datatype Segment = ES | CS | SS | DS | FS | GS

  /** The decoding mode that prefixes change. */
  datatype Mode = Mode(data32: bool, addr32: bool, rep: bool, repne: bool, segment: Option<Segment>)

  const MODE32 := Mode(true, true, false, false, None)

  /** What an opcode handler works on. */
  datatype Core = Core(regs: Regs, mem: Mem, halted: bool, instrLen: nat)

  /** line_of_code: the last instruction executed. */
  datatype Line = Line(address: u32, esp: u32, tos: u32, numBytes: nat)

  /** The machine state apart from the time stamp counter and the budget. */
  datatype World = World(regs: Regs, mem: Mem, halted: bool, line: Line)

  /** instr_buf holds 32 bytes; fetching stops counting there. */
  const INSTR_BUF := 32

  /** The parts of the machine that are not modelled: which addresses may be executed and what the
      opcode handlers do. The emulated 4 GB are never executable throughout, and handlers only
      count the bytes they fetch. */
  datatype Cpu = Cpu(executable: u32 -> bool, handler: (byte, Mode, Core) -> Core) {
    ghost predicate Valid() {
      && (exists a: u32 :: !executable(a))
      && (forall op: byte, mode: Mode, c: Core ::
            c.instrLen <= INSTR_BUF ==> c.instrLen <= handler(op, mode, c).instrLen <= INSTR_BUF)
    }
  }

  // ---- fetching -------------------------------------------------------------------------

  /** A byte fetched for execution; 0xff when the address is not executable. */
  function CodeByte(cpu: Cpu, m: Mem, a: u32): byte {
    if cpu.executable(a) then m[a] else 0xff
  }

  predicate IsPrefix(b: byte) {
    b in [0x26, 0x2e, 0x36, 0x3e, 0x64, 0x65, 0x66, 0x67, 0xf0, 0xf2, 0xf3]
  }

  function AfterPrefix(mode: Mode, b: byte): Mode {
    match b
    case 0x26 => mode.(segment := Some(ES))
    case 0x2e => mode.(segment := Some(CS))
    case 0x36 => mode.(segment := Some(SS))
    case 0x3e => mode.(segment := Some(DS))
    case 0x64 => mode.(segment := Some(FS))
    case 0x65 => mode.(segment := Some(GS))
    case 0x66 => mode.(data32 := !mode.data32)
    case 0x67 => mode.(addr32 := !mode.addr32)
    case 0xf2 => mode.(repne := true)
    case 0xf3 => mode.(rep := true)
    case _ => mode
  }

  /** Some address that is not executable, and the distance from a to it. */
  ghost function Stop(cpu: Cpu): (stop: u32)
    requires cpu.Valid()
    ensures !cpu.executable(stop)
  {
    var stop: u32 :| !cpu.executable(stop);
    stop
  }

  ghost function Reach(cpu: Cpu, a: int): nat
    requires cpu.Valid()
  {
    Wrap(Stop(cpu) - a)
  }

  lemma ReachStep(cpu: Cpu, a: u32)
    requires cpu.Valid() && cpu.executable(a)
    ensures Reach(cpu, Wrap(a + 1)) < Reach(cpu, a)
  {
    assert Stop(cpu) != a;
  }

  datatype Fetched = Fetched(op: byte, mode: Mode, prefixes: nat, executable: bool)

  /** The instruction at a: its prefixes fold into the mode, and the first byte that is no prefix is
      the opcode. */
  function Fetch(cpu: Cpu, m: Mem, a: u32, mode: Mode): Fetched
    requires cpu.Valid()
    decreases Reach(cpu, a)
  {
    var b := CodeByte(cpu, m, a);
    if IsPrefix(b) then
      ReachStep(cpu, a);
      var rest := Fetch(cpu, m, Wrap(a + 1), AfterPrefix(mode, b));
      rest.(prefixes := rest.prefixes + 1)
    else
      Fetched(b, mode, 0, cpu.executable(a))
  }

  /** A byte is a prefix, and then executable, or it is the opcode. */
  lemma FetchByteMeans(cpu: Cpu, m: Mem, a: u32, mode: Mode)
    requires cpu.Valid()
    ensures var b := CodeByte(cpu, m, a);
      if IsPrefix(b) then
        && cpu.executable(a) && Reach(cpu, Wrap(a + 1)) < Reach(cpu, a)
        && var rest := Fetch(cpu, m, Wrap(a + 1), AfterPrefix(mode, b));
           Fetch(cpu, m, a, mode) == rest.(prefixes := rest.prefixes + 1)
      else
        Fetch(cpu, m, a, mode) == Fetched(b, mode, 0, cpu.executable(a))
  {
    hide AfterPrefix, Reach, Wrap;
    if cpu.executable(a) { ReachStep(cpu, a); }
  }

  /** The segment a prefix names. */
  function SegmentOf(b: byte): Option<Segment> {
    match b
    case 0x26 => Some(ES)
    case 0x2e => Some(CS)
    case 0x36 => Some(SS)
    case 0x3e => Some(DS)
    case 0x64 => Some(FS)
    case 0x65 => Some(GS)
    case _ => None
  }

  /** The bytes p are at a and can be executed; each is a prefix. */
  predicate PrefixAt(cpu: Cpu, m: Mem, a: u32, p: seq<byte>, j: nat)
    requires j < |p|
  {
    && cpu.executable(Wrap(a + j)) && m[Wrap(a + j)] == p[j]
    && p[j] in [0x26, 0x2e, 0x36, 0x3e, 0x64, 0x65, 0x66, 0x67, 0xf0, 0xf2, 0xf3]
  }

  /** The mode that prefixes p make of mode: rep and repne when they occur, the operand and address size
      switched as often as their prefixes occur, and the segment of the last segment prefix. */
  ghost predicate Prefixed(mode: Mode, p: seq<byte>, now: Mode) {
    && (now.rep <==> mode.rep || 0xf3 in p) && (now.repne <==> mode.repne || 0xf2 in p)
    && (now.data32 <==> (mode.data32 <==> multiset(p)[0x66] % 2 == 0))
    && (now.addr32 <==> (mode.addr32 <==> multiset(p)[0x67] % 2 == 0))
    && ((forall b :: b in p ==> SegmentOf(b).None?) ==> now.segment == mode.segment)
    && (forall j :: 0 <= j < |p| && SegmentOf(p[j]).Some? && (forall b :: b in p[j + 1..] ==> SegmentOf(b).None?)
          ==> now.segment == SegmentOf(p[j]))
  }

  lemma NoPrefix(mode: Mode)
    ensures Prefixed(mode, [], mode)
  {
  }

  lemma FirstSegment(mode: Mode, b: byte)
    ensures AfterPrefix(mode, b).segment == if SegmentOf(b).Some? then SegmentOf(b) else mode.segment
  {
  }

  lemma FirstFlags(mode: Mode, b: byte)
    ensures var now := AfterPrefix(mode, b);
      && (now.rep <==> mode.rep || b == 0xf3) && (now.repne <==> mode.repne || b == 0xf2)
      && (now.data32 <==> (mode.data32 <==> b != 0x66)) && (now.addr32 <==> (mode.addr32 <==> b != 0x67))
  {
  }

  lemma PrefixedSegment(mode: Mode, b: byte, p: seq<byte>, now: Mode)
    requires Prefixed(AfterPrefix(mode, b), p, now)
    ensures var all := [b] + p;
      && ((forall c :: c in all ==> SegmentOf(c).None?) ==> now.segment == mode.segment)
      && (forall j :: 0 <= j < |all| && SegmentOf(all[j]).Some?
                      && (forall c :: c in all[j + 1..] ==> SegmentOf(c).None?)
            ==> now.segment == SegmentOf(all[j]))
  {
    hide SegmentOf, AfterPrefix;
    FirstSegment(mode, b);
    var all := [b] + p;
    assert all[1..] == p && b in all;
    forall c | c in p ensures c in all {
    }
    forall j | 0 <= j < |all| && SegmentOf(all[j]).Some? && (forall c :: c in all[j + 1..] ==> SegmentOf(c).None?)
      ensures now.segment == SegmentOf(all[j])
    {
      if j > 0 {
        assert all[j] == p[j - 1] && all[j + 1..] == p[j..];
      }
    }
  }

  lemma PrefixedFlags(mode: Mode, b: byte, p: seq<byte>, now: Mode)
    requires Prefixed(AfterPrefix(mode, b), p, now)
    ensures var all := [b] + p;
      && (now.rep <==> mode.rep || 0xf3 in all) && (now.repne <==> mode.repne || 0xf2 in all)
      && (now.data32 <==> (mode.data32 <==> multiset(all)[0x66] % 2 == 0))
      && (now.addr32 <==> (mode.addr32 <==> multiset(all)[0x67] % 2 == 0))
  {
    hide SegmentOf, AfterPrefix;
    FirstFlags(mode, b);
    assert multiset([b] + p) == multiset{b} + multiset(p);
  }

  /** One more prefix in front. */
  lemma PrefixedNext(mode: Mode, b: byte, p: seq<byte>, now: Mode)
    requires Prefixed(AfterPrefix(mode, b), p, now)
    ensures Prefixed(mode, [b] + p, now)
  {
    hide SegmentOf, AfterPrefix;
    PrefixedFlags(mode, b, p, now);
    PrefixedSegment(mode, b, p, now);
  }

  lemma WrapSmall(a: u32)
    ensures Wrap(a) == a && Wrap(a + 0) == a
  {
  }

  /** The instruction at a: the prefixes p and then op, which is no prefix. */
  lemma {:induction false} FetchMeans(cpu: Cpu, m: Mem, a: u32, mode: Mode, p: seq<byte>)
    requires cpu.Valid() && forall j :: 0 <= j < |p| ==> PrefixAt(cpu, m, a, p, j)
    requires !IsPrefix(CodeByte(cpu, m, Wrap(a + |p|)))
    ensures var f, next := Fetch(cpu, m, a, mode), Wrap(a + |p|);
      && f.prefixes == |p| && f.executable == cpu.executable(next)
      && f.op == (if cpu.executable(next) then m[next] else 0xff) && Prefixed(mode, p, f.mode)
    decreases |p|
  {
    hide Fetch, AfterPrefix, Prefixed, Wrap, Cpu.Valid;
    WrapSmall(a);
    FetchByteMeans(cpu, m, a, mode);
    if p == [] {
      NoPrefix(mode);
    } else {
      assert PrefixAt(cpu, m, a, p, 0);
      var rest, next := p[1..], Wrap(a + 1);
      forall j | 0 <= j < |rest| ensures PrefixAt(cpu, m, next, rest, j) {
        assert PrefixAt(cpu, m, a, p, j + 1);
        WrapAgain(a + 1, j);
        assert a + 1 + j == a + (j + 1);
      }
      WrapAgain(a + 1, |p| - 1);
      assert a + 1 + (|p| - 1) == a + |p|;
      FetchMeans(cpu, m, Wrap(a + 1), AfterPrefix(mode, p[0]), p[1..]);
      assert p == [p[0]] + p[1..];
      PrefixedNext(mode, p[0], p[1..], Fetch(cpu, m, a, mode).mode);
    }
  }

  /** Where fetching leaves the instruction length. */
  function Counted(n: nat): nat {
    if n < INSTR_BUF then n else INSTR_BUF
  }

  // ---- one instruction, and a run under a budget ----------------------------------------

  datatype Outcome = Fault | Retired(world: World)

  /** One turn of the run loop. When the opcode cannot be fetched EIP is restored and nothing is
      executed. A disassembling run goes on behind the instruction whatever it did. */
  function Execute(cpu: Cpu, r: Regs, m: Mem, disassemble: bool): Outcome
    requires cpu.Valid()
  {
    var f := Fetch(cpu, m, r.eip, MODE32);
    if !f.executable then Fault
    else
      var n := f.prefixes + 1;
      var c := cpu.handler(f.op, f.mode, Core(r.(eip := Wrap(r.eip + n)), m, false, Counted(n)));
      var tos := Dword(c.mem, c.regs.esp);
      if disassemble then
        Retired(World(c.regs.(eip := Wrap(r.eip + c.instrLen)), c.mem, c.halted, Line(r.eip, 0, tos, c.instrLen)))
      else
        Retired(World(c.regs, c.mem, c.halted, Line(r.eip, c.regs.esp, tos, c.instrLen)))
  }

  /** A run with a budget of so many instructions, and the number it retired. */
  function RunFor(cpu: Cpu, w: World, budget: nat, disassemble: bool): (World, nat)
    requires cpu.Valid()
    decreases budget
  {
    if budget == 0 then (w.(halted := false), 0)
    else
      match Execute(cpu, w.regs, w.mem, disassemble)
      case Fault => (w.(halted := true), 0)
      case Retired(v) =>
        if v.halted then (v, 1)
        else var (u, n) := RunFor(cpu, v, budget - 1, disassemble); (u, n + 1)
  }

  function Budget(maxInstr: nat, tsc: nat): nat {
    if maxInstr > tsc then maxInstr - tsc else 0
  }

  /** A budget of one retires exactly one instruction when its opcode can be fetched. */
  lemma BudgetOfOne(cpu: Cpu, w: World, disassemble: bool)
    requires cpu.Valid() && Fetch(cpu, w.mem, w.regs.eip, MODE32).executable
    ensures RunFor(cpu, w, 1, disassemble) == (Execute(cpu, w.regs, w.mem, disassemble).world, 1)
  {
    var v := Execute(cpu, w.regs, w.mem, disassemble).world;
    if !v.halted {
      assert RunFor(cpu, v, 0, disassemble) == (v.(halted := false), 0);
      assert v.(halted := false) == v;
    }
  }

  /** How a run goes on after its first instruction: it ends there when the opcode could not be fetched
      or the instruction halted the machine, and otherwise the rest of the budget is left. */
  lemma RunContinues(cpu: Cpu, w: World, budget: nat, disassemble: bool)
    requires cpu.Valid() && budget > 0
    ensures var (u, n) := RunFor(cpu, w, budget, disassemble);
      var first := Execute(cpu, w.regs, w.mem, disassemble);
      && n <= budget && (n < budget ==> u.halted)
      && (first.Fault? ==> u == w.(halted := true) && n == 0)
      && (first.Retired? && first.world.halted ==> u == first.world && n == 1)
      && (first.Retired? && !first.world.halted ==>
            n > 0 && (u, n - 1) == RunFor(cpu, first.world, budget - 1, disassemble))
    decreases budget
  {
    hide Execute;
    match Execute(cpu, w.regs, w.mem, disassemble)
    case Fault =>
    case Retired(v) =>
      if !v.halted && budget > 1 {
        RunContinues(cpu, v, budget - 1, disassemble);
      }
  }

  /** What an executed instruction comes to: the effect of its handler, entered with EIP behind the opcode,
      and a note of its address and length and of the stack afterwards. */
  lemma ExecutedLine(cpu: Cpu, r: Regs, m: Mem)
    requires cpu.Valid() && Execute(cpu, r, m, false).Retired?
    ensures var v, f := Execute(cpu, r, m, false).world, Fetch(cpu, m, r.eip, MODE32);
      var fetched := if f.prefixes < 32 then f.prefixes + 1 else 32;
      var c := cpu.handler(f.op, f.mode, Core(r.(eip := Wrap(r.eip + f.prefixes + 1)), m, false, fetched));
      && v.regs == c.regs && v.mem == c.mem && v.halted == c.halted
      && v.line == Line(r.eip, v.regs.esp, Dword(v.mem, v.regs.esp), c.instrLen)
      && 0 < v.line.numBytes <= 32
  {
    hide Fetch, Dword;
  }

  class Emu {
    const cpu: Cpu
    var regs: Regs
    var mem: Mem
    var halted: bool
    var line: Line
    var mode: Mode
    var instrLen: nat
    var tsc: nat
    var maxInstr: nat

    constructor (cpu: Cpu, regs: Regs, mem: Mem)
      ensures this.cpu == cpu && this.regs == regs && this.mem == mem && tsc == 0
    {
      this.cpu, this.regs, this.mem := cpu, regs, mem;
      halted, mode, instrLen, tsc, maxInstr := false, MODE32, 0, 0, 0;
      line := Line(0, 0, 0, 0);
    }

    ghost function W(): World
      reads this`regs, this`mem, this`halted, this`line
    {
      World(regs, mem, halted, line)
    }

    method FetchByte() returns (b: byte)
      requires instrLen <= INSTR_BUF
      modifies this`regs, this`halted, this`instrLen
      ensures b == CodeByte(cpu, mem, old(regs.eip))
      ensures halted == (old(halted) || !cpu.executable(old(regs.eip)))
      ensures regs == old(regs).(eip := Wrap(old(regs.eip) + 1))
      ensures instrLen == Counted(old(instrLen) + 1)
    {
      b := CodeByte(cpu, mem, regs.eip);
      if !cpu.executable(regs.eip) {
        halted := true;
      }
      regs := regs.(eip := Wrap(regs.eip + 1));
      if instrLen < INSTR_BUF {
        instrLen := instrLen + 1;
      }
    }

    /** The prefix loop. */
    method FetchOpcode() returns (op: byte)
      requires cpu.Valid() && !halted && instrLen == 0 && mode == MODE32
      modifies this`regs, this`halted, this`instrLen, this`mode
      ensures var f := Fetch(cpu, mem, old(regs.eip), MODE32);
        && op == f.op && mode == f.mode && halted == !f.executable
        && regs == old(regs).(eip := Wrap(old(regs.eip) + f.prefixes + 1))
        && instrLen == Counted(f.prefixes + 1)
    {
      hide Fetch, Wrap, CodeByte, IsPrefix, AfterPrefix, Reach;
      ghost var f := Fetch(cpu, mem, regs.eip, MODE32);
      ghost var k := 0;
      WrapSmall(regs.eip);
      var hasPrefix := true;
      op := 0;
      while hasPrefix
        invariant instrLen == Counted(k)
        invariant regs == old(regs).(eip := Wrap(old(regs.eip) + k))
        invariant hasPrefix ==> !halted && k <= f.prefixes
        invariant hasPrefix ==> Fetch(cpu, mem, regs.eip, mode) == f.(prefixes := f.prefixes - k)
        invariant !hasPrefix ==> k == f.prefixes + 1 && op == f.op && mode == f.mode && halted == !f.executable
        decreases hasPrefix, if hasPrefix then Reach(cpu, regs.eip) else 0
      {
        FetchByteMeans(cpu, mem, regs.eip, mode);
        op := FetchByte();
        WrapAgain(old(regs.eip) + k, 1);
        k := k + 1;
        if IsPrefix(op) {
          mode := AfterPrefix(mode, op);
        } else {
          hasPrefix := false;
        }
      }
    }

    /** The body of the run loop behind the budget check. */
    method ExecuteOne(disassemble: bool) returns (retired: bool)
      requires cpu.Valid() && !halted && instrLen == 0 && mode == MODE32
      modifies this`regs, this`mem, this`halted, this`line, this`mode, this`instrLen
      ensures retired <==> Execute(cpu, old(regs), old(mem), disassemble).Retired?
      ensures W() == if retired then Execute(cpu, old(regs), old(mem), disassemble).world
                     else old(W()).(halted := true)
    {
      hide Fetch, Wrap, Dword, Counted;
      var savedEip := regs.eip;
      var op := FetchOpcode();
      if halted {
        regs := regs.(eip := savedEip);
        return false;
      }
      var c := cpu.handler(op, mode, Core(regs, mem, false, instrLen));
      regs, mem, halted, instrLen := c.regs, c.mem, c.halted, c.instrLen;
      line := Line(savedEip, regs.esp, Dword(mem, regs.esp), instrLen);
      if disassemble {
        line := line.(esp := 0);
        regs := regs.(eip := Wrap(savedEip + instrLen));
      }
      return true;
    }

    /** x86emu_run with the instruction limit in force. */
    method Run(disassemble: bool)
      requires cpu.Valid() && maxInstr > 0
      modifies this`regs, this`mem, this`halted, this`line, this`mode, this`instrLen, this`tsc
      ensures tsc >= old(tsc)
      ensures (W(), tsc - old(tsc)) == RunFor(cpu, old(W()), Budget(maxInstr, old(tsc)), disassemble)
    {
      hide Execute;
      ghost var all := RunFor(cpu, W(), Budget(maxInstr, tsc), disassemble);
      while true
        invariant tsc >= old(tsc)
        invariant var (u, k) := RunFor(cpu, W(), Budget(maxInstr, tsc), disassemble);
          (u, k + (tsc - old(tsc))) == all
        decreases Budget(maxInstr, tsc)
      {
        instrLen, mode, halted := 0, MODE32, false;
        if tsc >= maxInstr {
          break;
        }
        var retired := ExecuteOne(disassemble);
        if !retired {
          break;
        }
        tsc := tsc + 1;
        if halted {
          break;
        }
      }
    }
  }
}
