/** The nested single-stepping machine of x86utm.cpp: DebugStep swaps the registers of a master for
    those of a slave, executes one instruction of the slave (which may itself be a call of
    DebugStep), and swaps back. */
module DebugStep {
  import opened Emulator
  import opened FlatMemory
  import Heap
  import opened Registers
  import Relocation

  /** What a called address is: no virtual machine instruction, DebugStep, or another one. */
  datatype Vmi = NoVmi | StepVmi | OtherVmi(id: nat)

  /** The operating system around the emulator: the function names it knows, the effect of its other
      virtual machine instructions, and the classification of an executed instruction (its
      simplified opcode and target, which for a call through a frame slot depends on EBP). */
  datatype System = System(names: u32 -> Vmi, call: (nat, Regs, Mem) -> (Regs, Mem),
                           decode: (Line, Regs, Mem) -> (u32, u32))

  const EXECUTING: u32 := 0
  const HALTED: u32 := 1

  // ---- which call is about to be executed -----------------------------------------------

  function S8(b: byte): int {
    if b < 0x80 then b else b - 0x100
  }

  /** The call at EIP and its length: relative (e8) or through a frame slot (ff 55). */
  function CallAt(os: System, r: Regs, m: Mem): (Vmi, u32) {
    var op1, op2 := m[r.eip], m[Wrap(r.eip + 1)];
    if op1 == 0xff && op2 == 0x55 then
      (os.names(Dword(m, Wrap(r.ebp + S8(m[Wrap(r.eip + 2)])))), 3)
    else if op1 == 0xe8 then
      (os.names(Wrap(Dword(m, Wrap(r.eip + 1)) + 5 + r.eip)), 5)
    else
      (NoVmi, 0)
  }

  /** A relative call is looked up at its target, wherever the displacement leads. */
  lemma DirectCall(os: System, r: Regs, m: Mem, f: u32)
    requires m[r.eip] == 0xe8 && Get(m, Wrap(r.eip + 1), 4) == LE4(Wrap(f - (r.eip + 5)))
    ensures CallAt(os, r, m) == (os.names(f), 5)
  {
    hide Get, Val4, LE4;
    var d := Wrap(f - (r.eip + 5));
    Val4LE4(d);
    var q := (f - (r.eip + 5)) / SIZE;
    assert f - (r.eip + 5) == q * SIZE + d;
    assert d + 5 + r.eip == f + (-q) * SIZE;
    assert Wrap(d + 5 + r.eip) == f;
  }

  /** The call that is looked up is the one that the emulated instruction would make, and the call's
      length leads to the address it would return to. */
  method CallLookup(os: System, r: Regs, m: Mem) returns (r': Regs, m': Mem)
    requires m[r.eip] == 0xe8
    ensures CallAt(os, r, m).0 == os.names(r'.eip)
    ensures Wrap(r.eip + CallAt(os, r, m).1) == Dword(m', r'.esp)
  {
    hide Dword, PutDword;
    var a := Wrap(r.eip + 1);
    WrapAgain(r.eip + 1, 4);
    WrapAgain(r.eip + 1, 4 + Dword(m, a));
    r', m' := Relocation.CallNear(r.(eip := a), m, true);
    assert a + 4 + Dword(m, a) == a + (4 + Dword(m, a));
    assert r.eip + 1 + (4 + Dword(m, a)) == Dword(m, a) + 5 + r.eip;
  }

  /** A call through a frame slot: the function whose address is in the slot, at a signed distance from
      EBP. */
  lemma SlotCall(os: System, r: Regs, m: Mem, d: byte, f: u32)
    requires m[r.eip] == 0xff && m[Wrap(r.eip + 1)] == 0x55 && m[Wrap(r.eip + 2)] == d
    requires Get(m, Wrap(r.ebp + if d < 0x80 then d else d - 0x100), 4) == LE4(f)
    ensures CallAt(os, r, m) == (os.names(f), 3)
  {
    hide Get, Val4, LE4;
    Val4LE4(f);
  }

  function Advance(r: Regs, n: int): Regs {
    r.(eip := Wrap(r.eip + n))
  }

  // ---- nesting --------------------------------------------------------------------------

  /** The three memory areas that one level of DebugStep works with. */
  datatype Level = Level(master: u32, slave: u32, decoded: u32)

  const DECODED := 24

  /** The arguments of DebugStep on the caller's stack. */
  function Arguments(r: Regs, m: Mem): Level {
    Level(Dword(m, r.esp), Dword(m, Wrap(r.esp + 4)), Dword(m, Wrap(r.esp + 8)))
  }

  /** A virtual machine instruction other than DebugStep runs before the next instruction. */
  function BeforeLeaf(os: System, r: Regs, m: Mem): (Regs, Mem) {
    match CallAt(os, r, m)
    case (OtherVmi(id), n) => var (r', m') := os.call(id, r, m); (Advance(r', n), m')
    case _ => (r, m)
  }

  /** The world in which the slave of a level is running. */
  ghost function Entered(w: World, l: Level): World {
    var m := SaveRegs(w.mem, l.master, w.regs);
    w.(regs := LoadRegs(m, l.slave), mem := m)
  }

  /** The next instruction is a call of DebugStep. */
  predicate Nests(os: System, w: World) {
    CallAt(os, w.regs, w.mem).0.StepVmi?
  }

  /** Where no level is entered any more, the instruction to execute can be fetched. */
  ghost predicate LeafReady(cpu: Cpu, os: System, w: World)
    requires cpu.Valid()
  {
    var (r, m) := BeforeLeaf(os, w.regs, w.mem);
    Fetch(cpu, m, r.eip, MODE32).executable
  }

  /** The machine is about to step through exactly these levels, and at the innermost one the
      instruction to execute can be fetched. */
  ghost predicate Nest(cpu: Cpu, os: System, w: World, levels: seq<Level>)
    requires cpu.Valid()
    decreases levels
  {
    if Nests(os, w) then
      && levels != [] && levels[0] == Arguments(w.regs, w.mem)
      && Nest(cpu, os, Entered(w, levels[0]), levels[1..])
    else
      levels == [] && LeafReady(cpu, os, w)
  }

  // ---- how deep the nesting goes --------------------------------------------------------

  ghost predicate ApartFrom(a: int, n: int, l: Level) {
    Apart(a, n, l.master, BLOCK) && Apart(a, n, l.slave, BLOCK) && Apart(a, n, l.decoded, DECODED)
  }

  ghost predicate ApartFromAll(a: int, n: int, levels: seq<Level>) {
    forall i :: 0 <= i < |levels| ==> ApartFrom(a, n, levels[i])
  }

  /** The areas of all levels are pairwise disjoint. */
  ghost predicate Separate(levels: seq<Level>) {
    levels == [] ||
    (var l, rest := levels[0], levels[1..];
     && Apart(l.master, BLOCK, l.slave, BLOCK) && Apart(l.master, BLOCK, l.decoded, DECODED)
     && Apart(l.slave, BLOCK, l.decoded, DECODED)
     && ApartFromAll(l.master, BLOCK, rest) && ApartFromAll(l.slave, BLOCK, rest)
     && ApartFromAll(l.decoded, DECODED, rest)
     && Separate(rest))
  }

  lemma ApartComm(a: int, n: int, b: int, k: int)
    requires Apart(a, n, b, k)
    ensures Apart(b, k, a, n)
  {
  }

  /** A stretch of n bytes at address a. */
  datatype Place = Place(a: int, n: nat) {
    ghost predicate Clear(p: Place) {
      && 0 <= a && a + n <= SIZE && 0 <= p.a && p.a + p.n <= SIZE
      && (a + n <= p.a || p.a + p.n <= a)
    }
  }

  /** The three stretches that each level works with. */
  function PlacesOf(levels: seq<Level>): (places: seq<Place>)
    ensures |places| == 3 * |levels|
  {
    if levels == [] then []
    else
      var l := levels[0];
      [Place(l.master, BLOCK), Place(l.slave, BLOCK), Place(l.decoded, DECODED)] + PlacesOf(levels[1..])
  }

  ghost predicate AllClear(places: seq<Place>) {
    forall i, j :: 0 <= i < j < |places| ==> places[i].Clear(places[j])
  }

  lemma ClearApart(p: Place, q: Place)
    requires p.Clear(q)
    ensures Apart(p.a, p.n, q.a, q.n)
  {
    LinearApart(p.a, p.n, q.a, q.n);
  }

  lemma {:induction false} PlacesOfLevel(levels: seq<Level>, i: nat)
    requires i < |levels|
    ensures var places := PlacesOf(levels);
      && places[3 * i] == Place(levels[i].master, BLOCK)
      && places[3 * i + 1] == Place(levels[i].slave, BLOCK)
      && places[3 * i + 2] == Place(levels[i].decoded, DECODED)
  {
    if i > 0 {
      PlacesOfLevel(levels[1..], i - 1);
    }
  }

  lemma ClearFromAll(p: Place, levels: seq<Level>)
    requires forall q :: q in PlacesOf(levels) ==> p.Clear(q)
    ensures ApartFromAll(p.a, p.n, levels)
  {
    hide Apart, PlacesOf, Place.Clear;
    forall i | 0 <= i < |levels| ensures ApartFrom(p.a, p.n, levels[i]) {
      var l := levels[i];
      PlacesOfLevel(levels, i);
      ClearApart(p, Place(l.master, BLOCK));
      ClearApart(p, Place(l.slave, BLOCK));
      ClearApart(p, Place(l.decoded, DECODED));
    }
  }

  /** Levels whose stretches do not overlap are separate. */
  lemma {:induction false} PlacesSeparate(levels: seq<Level>)
    requires AllClear(PlacesOf(levels))
    ensures Separate(levels)
  {
    hide Apart, ApartFromAll, Place.Clear;
    if levels != [] {
      var places, rest := PlacesOf(levels), PlacesOf(levels[1..]);
      assert places[3..] == rest;
      assert AllClear(rest) by {
        forall i, j | 0 <= i < j < |rest| ensures rest[i].Clear(rest[j]) {
          assert places[i + 3].Clear(places[j + 3]);
        }
      }
      PlacesSeparate(levels[1..]);
      ClearApart(places[0], places[1]);
      ClearApart(places[0], places[2]);
      ClearApart(places[1], places[2]);
      forall k, q | 0 <= k < 3 && q in rest ensures places[k].Clear(q) {
        var j :| 0 <= j < |rest| && rest[j] == q;
        assert places[k].Clear(places[j + 3]);
      }
      ClearFromAll(places[0], levels[1..]);
      ClearFromAll(places[1], levels[1..]);
      ClearFromAll(places[2], levels[1..]);
    }
  }

  ghost predicate Within(p: Place, b: Heap.Block) {
    b.data <= p.a && p.a + p.n <= Heap.End(b)
  }

  /** Levels whose stretches lie in heap blocks, at[k] being the block of the k-th one, are separate
      when the stretches that share a block do not overlap. */
  lemma HeapSeparate(base: nat, blocks: seq<Heap.Block>, levels: seq<Level>, at: seq<nat>)
    requires Heap.Chained(base, blocks) && Heap.Top(base, blocks) <= SIZE && |at| == |PlacesOf(levels)|
    requires forall k :: 0 <= k < |at| ==> at[k] < |blocks| && Within(PlacesOf(levels)[k], blocks[at[k]])
    requires forall j, k :: 0 <= j < k < |at| && at[j] == at[k] ==> PlacesOf(levels)[j].Clear(PlacesOf(levels)[k])
    ensures Separate(levels)
  {
    hide PlacesOf, Separate, Heap.Chained;
    var places := PlacesOf(levels);
    forall j, k | 0 <= j < k < |places| ensures places[j].Clear(places[k]) {
      Heap.BlockInside(base, blocks, at[j]);
      Heap.BlockInside(base, blocks, at[k]);
      if at[j] < at[k] {
        Heap.BlocksDisjoint(base, blocks, at[j], at[k]);
      } else if at[k] < at[j] {
        Heap.BlocksDisjoint(base, blocks, at[k], at[j]);
      }
    }
    PlacesSeparate(levels);
  }

  /** The n addresses that start at a. */
  ghost function Area(a: int, n: nat): set<u32> {
    if n == 0 then {} else Area(a, n - 1) + {Wrap(a + n - 1)}
  }

  lemma {:induction false} AreaMeans(a: int, n: nat, x: u32)
    requires n <= SIZE
    ensures x in Area(a, n) <==> In(x, a, n)
  {
    if n > 0 {
      AreaMeans(a, n - 1, x);
      WrapShift(a, n - 1);
      if In(x, a, n) && !In(x, a, n - 1) {
        WrapAgain(x - a, a);
        WrapSmall(x);
        assert Wrap(x - a) == n - 1;
      }
    }
  }

  lemma {:induction false} AreaSize(a: int, n: nat)
    requires n <= SIZE
    ensures |Area(a, n)| == n
  {
    if n > 0 {
      AreaSize(a, n - 1);
      WrapShift(a, n - 1);
      AreaMeans(a, n - 1, Wrap(a + n - 1));
    }
  }

  /** The addresses of all slave blocks. */
  ghost function Slaves(levels: seq<Level>): set<u32> {
    if levels == [] then {} else Area(levels[0].slave, BLOCK) + Slaves(levels[1..])
  }

  lemma {:induction false} SlavesApart(a: int, levels: seq<Level>, x: u32)
    requires ApartFromAll(a, BLOCK, levels) && x in Area(a, BLOCK)
    ensures x !in Slaves(levels)
  {
    hide Area, In;
    AreaMeans(a, BLOCK, x);
    if levels != [] {
      assert ApartFrom(a, BLOCK, levels[0]);
      AreaMeans(levels[0].slave, BLOCK, x);
      SlavesApart(a, levels[1..], x);
    }
  }

  lemma {:induction false} SlavesSize(levels: seq<Level>)
    requires Separate(levels)
    ensures |Slaves(levels)| == BLOCK * |levels|
  {
    hide Area, Apart, ApartFromAll;
    if levels != [] {
      var first, rest := Area(levels[0].slave, BLOCK), levels[1..];
      AreaSize(levels[0].slave, BLOCK);
      SlavesSize(rest);
      forall x | x in first ensures x !in Slaves(rest) {
        SlavesApart(levels[0].slave, rest, x);
      }
      assert first !! Slaves(rest);
    }
  }

  /** Only so many separate levels fit into the memory. */
  lemma SeparateBound(levels: seq<Level>)
    requires Separate(levels)
    ensures BLOCK * |levels| <= SIZE
  {
    hide Area, Separate, Slaves;
    var all := Area(0, SIZE);
    SlavesSize(levels);
    AreaSize(0, SIZE);
    forall x: u32 ensures x in all {
      WrapSmall(x);
      AreaMeans(0, SIZE, x);
    }
    assert all == Slaves(levels) + (all - Slaves(levels));
  }

  /** The machine is about to enter these levels, and perhaps more inside them. */
  ghost predicate Chain(os: System, w: World, levels: seq<Level>)
    decreases levels
  {
    levels == [] ||
    (Nests(os, w) && levels[0] == Arguments(w.regs, w.mem) && Chain(os, Entered(w, levels[0]), levels[1..]))
  }

  /** The world behind these levels. */
  ghost function Reached(w: World, levels: seq<Level>): World
    decreases levels
  {
    if levels == [] then w else Reached(Entered(w, levels[0]), levels[1..])
  }

  /** However many levels are entered, their areas are disjoint. */
  ghost predicate Separated(os: System, w: World) {
    forall levels :: Chain(os, w, levels) ==> Separate(levels)
  }

  /** Wherever the nesting ends, the instruction there can be fetched. */
  ghost predicate Fetches(cpu: Cpu, os: System, w: World)
    requires cpu.Valid()
  {
    forall levels :: Chain(os, w, levels) && !Nests(os, Reached(w, levels)) ==> LeafReady(cpu, os, Reached(w, levels))
  }

  lemma {:induction false} ChainFurther(os: System, w: World, levels: seq<Level>)
    requires Chain(os, w, levels) && Nests(os, Reached(w, levels))
    ensures var v := Reached(w, levels);
      Chain(os, w, levels + [Arguments(v.regs, v.mem)])
    decreases levels
  {
    hide Nests, Arguments, Entered;
    var v := Reached(w, levels);
    var all := levels + [Arguments(v.regs, v.mem)];
    if levels != [] {
      ChainFurther(os, Entered(w, levels[0]), levels[1..]);
      assert all[1..] == levels[1..] + [Arguments(v.regs, v.mem)];
    }
  }

  /** A chain that ends is a nesting. */
  lemma {:induction false} NestMeans(cpu: Cpu, os: System, w: World, levels: seq<Level>)
    requires cpu.Valid()
    ensures var v := Reached(w, levels);
      Nest(cpu, os, w, levels) <==> Chain(os, w, levels) && !Nests(os, v) && LeafReady(cpu, os, v)
    decreases levels
  {
    hide Nests, Arguments, Entered, LeafReady, Cpu.Valid;
    if levels != [] {
      NestMeans(cpu, os, Entered(w, levels[0]), levels[1..]);
    }
  }

  /** What is entered on the way is the beginning of the nesting. */
  lemma {:induction false} ChainBegins(cpu: Cpu, os: System, w: World, levels: seq<Level>, all: seq<Level>)
    requires cpu.Valid() && Nest(cpu, os, w, all) && Chain(os, w, levels)
    ensures levels <= all
    ensures !Nests(os, Reached(w, levels)) ==> levels == all
    decreases levels
  {
    hide Nests, Arguments, Entered, LeafReady, Cpu.Valid;
    if levels != [] {
      ChainBegins(cpu, os, Entered(w, levels[0]), levels[1..], all[1..]);
      assert levels == [levels[0]] + levels[1..] && all == [all[0]] + all[1..];
    }
  }

  /** Separate areas end the nesting, after at most SIZE / BLOCK levels. */
  lemma NestingEnds(os: System, w: World, entered: seq<Level>) returns (levels: seq<Level>)
    requires Separated(os, w) && Chain(os, w, entered)
    ensures Chain(os, w, levels) && !Nests(os, Reached(w, levels))
    ensures Separate(levels) && BLOCK * |levels| <= SIZE
    decreases SIZE - |entered|
  {
    hide Chain, Reached, Nests, Arguments, Separate;
    SeparateBound(entered);
    var v := Reached(w, entered);
    if Nests(os, v) {
      ChainFurther(os, w, entered);
      levels := NestingEnds(os, w, entered + [Arguments(v.regs, v.mem)]);
    } else {
      levels := entered;
    }
  }

  /** A nesting that never ends gets as deep as one likes: such a recursion does not return. */
  lemma {:induction false} EndlessNesting(os: System, w: World, n: nat) returns (levels: seq<Level>)
    requires forall entered :: Chain(os, w, entered) ==> Nests(os, Reached(w, entered))
    ensures Chain(os, w, levels) && |levels| == n
  {
    hide Reached, Nests, Arguments, Entered;
    if n == 0 {
      levels := [];
    } else {
      levels := EndlessNesting(os, w, n - 1);
      var v := Reached(w, levels);
      ChainFurther(os, w, levels);
      levels := levels + [Arguments(v.regs, v.mem)];
    }
  }

  /** The nesting ends somewhere, and there an instruction can be fetched. */
  ghost predicate Steppable(cpu: Cpu, os: System, w: World)
    requires cpu.Valid()
  {
    exists levels :: Nest(cpu, os, w, levels)
  }

  /** Apart from fetching, the machine can be stepped exactly when the nesting is not endless. */
  lemma SteppableMeans(cpu: Cpu, os: System, w: World)
    requires cpu.Valid()
    ensures Steppable(cpu, os, w) <==>
      Fetches(cpu, os, w) && exists levels :: Chain(os, w, levels) && !Nests(os, Reached(w, levels))
  {
    hide Chain, Reached, Nests, LeafReady, Nest, Cpu.Valid;
    if Steppable(cpu, os, w) {
      var all :| Nest(cpu, os, w, all);
      NestMeans(cpu, os, w, all);
      forall levels | Chain(os, w, levels) && !Nests(os, Reached(w, levels))
        ensures LeafReady(cpu, os, Reached(w, levels))
      {
        ChainBegins(cpu, os, w, levels, all);
      }
    }
    forall levels | Fetches(cpu, os, w) && Chain(os, w, levels) && !Nests(os, Reached(w, levels))
      ensures Steppable(cpu, os, w)
    {
      NestMeans(cpu, os, w, levels);
    }
  }

  /** The levels that a step goes through. */
  ghost function LevelsOf(cpu: Cpu, os: System, w: World): (levels: seq<Level>)
    requires cpu.Valid() && Steppable(cpu, os, w)
    ensures Nest(cpu, os, w, levels)
  {
    hide Nest;
    var levels :| Nest(cpu, os, w, levels);
    levels
  }

  lemma LevelsAre(cpu: Cpu, os: System, w: World, levels: seq<Level>)
    requires cpu.Valid() && Nest(cpu, os, w, levels)
    ensures Steppable(cpu, os, w) && LevelsOf(cpu, os, w) == levels
  {
    hide Nest, Chain, Reached, Nests, LeafReady, Cpu.Valid;
    var chosen := LevelsOf(cpu, os, w);
    NestMeans(cpu, os, w, levels);
    NestMeans(cpu, os, w, chosen);
    ChainBegins(cpu, os, w, levels, chosen);
  }

  /** Disjoint areas are enough: the nesting ends after at most SIZE / BLOCK levels. */
  lemma SeparatedSteppable(cpu: Cpu, os: System, w: World)
    requires cpu.Valid() && Separated(os, w) && Fetches(cpu, os, w)
    ensures Steppable(cpu, os, w)
    ensures var levels := LevelsOf(cpu, os, w); Separate(levels) && BLOCK * |levels| <= SIZE
  {
    hide Nest, Reached, Nests, LeafReady, Separate, Steppable, LevelsOf, Cpu.Valid;
    var levels := NestingEnds(os, w, []);
    NestMeans(cpu, os, w, levels);
    LevelsAre(cpu, os, w, levels);
  }

  /** The levels of a world that enters one more are that level and those of the world inside. */
  lemma LevelsInside(cpu: Cpu, os: System, w: World)
    requires cpu.Valid() && Steppable(cpu, os, w) && Nests(os, w)
    ensures var l := Arguments(w.regs, w.mem); var v := Entered(w, l);
      Steppable(cpu, os, v) && LevelsOf(cpu, os, w) == [l] + LevelsOf(cpu, os, v)
  {
    hide Arguments, Nests, LeafReady, Steppable, Apart, ApartFrom, Entered, Cpu.Valid;
    var levels := LevelsOf(cpu, os, w);
    LevelsAre(cpu, os, Entered(w, levels[0]), levels[1..]);
    assert levels == [levels[0]] + levels[1..];
  }

  // ---- a step on values -----------------------------------------------------------------

  /** The 24 bytes that describe an executed instruction. */
  function DecodedBytes(os: System, l: Line, r: Regs, m: Mem): (b: seq<byte>)
    ensures |b| == DECODED
  {
    var (op, target) := os.decode(l, r, m);
    LE4(l.address) + LE4(l.esp) + LE4(l.tos) + LE4(Wrap(l.numBytes)) + LE4(op) + LE4(target)
  }

  /** What DebugStep does after the slave's instruction. */
  ghost function Left(os: System, w: World, l: Level): World {
    var m := Put(w.mem, l.decoded, DecodedBytes(os, w.line, w.regs, w.mem));
    var m' := SaveRegs(m, l.slave, w.regs);
    w.(regs := LoadRegs(m', l.master).(eax := EXECUTING), mem := m')
  }

  /** Execute_Instruction on values: at the innermost level one instruction of the machine, and
      around it one context switch per level. */
  ghost function Step(cpu: Cpu, os: System, w: World, levels: seq<Level>): World
    requires cpu.Valid() && Nest(cpu, os, w, levels)
    decreases levels
  {
    if levels == [] then
      var (r, m) := BeforeLeaf(os, w.regs, w.mem);
      Execute(cpu, r, m, false).world
    else
      var v := Switch(cpu, os, w, levels);
      v.(regs := Advance(v.regs, CallAt(os, w.regs, w.mem).1), halted := false)
  }

  /** DebugStep on values. */
  ghost function Switch(cpu: Cpu, os: System, w: World, levels: seq<Level>): World
    requires cpu.Valid() && Nest(cpu, os, w, levels) && levels != []
    decreases levels, 0
  {
    Left(os, Step(cpu, os, Entered(w, levels[0]), levels[1..]), levels[0])
  }

  lemma NestInside(cpu: Cpu, os: System, w: World, levels: seq<Level>)
    requires cpu.Valid() && Nest(cpu, os, w, levels) && levels != []
    ensures Nest(cpu, os, Entered(w, levels[0]), levels[1..])
  {
  }

  /** The world after the next instruction. */
  ghost function Stepped(cpu: Cpu, os: System, w: World): World
    requires cpu.Valid() && Steppable(cpu, os, w)
  {
    Step(cpu, os, w, LevelsOf(cpu, os, w))
  }

  /** The world after DebugStep with these areas. */
  ghost function Switched(cpu: Cpu, os: System, w: World, l: Level): World
    requires cpu.Valid() && Steppable(cpu, os, Entered(w, l))
  {
    Left(os, Stepped(cpu, os, Entered(w, l)), l)
  }

  lemma SteppedMeans(cpu: Cpu, os: System, w: World)
    requires cpu.Valid() && Steppable(cpu, os, w)
    ensures Nests(os, w) ==>
      var l := Arguments(w.regs, w.mem);
      && Steppable(cpu, os, Entered(w, l))
      && var v := Switched(cpu, os, w, l);
         Stepped(cpu, os, w) == v.(regs := Advance(v.regs, CallAt(os, w.regs, w.mem).1), halted := false)
    ensures !Nests(os, w) ==>
      && LeafReady(cpu, os, w)
      && var (r, m) := BeforeLeaf(os, w.regs, w.mem);
         Stepped(cpu, os, w) == Execute(cpu, r, m, false).world
  {
    hide Steppable, Arguments, CallAt, Entered, Left, Advance, Fetch, Execute, BeforeLeaf, LeafReady, Nests, Cpu.Valid;
    var levels := LevelsOf(cpu, os, w);
    assert Nest(cpu, os, w, levels);
    if Nests(os, w) {
      LevelsInside(cpu, os, w);
      var l := Arguments(w.regs, w.mem);
      assert levels[0] == l && levels[1..] == LevelsOf(cpu, os, Entered(w, l));
      assert Switch(cpu, os, w, levels) == Switched(cpu, os, w, l);
    }
  }

  /** What a step comes to when the next instruction is a call, n bytes long, of the given function. */
  ghost predicate CalledStep(cpu: Cpu, os: System, w: World, vmi: Vmi, n: u32)
    requires cpu.Valid() && Steppable(cpu, os, w)
  {
    var next := Stepped(cpu, os, w);
    match vmi
    case NoVmi => Execute(cpu, w.regs, w.mem, false) == Retired(next)
    case OtherVmi(id) =>
      var (r, m) := os.call(id, w.regs, w.mem);
      Execute(cpu, r.(eip := Wrap(r.eip + n)), m, false) == Retired(next)
    case StepVmi =>
      var esp := w.regs.esp;
      var l := Level(Dword(w.mem, esp), Dword(w.mem, Wrap(esp + 4)), Dword(w.mem, Wrap(esp + 8)));
      && Steppable(cpu, os, Entered(w, l))
      && var v := Switched(cpu, os, w, l);
         next == v.(regs := v.regs.(eip := Wrap(v.regs.eip + n)), halted := false)
  }

  lemma CallStep(cpu: Cpu, os: System, w: World)
    requires cpu.Valid() && Steppable(cpu, os, w)
    ensures var (vmi, n) := CallAt(os, w.regs, w.mem); vmi.NoVmi? || n in {3, 5}
    ensures var (vmi, n) := CallAt(os, w.regs, w.mem); CalledStep(cpu, os, w, vmi, n)
  {
    hide Steppable, Stepped, Entered, Switched, Dword, Fetch, Cpu.Valid;
    SteppedMeans(cpu, os, w);
  }

  /** With a relative call of f at EIP: a step of the slave when f is DebugStep, the effect of another
      virtual machine instruction followed by the instruction behind the call, or the call itself. */
  lemma DirectCallStep(cpu: Cpu, os: System, w: World, f: u32)
    requires cpu.Valid() && Steppable(cpu, os, w)
    requires w.mem[w.regs.eip] == 0xe8 && Get(w.mem, Wrap(w.regs.eip + 1), 4) == LE4(Wrap(f - (w.regs.eip + 5)))
    ensures CalledStep(cpu, os, w, os.names(f), 5)
  {
    hide CallAt, Steppable, Get, LE4, Stepped, CalledStep;
    DirectCall(os, w.regs, w.mem, f);
    CallStep(cpu, os, w);
  }

  /** The same for a call of f through a frame slot. */
  lemma SlotCallStep(cpu: Cpu, os: System, w: World, d: byte, f: u32)
    requires cpu.Valid() && Steppable(cpu, os, w)
    requires w.mem[w.regs.eip] == 0xff && w.mem[Wrap(w.regs.eip + 1)] == 0x55 && w.mem[Wrap(w.regs.eip + 2)] == d
    requires Get(w.mem, Wrap(w.regs.ebp + if d < 0x80 then d else d - 0x100), 4) == LE4(f)
    ensures CalledStep(cpu, os, w, os.names(f), 3)
  {
    hide CallAt, Steppable, Get, LE4, Stepped, CalledStep;
    SlotCall(os, w.regs, w.mem, d, f);
    CallStep(cpu, os, w);
  }

  // ---- the operations -------------------------------------------------------------------

  method SaveState(emu: Emu, state: u32)
    modifies emu`mem
    ensures emu.mem == SaveRegs(old(emu.mem), state, emu.regs)
  {
    emu.mem := Registers.SaveState(emu.mem, state, emu.regs);
  }

  method LoadState(emu: Emu, state: u32)
    modifies emu`regs
    ensures emu.regs == LoadRegs(emu.mem, state)
  {
    emu.regs := LoadRegs(emu.mem, state);
  }

  /** The record of an executed instruction in memory, field by field. */
  ghost predicate Recorded(m: Mem, a: int, l: Line, code: (u32, u32)) {
    && Dword(m, a) == l.address && Dword(m, a + 4) == l.esp && Dword(m, a + 8) == l.tos
    && Dword(m, a + 12) == Wrap(l.numBytes) && Dword(m, a + 16) == code.0 && Dword(m, a + 20) == code.1
  }

  lemma DecodedIs(os: System, l: Line, r: Regs, m: Mem)
    ensures var (op, target) := os.decode(l, r, m);
      DecodedBytes(os, l, r, m)
      == LE4(l.address) + LE4(l.esp) + LE4(l.tos) + LE4(Wrap(l.numBytes)) + LE4(op) + LE4(target)
  {
  }

  /** Wherever the bytes of the record are, they read back as its fields. */
  lemma DecodedFields(os: System, l: Line, r: Regs, m: Mem, now: Mem, a: int)
    requires Get(now, a, DECODED) == DecodedBytes(os, l, r, m)
    ensures Recorded(now, a, l, os.decode(l, r, m))
  {
    hide Get, LE4, Dword;
    var (op, target) := os.decode(l, r, m);
    var b := DecodedBytes(os, l, r, m);
    assert b[0..4] == LE4(l.address) && b[4..8] == LE4(l.esp) && b[8..12] == LE4(l.tos);
    assert b[12..16] == LE4(Wrap(l.numBytes)) && b[16..20] == LE4(op) && b[20..24] == LE4(target);
    DwordAt(now, a, b, 0, l.address);
    DwordAt(now, a, b, 4, l.esp);
    DwordAt(now, a, b, 8, l.tos);
    DwordAt(now, a, b, 12, Wrap(l.numBytes));
    DwordAt(now, a, b, 16, op);
    DwordAt(now, a, b, 20, target);
  }

  lemma DecodedRecorded(os: System, l: Line, r: Regs, m: Mem, a: int)
    ensures Recorded(Put(m, a, DecodedBytes(os, l, r, m)), a, l, os.decode(l, r, m))
  {
    hide Get, Put, Recorded, DecodedBytes;
    GetPutSame(m, a, DecodedBytes(os, l, r, m));
    DecodedFields(os, l, r, m, Put(m, a, DecodedBytes(os, l, r, m)), a);
  }

  method WriteDecoded(emu: Emu, os: System, decoded: u32)
    modifies emu`mem
    ensures emu.mem == Put(old(emu.mem), decoded, DecodedBytes(os, emu.line, emu.regs, old(emu.mem)))
    ensures Recorded(emu.mem, decoded, emu.line, os.decode(emu.line, emu.regs, old(emu.mem)))
  {
    hide Put, PutDword, LE4, DecodedBytes, Recorded;
    DecodedRecorded(os, emu.line, emu.regs, emu.mem, decoded);
    DecodedIs(os, emu.line, emu.regs, emu.mem);
    var l := emu.line;
    var (op, target) := os.decode(l, emu.regs, emu.mem);
    ghost var m := emu.mem;
    ghost var b := LE4(l.address);
    FirstDword(m, decoded, l.address);
    emu.mem := PutDword(emu.mem, decoded, l.address);
    NextDword(m, decoded, b, l.esp);
    emu.mem := PutDword(emu.mem, decoded + 4, l.esp);            b := b + LE4(l.esp);
    NextDword(m, decoded, b, l.tos);
    emu.mem := PutDword(emu.mem, decoded + 8, l.tos);            b := b + LE4(l.tos);
    NextDword(m, decoded, b, Wrap(l.numBytes));
    emu.mem := PutDword(emu.mem, decoded + 12, Wrap(l.numBytes)); b := b + LE4(Wrap(l.numBytes));
    NextDword(m, decoded, b, op);
    emu.mem := PutDword(emu.mem, decoded + 16, op);              b := b + LE4(op);
    NextDword(m, decoded, b, target);
    emu.mem := PutDword(emu.mem, decoded + 20, target);
  }

  /** One step of the slave; the budget allows one instruction, and it is retired at the innermost
      level. */
  method DebugStep(emu: Emu, os: System, master: u32, slave: u32, decoded: u32) returns (status: u32)
    requires emu.cpu.Valid() && Steppable(emu.cpu, os, Entered(emu.W(), Level(master, slave, decoded)))
    requires emu.maxInstr == emu.tsc + 1
    modifies emu
    ensures emu.W() == Switched(emu.cpu, os, old(emu.W()), Level(master, slave, decoded))
    ensures emu.tsc == old(emu.tsc) + 1 && emu.maxInstr == old(emu.maxInstr)
    ensures status == EXECUTING
    decreases |LevelsOf(emu.cpu, os, Entered(emu.W(), Level(master, slave, decoded)))|, 4
  {
    hide Steppable, Stepped, LevelsOf, SaveRegs, LoadRegs, Put, DecodedBytes, Cpu.Valid;
    SaveState(emu, master);
    LoadState(emu, slave);
    ExecuteInstruction(emu, os);
    WriteDecoded(emu, os, decoded);
    SaveState(emu, slave);
    LoadState(emu, master);
    emu.regs := emu.regs.(eax := EXECUTING);
    return EXECUTING;
  }

  method VirtualMachineInstruction(emu: Emu, os: System, vmi: Vmi)
    requires emu.cpu.Valid() && Steppable(emu.cpu, os, emu.W())
    requires vmi == CallAt(os, emu.regs, emu.mem).0 && !vmi.NoVmi?
    requires emu.maxInstr == emu.tsc + 1
    modifies emu
    ensures vmi.StepVmi? ==>
      && var l := Arguments(old(emu.regs), old(emu.mem));
      && Steppable(emu.cpu, os, Entered(old(emu.W()), l))
      && emu.W() == Switched(emu.cpu, os, old(emu.W()), l) && emu.tsc == old(emu.tsc) + 1
    ensures vmi.OtherVmi? ==> emu.tsc == old(emu.tsc)
    ensures vmi.OtherVmi? ==>
      emu.W() == (var (r, m) := os.call(vmi.id, old(emu.regs), old(emu.mem)); old(emu.W()).(regs := r, mem := m))
    ensures emu.maxInstr == old(emu.maxInstr)
    decreases |LevelsOf(emu.cpu, os, emu.W())|, 1
  {
    hide CallAt, Switched, Steppable, LevelsOf, Entered, Dword, Cpu.Valid;
    if vmi.StepVmi? {
      LevelsInside(emu.cpu, os, emu.W());
    }
    var stack0 := Dword(emu.mem, emu.regs.esp);
    var stack1 := Dword(emu.mem, Wrap(emu.regs.esp + 4));
    var stack2 := Dword(emu.mem, Wrap(emu.regs.esp + 8));
    match vmi
    case StepVmi =>
      var status := DebugStep(emu, os, stack0, stack1, stack2);
    case OtherVmi(id) =>
      var (r, m) := os.call(id, emu.regs, emu.mem);
      emu.regs, emu.mem := r, m;
  }

  /** The part of Execute_Instruction before the run: a call of a virtual machine instruction, by
      pointer or direct, is carried out and skipped. */
  method CarryOutCall(emu: Emu, os: System)
    requires emu.cpu.Valid() && Steppable(emu.cpu, os, emu.W())
    requires emu.maxInstr == emu.tsc + 1
    modifies emu
    ensures Nests(os, old(emu.W())) ==>
      && var l := Arguments(old(emu.regs), old(emu.mem));
      && Steppable(emu.cpu, os, Entered(old(emu.W()), l)) && emu.tsc == old(emu.tsc) + 1
      && var v := Switched(emu.cpu, os, old(emu.W()), l);
         emu.W() == v.(regs := Advance(v.regs, CallAt(os, old(emu.regs), old(emu.mem)).1))
    ensures !Nests(os, old(emu.W())) ==>
      && emu.tsc == old(emu.tsc)
      && var (r, m) := BeforeLeaf(os, old(emu.regs), old(emu.mem));
         emu.W() == old(emu.W()).(regs := r, mem := m)
    ensures emu.maxInstr == old(emu.maxInstr)
    decreases |LevelsOf(emu.cpu, os, emu.W())|, 2
  {
    hide Dword, Wrap, S8, Switched, Advance, Steppable, LevelsOf, Entered, Arguments, Cpu.Valid;
    var target := Wrap(Dword(emu.mem, Wrap(emu.regs.eip + 1)) + 5 + emu.regs.eip);
    var op1, op2 := emu.mem[emu.regs.eip], emu.mem[Wrap(emu.regs.eip + 1)];
    if op1 == 0xff && op2 == 0x55 {
      var offset := S8(emu.mem[Wrap(emu.regs.eip + 2)]);
      target := Dword(emu.mem, Wrap(emu.regs.ebp + offset));
      if !os.names(target).NoVmi? {
        VirtualMachineInstruction(emu, os, os.names(target));
        emu.regs := Advance(emu.regs, 3);
      }
    }
    if op1 == 0xe8 {
      if !os.names(target).NoVmi? {
        VirtualMachineInstruction(emu, os, os.names(target));
        emu.regs := Advance(emu.regs, 5);
      }
    }
  }

  /** Executes one instruction: the run after the call retires one unless DebugStep already has. The
      recursion through DebugStep ends where the nesting does, which disjoint areas guarantee
      (SeparatedSteppable). */
  method ExecuteInstruction(emu: Emu, os: System)
    requires emu.cpu.Valid() && Steppable(emu.cpu, os, emu.W())
    requires emu.maxInstr == emu.tsc + 1
    modifies emu
    ensures emu.W() == Stepped(emu.cpu, os, old(emu.W()))
    ensures emu.tsc == emu.maxInstr && emu.maxInstr == old(emu.maxInstr)
    decreases |LevelsOf(emu.cpu, os, emu.W())|, 3
  {
    hide CallAt, Switched, Stepped, Advance, BeforeLeaf, Execute, Fetch;
    hide Steppable, LevelsOf, Entered, Arguments, Nests, Cpu.Valid;
    ghost var w := emu.W();
    SteppedMeans(emu.cpu, os, w);
    CarryOutCall(emu, os);
    if !Nests(os, w) {
      BudgetOfOne(emu.cpu, emu.W(), false);
    }
    emu.Run(false);
  }

  // ---- what a step does to the areas of its levels ---------------------------------------

  /** The instruction executed at the innermost level leaves n bytes at a alone. */
  ghost predicate LeafKeeps(cpu: Cpu, os: System, w: World, levels: seq<Level>, a: int, n: nat)
    requires cpu.Valid() && Nest(cpu, os, w, levels)
    decreases levels
  {
    if levels == [] then Get(Step(cpu, os, w, []).mem, a, n) == Get(w.mem, a, n)
    else LeafKeeps(cpu, os, Entered(w, levels[0]), levels[1..], a, n)
  }

  /** The innermost instruction leaves the master blocks of all levels alone. */
  ghost predicate MastersKept(cpu: Cpu, os: System, w: World, levels: seq<Level>)
    requires cpu.Valid() && Nest(cpu, os, w, levels)
    decreases levels
  {
    levels == [] ||
    (LeafKeeps(cpu, os, w, levels, levels[0].master, BLOCK) && MastersKept(cpu, os, Entered(w, levels[0]), levels[1..]))
  }

  lemma LeftKeeps(os: System, w: World, l: Level, a: int, n: nat)
    requires n <= SIZE && ApartFrom(a, n, l)
    ensures Get(Left(os, w, l).mem, a, n) == Get(w.mem, a, n)
  {
    hide Get, Put, Apart, DecodedBytes, Encode, LoadRegs;
    ApartComm(a, n, l.decoded, DECODED);
    ApartComm(a, n, l.slave, BLOCK);
    var bytes := DecodedBytes(os, w.line, w.regs, w.mem);
    GetPutApart(w.mem, l.decoded, bytes, a, n);
    GetPutApart(Put(w.mem, l.decoded, bytes), l.slave, Encode(w.regs), a, n);
  }

  lemma EnteredKeeps(w: World, l: Level, a: int, n: nat)
    requires n <= SIZE && Apart(a, n, l.master, BLOCK)
    ensures Get(Entered(w, l).mem, a, n) == Get(w.mem, a, n)
  {
    hide Get, Put, Apart, Encode, LoadRegs;
    ApartComm(a, n, l.master, BLOCK);
    GetPutApart(w.mem, l.master, Encode(w.regs), a, n);
  }

  /** A step with levels is the switch of the outermost one around a step with the others. */
  lemma OuterLevel(cpu: Cpu, os: System, w: World, levels: seq<Level>)
    requires cpu.Valid() && Nest(cpu, os, w, levels) && levels != []
    ensures var v := Entered(w, levels[0]);
      && Nest(cpu, os, v, levels[1..])
      && Step(cpu, os, w, levels).mem == Left(os, Step(cpu, os, v, levels[1..]), levels[0]).mem
      && Step(cpu, os, w, levels).line == Step(cpu, os, v, levels[1..]).line
  {
    hide CallAt, Execute, BeforeLeaf, Advance, LoadRegs, SaveRegs, Put, DecodedBytes;
  }

  lemma LeafKeepsInside(cpu: Cpu, os: System, w: World, levels: seq<Level>, a: int, n: nat)
    requires cpu.Valid() && Nest(cpu, os, w, levels) && levels != []
    requires LeafKeeps(cpu, os, w, levels, a, n)
    ensures var v := Entered(w, levels[0]);
      Nest(cpu, os, v, levels[1..]) && LeafKeeps(cpu, os, v, levels[1..], a, n)
  {
    hide Nest, Step, Get, Entered;
    NestInside(cpu, os, w, levels);
  }

  lemma ApartFromMaster(a: int, n: int, l: Level)
    requires ApartFrom(a, n, l)
    ensures Apart(a, n, l.master, BLOCK)
  {
  }

  /** A step changes nothing outside the areas of its levels except what its innermost instruction
      changes. */
  lemma {:induction false} StepKeeps(cpu: Cpu, os: System, w: World, levels: seq<Level>, a: int, n: nat)
    requires cpu.Valid() && Nest(cpu, os, w, levels)
    requires n <= SIZE && ApartFromAll(a, n, levels) && LeafKeeps(cpu, os, w, levels, a, n)
    ensures Get(Step(cpu, os, w, levels).mem, a, n) == Get(w.mem, a, n)
    decreases levels
  {
    hide Get, Apart, ApartFrom, Nest, Step, Left, Entered;
    if levels != [] {
      var l, v := levels[0], Entered(w, levels[0]);
      assert ApartFrom(a, n, l);
      LeafKeepsInside(cpu, os, w, levels, a, n);
      OuterLevel(cpu, os, w, levels);
      ApartFromMaster(a, n, l);
      EnteredKeeps(w, l, a, n);
      StepKeeps(cpu, os, v, levels[1..], a, n);
      LeftKeeps(os, Step(cpu, os, v, levels[1..]), l, a, n);
    }
  }

  // ---- the main results -----------------------------------------------------------------

  /** The slave's step leaves the master's saved registers in place. */
  lemma MasterBlockKept(cpu: Cpu, os: System, w: World, levels: seq<Level>)
    requires cpu.Valid() && Nest(cpu, os, w, levels) && levels != []
    requires Separate(levels) && LeafKeeps(cpu, os, w, levels, levels[0].master, BLOCK)
    ensures var v := Entered(w, levels[0]);
      && Nest(cpu, os, v, levels[1..])
      && Get(Step(cpu, os, v, levels[1..]).mem, levels[0].master, BLOCK) == Encode(w.regs)
  {
    hide Get, Put, Apart, Nest, Step, LeafKeeps, Encode, LoadRegs, DecodedBytes;
    var l := levels[0];
    LeafKeepsInside(cpu, os, w, levels, l.master, BLOCK);
    GetPutSame(w.mem, l.master, Encode(w.regs));
    StepKeeps(cpu, os, Entered(w, l), levels[1..], l.master, BLOCK);
  }

  lemma MasterBlockLeft(os: System, v: World, l: Level, r: Regs)
    requires Get(v.mem, l.master, BLOCK) == Encode(r)
    requires Apart(l.master, BLOCK, l.slave, BLOCK) && Apart(l.master, BLOCK, l.decoded, DECODED)
    ensures Left(os, v, l).regs == r.(eax := EXECUTING)
  {
    hide Get, Put, Apart, Encode, LoadRegs, DecodedBytes;
    ApartComm(l.master, BLOCK, l.slave, BLOCK);
    ApartComm(l.master, BLOCK, l.decoded, DECODED);
    var m := Put(v.mem, l.decoded, DecodedBytes(os, v.line, v.regs, v.mem));
    GetPutApart(v.mem, l.decoded, DecodedBytes(os, v.line, v.regs, v.mem), l.master, BLOCK);
    GetPutApart(m, l.slave, Encode(v.regs), l.master, BLOCK);
    LoadEncoded(SaveRegs(m, l.slave, v.regs), l.master, r);
  }

  /** DebugStep gives the master all its registers back, except EAX, which is the status. */
  lemma MasterRestored(cpu: Cpu, os: System, w: World, levels: seq<Level>)
    requires cpu.Valid() && Nest(cpu, os, w, levels) && levels != []
    requires Separate(levels) && LeafKeeps(cpu, os, w, levels, levels[0].master, BLOCK)
    ensures Switch(cpu, os, w, levels).regs == w.regs.(eax := EXECUTING)
  {
    hide Get, Put, Apart, Nest, Step, LeafKeeps, Encode, LoadRegs, DecodedBytes;
    MasterBlockKept(cpu, os, w, levels);
    MasterBlockLeft(os, Step(cpu, os, Entered(w, levels[0]), levels[1..]), levels[0], w.regs);
  }

  /** The slave starts from the registers in its block, and after DebugStep the block holds exactly
      the registers it had after its step. */
  lemma SlaveStepped(cpu: Cpu, os: System, w: World, levels: seq<Level>)
    requires cpu.Valid() && Nest(cpu, os, w, levels) && levels != []
    requires Apart(levels[0].slave, BLOCK, levels[0].master, BLOCK)
    ensures var v, l := Entered(w, levels[0]), levels[0];
      && v.regs == LoadRegs(w.mem, l.slave)
      && Nest(cpu, os, v, levels[1..])
      && LoadRegs(Switch(cpu, os, w, levels).mem, l.slave) == Step(cpu, os, v, levels[1..]).regs
  {
    hide Get, Put, Apart, Nest, Step, Encode, DecodedBytes, LoadRegs;
    var l, v := levels[0], Entered(w, levels[0]);
    NestInside(cpu, os, w, levels);
    EnteredKeeps(w, l, l.slave, BLOCK);
    SameBlock(w.mem, v.mem, l.slave);
    var u := Step(cpu, os, v, levels[1..]);
    SaveThenLoad(Put(u.mem, l.decoded, DecodedBytes(os, u.line, u.regs, u.mem)), l.slave, u.regs);
  }

  /** The areas of every level in the memory m after a step: the master block holds the registers the
      level was entered with, the slave block the registers its slave ended with, and the decoded
      record the instruction that was executed. */
  ghost predicate Settled(cpu: Cpu, os: System, w: World, levels: seq<Level>, m: Mem)
    requires cpu.Valid() && Nest(cpu, os, w, levels)
    decreases levels
  {
    levels == [] ||
    (var l, v, rest := levels[0], Entered(w, levels[0]), levels[1..];
     var u := Step(cpu, os, v, rest);
     && Get(m, l.master, BLOCK) == Encode(w.regs)
     && Get(m, l.slave, BLOCK) == Encode(u.regs)
     && Get(m, l.decoded, DECODED) == DecodedBytes(os, u.line, u.regs, u.mem)
     && Settled(cpu, os, v, rest, m))
  }

  ghost predicate SameArea(m: Mem, m': Mem, l: Level) {
    && Get(m, l.master, BLOCK) == Get(m', l.master, BLOCK)
    && Get(m, l.slave, BLOCK) == Get(m', l.slave, BLOCK)
    && Get(m, l.decoded, DECODED) == Get(m', l.decoded, DECODED)
  }

  ghost predicate SameAreas(m: Mem, m': Mem, levels: seq<Level>) {
    forall i :: 0 <= i < |levels| ==> SameArea(m, m', levels[i])
  }

  lemma {:induction false} SettledFrame(cpu: Cpu, os: System, w: World, levels: seq<Level>, m: Mem, m': Mem)
    requires cpu.Valid() && Nest(cpu, os, w, levels)
    requires Settled(cpu, os, w, levels, m) && SameAreas(m, m', levels)
    ensures Settled(cpu, os, w, levels, m')
    decreases levels
  {
    hide Get, Nest, Step, Encode, DecodedBytes, Entered;
    if levels != [] {
      NestInside(cpu, os, w, levels);
      assert SameArea(m, m', levels[0]);
      SettledFrame(cpu, os, Entered(w, levels[0]), levels[1..], m, m');
    }
  }

  lemma ApartFromLevel(r: Level, l: Level)
    requires ApartFrom(l.master, BLOCK, r) && ApartFrom(l.slave, BLOCK, r) && ApartFrom(l.decoded, DECODED, r)
    ensures ApartFrom(r.master, BLOCK, l) && ApartFrom(r.slave, BLOCK, l) && ApartFrom(r.decoded, DECODED, l)
  {
    hide Apart;
    ApartComm(l.master, BLOCK, r.master, BLOCK); ApartComm(l.master, BLOCK, r.slave, BLOCK);
    ApartComm(l.master, BLOCK, r.decoded, DECODED);
    ApartComm(l.slave, BLOCK, r.master, BLOCK); ApartComm(l.slave, BLOCK, r.slave, BLOCK);
    ApartComm(l.slave, BLOCK, r.decoded, DECODED);
    ApartComm(l.decoded, DECODED, r.master, BLOCK); ApartComm(l.decoded, DECODED, r.slave, BLOCK);
    ApartComm(l.decoded, DECODED, r.decoded, DECODED);
  }

  /** The outer level's areas are apart from those of the levels inside it. */
  lemma LeftKeepsAreas(os: System, u: World, levels: seq<Level>)
    requires Separate(levels) && levels != []
    ensures SameAreas(u.mem, Left(os, u, levels[0]).mem, levels[1..])
  {
    hide Get, Apart, Left;
    var l, rest := levels[0], levels[1..];
    forall i | 0 <= i < |rest| ensures SameArea(u.mem, Left(os, u, l).mem, rest[i]) {
      var r := rest[i];
      assert ApartFrom(l.master, BLOCK, r) && ApartFrom(l.slave, BLOCK, r) && ApartFrom(l.decoded, DECODED, r);
      ApartFromLevel(r, l);
      LeftKeeps(os, u, l, r.master, BLOCK);
      LeftKeeps(os, u, l, r.slave, BLOCK);
      LeftKeeps(os, u, l, r.decoded, DECODED);
    }
  }

  /** What leaving the outermost level writes. */
  lemma LeftWrites(os: System, u: World, l: Level, r: Regs)
    requires Get(u.mem, l.master, BLOCK) == Encode(r)
    requires Apart(l.master, BLOCK, l.slave, BLOCK) && Apart(l.master, BLOCK, l.decoded, DECODED)
    requires Apart(l.slave, BLOCK, l.decoded, DECODED)
    ensures var m := Left(os, u, l).mem;
      && Get(m, l.master, BLOCK) == Encode(r)
      && Get(m, l.slave, BLOCK) == Encode(u.regs)
      && Get(m, l.decoded, DECODED) == DecodedBytes(os, u.line, u.regs, u.mem)
  {
    hide Get, Put, Apart, Encode, LoadRegs, DecodedBytes;
    ApartComm(l.master, BLOCK, l.slave, BLOCK);
    ApartComm(l.master, BLOCK, l.decoded, DECODED);
    var bytes := DecodedBytes(os, u.line, u.regs, u.mem);
    var m := Put(u.mem, l.decoded, bytes);
    GetPutSame(u.mem, l.decoded, bytes);
    GetPutApart(u.mem, l.decoded, bytes, l.master, BLOCK);
    GetPutSame(m, l.slave, Encode(u.regs));
    GetPutApart(m, l.slave, Encode(u.regs), l.master, BLOCK);
    GetPutApart(m, l.slave, Encode(u.regs), l.decoded, DECODED);
  }

  /** At any depth: after a step of separate levels whose innermost instruction writes to none of
      their areas, every level's areas hold what they should. */
  lemma {:induction false} EveryLevelSettled(cpu: Cpu, os: System, w: World, levels: seq<Level>)
    requires cpu.Valid() && Nest(cpu, os, w, levels)
    requires Separate(levels) && MastersKept(cpu, os, w, levels)
    ensures Settled(cpu, os, w, levels, Step(cpu, os, w, levels).mem)
    decreases levels
  {
    hide Get, Apart, Nest, Step, Encode, DecodedBytes, LeafKeeps, Left;
    if levels != [] {
      var l, v, rest := levels[0], Entered(w, levels[0]), levels[1..];
      OuterLevel(cpu, os, w, levels);
      var u := Step(cpu, os, v, rest);
      EveryLevelSettled(cpu, os, v, rest);
      LeftKeepsAreas(os, u, levels);
      SettledFrame(cpu, os, v, rest, u.mem, Left(os, u, l).mem);
      MasterBlockKept(cpu, os, w, levels);
      LeftWrites(os, u, l, w.regs);
    }
  }

  lemma {:induction false} ReachedNest(cpu: Cpu, os: System, w: World, levels: seq<Level>)
    requires cpu.Valid() && Nest(cpu, os, w, levels)
    ensures Nest(cpu, os, Reached(w, levels), [])
    decreases levels
  {
    hide Entered, Nests, LeafReady, Cpu.Valid;
    if levels != [] {
      ReachedNest(cpu, os, Entered(w, levels[0]), levels[1..]);
    }
  }

  /** The instruction that every level sees executed is the one of the innermost level. */
  lemma {:induction false} InnermostLine(cpu: Cpu, os: System, w: World, levels: seq<Level>)
    requires cpu.Valid() && Nest(cpu, os, w, levels)
    ensures var v := Reached(w, levels);
      Nest(cpu, os, v, []) && Step(cpu, os, w, levels).line == Step(cpu, os, v, []).line
    decreases levels
  {
    hide Nest, Step, Entered, Cpu.Valid;
    ReachedNest(cpu, os, w, levels);
    if levels != [] {
      OuterLevel(cpu, os, w, levels);
      InnermostLine(cpu, os, Entered(w, levels[0]), levels[1..]);
    }
  }

  // ---- the outermost loop ---------------------------------------------------------------

  const MAX_INSTRUCTIONS := 20_000_000

  /** The world after n turns of the loop. */
  ghost function Turns(cpu: Cpu, os: System, w: World, n: nat): World
    requires cpu.Valid()
    decreases n
  {
    if n == 0 then w
    else
      var v := Turns(cpu, os, w, n - 1);
      if Steppable(cpu, os, v) then Stepped(cpu, os, v) else v
  }

  /** The first n turns started inside the function, and none but the first in a halted machine. */
  ghost predicate Ran(cpu: Cpu, os: System, w: World, n: nat, functionEnd: u32)
    requires cpu.Valid()
  {
    forall j: nat :: j < n ==>
      var v := Turns(cpu, os, w, j);
      v.regs.eip <= functionEnd && (j > 0 ==> !v.halted)
  }

  /** Every turn that the loop may come to is a step. */
  ghost predicate Steady(cpu: Cpu, os: System, w: World, functionEnd: u32)
    requires cpu.Valid()
  {
    forall n: nat :: Ran(cpu, os, w, n + 1, functionEnd) ==> Steppable(cpu, os, Turns(cpu, os, w, n))
  }

  ghost predicate Invariant(cpu: Cpu, os: System, inv: World -> bool)
    requires cpu.Valid()
  {
    forall w :: inv(w) ==> Steppable(cpu, os, w) && inv(Stepped(cpu, os, w))
  }

  lemma {:induction false} InvariantTurns(cpu: Cpu, os: System, inv: World -> bool, w: World, n: nat)
    requires cpu.Valid() && Invariant(cpu, os, inv) && inv(w)
    ensures inv(Turns(cpu, os, w, n)) && Steppable(cpu, os, Turns(cpu, os, w, n))
  {
    hide Steppable, Stepped, Cpu.Valid;
    if n > 0 {
      InvariantTurns(cpu, os, inv, w, n - 1);
    }
  }

  /** One way to know a steady run: an invariant of its steps. */
  lemma {:induction false} InvariantSteady(cpu: Cpu, os: System, inv: World -> bool, w: World, functionEnd: u32)
    requires cpu.Valid() && Invariant(cpu, os, inv) && inv(w)
    ensures Steady(cpu, os, w, functionEnd)
  {
    hide Steppable, Stepped, Ran, Invariant, Turns, Cpu.Valid;
    forall n: nat ensures Steppable(cpu, os, Turns(cpu, os, w, n)) {
      InvariantTurns(cpu, os, inv, w, n);
    }
  }

  method TestHalting(emu: Emu, codeEnd: u32) returns (status: u32)
    modifies emu`maxInstr
    ensures emu.maxInstr == old(emu.maxInstr) + 1
    ensures status ==
      if emu.halted || emu.maxInstr > MAX_INSTRUCTIONS || emu.regs.eip > codeEnd then HALTED else EXECUTING
  {
    emu.maxInstr := emu.maxInstr + 1;
    if emu.halted || emu.maxInstr > MAX_INSTRUCTIONS || emu.regs.eip > codeEnd {
      return HALTED;
    }
    return EXECUTING;
  }

  lemma RanFurther(cpu: Cpu, os: System, w: World, n: nat, functionEnd: u32)
    requires cpu.Valid() && Ran(cpu, os, w, n, functionEnd)
    requires var v := Turns(cpu, os, w, n);
      v.regs.eip <= functionEnd && (n > 0 ==> !v.halted)
    ensures Ran(cpu, os, w, n + 1, functionEnd)
  {
    hide Turns, Cpu.Valid;
  }

  lemma SteadyHere(cpu: Cpu, os: System, w: World, n: nat, functionEnd: u32)
    requires cpu.Valid() && Steady(cpu, os, w, functionEnd) && Ran(cpu, os, w, n + 1, functionEnd)
    ensures Steppable(cpu, os, Turns(cpu, os, w, n))
  {
    hide Steppable, Turns, Ran, Cpu.Valid;
  }

  lemma OneTurn(cpu: Cpu, os: System, w: World, n: nat)
    requires cpu.Valid() && Steppable(cpu, os, Turns(cpu, os, w, n))
    ensures Turns(cpu, os, w, n + 1) == Stepped(cpu, os, Turns(cpu, os, w, n))
  {
    hide Steppable, Stepped, Cpu.Valid;
  }

  /** What the loop knows when it starts another turn. */
  lemma NextTurn(cpu: Cpu, os: System, w: World, n: nat, functionEnd: u32)
    requires cpu.Valid() && Steady(cpu, os, w, functionEnd) && Ran(cpu, os, w, n, functionEnd)
    requires var v := Turns(cpu, os, w, n);
      v.regs.eip <= functionEnd && (n > 0 ==> !v.halted)
    ensures var v := Turns(cpu, os, w, n);
      && Steppable(cpu, os, v) && Turns(cpu, os, w, n + 1) == Stepped(cpu, os, v)
      && Ran(cpu, os, w, n + 1, functionEnd)
  {
    hide Steppable, Stepped, Turns, Ran, Steady, Cpu.Valid;
    RanFurther(cpu, os, w, n, functionEnd);
    SteadyHere(cpu, os, w, n, functionEnd);
    OneTurn(cpu, os, w, n);
  }

  lemma FirstTurn(cpu: Cpu, os: System, w: World, functionEnd: u32)
    requires cpu.Valid()
    ensures Turns(cpu, os, w, 0) == w && Ran(cpu, os, w, 0, functionEnd)
  {
    hide Steppable;
  }

  /** n turns of Halts retire n machine instructions, one each, whatever the depth of each turn. */
  method Halts(emu: Emu, os: System, functionEnd: u32, codeEnd: u32) returns (status: u32, ghost n: nat)
    requires emu.cpu.Valid() && Steady(emu.cpu, os, emu.W(), functionEnd)
    requires emu.maxInstr == emu.tsc + 1
    modifies emu
    ensures emu.tsc == old(emu.tsc) + n && emu.tsc <= emu.maxInstr <= emu.tsc + 1
    ensures Ran(emu.cpu, os, old(emu.W()), n, functionEnd)
    ensures var v := Turns(emu.cpu, os, old(emu.W()), n);
      && emu.mem == v.mem
      && (emu.maxInstr == emu.tsc ==>
           && status == 0 && n > 0 && emu.regs == v.regs
           && Turns(emu.cpu, os, old(emu.W()), n - 1).regs.eip >= codeEnd)
      && (emu.maxInstr == emu.tsc + 1 ==>
           && emu.regs == v.regs.(eax := status, ebp := old(emu.regs.ebp))
           && (status == HALTED ==> v.halted || emu.maxInstr > MAX_INSTRUCTIONS || v.regs.eip > codeEnd)
           && (status != HALTED ==> status == EXECUTING && v.regs.eip > functionEnd))
  {
    hide Steppable, Stepped, Steady, Turns, Ran, Cpu.Valid;
    ghost var w := emu.W();
    var saveEbp := emu.regs.ebp;
    status := EXECUTING;
    n := 0;
    FirstTurn(emu.cpu, os, w, functionEnd);
    while status == EXECUTING && emu.regs.eip <= functionEnd
      invariant emu.W() == Turns(emu.cpu, os, w, n)
      invariant emu.tsc == old(emu.tsc) + n && emu.maxInstr == emu.tsc + 1
      invariant status == HALTED ==> emu.halted || emu.maxInstr > MAX_INSTRUCTIONS || emu.regs.eip > codeEnd
      invariant status != HALTED ==> status == EXECUTING && (n > 0 ==> !emu.halted && emu.maxInstr <= MAX_INSTRUCTIONS)
      invariant Ran(emu.cpu, os, w, n, functionEnd)
      decreases status == EXECUTING, MAX_INSTRUCTIONS - emu.maxInstr
    {
      var savedEip := emu.regs.eip;
      NextTurn(emu.cpu, os, w, n, functionEnd);
      ExecuteInstruction(emu, os);
      n := n + 1;
      if savedEip >= codeEnd {
        return 0, n;
      }
      status := TestHalting(emu, codeEnd);
    }
    emu.regs := emu.regs.(eax := status, ebp := saveEbp);
  }

  // ---- the premises can be met ----------------------------------------------------------

  function At(eip: u32, esp: u32): Regs {
    Regs(eip, 0, 0, 0, 0, 0, 0, 0, esp, 0, 0, 0, 0, 0, 0, 0)
  }

  /** A machine all of whose instructions are jumps to address 16, and an operating system with
      DebugStep at address 0x1000. */
  function IdleCpu(): (cpu: Cpu)
  {
    Cpu(a => a < 0x8000_0000, (op: byte, mode: Mode, c: Core) => c.(regs := At(16, 0x4000)))
  }

  function StepsOnly(): System {
    System(a => if a == 0x1000 then StepVmi else NoVmi, (id, r, m) => (r, m), (l, r, m) => (0, 0))
  }

  const OUTER := Level(0x1000, 0x2000, 0x3000)
  const INNER := Level(0x6000, 0x7000, 0x8000)

  function Stacked(l: Level): (b: seq<byte>)
    ensures |b| == 12
  {
    LE4(l.master) + LE4(l.slave) + LE4(l.decoded)
  }

  ghost predicate Carries(m: Mem, a: int, b: seq<byte>) {
    Get(m, a, |b|) == b
  }

  /** A relative call of 0x1000 at address 0 and two stacks with the arguments of DebugStep. The slave of the
      outer level is about to make that call on the second stack; its own slave is at address 16. */
  ghost predicate Scene(m: Mem) {
    && Carries(m, 0, [0xe8]) && Carries(m, 1, LE4(0xffb)) && Carries(m, 5, [0]) && Carries(m, 16, [0])
    && Carries(m, 0x4000, Stacked(OUTER)) && Carries(m, 0x5000, Stacked(INNER))
    && Carries(m, 0x2000, Encode(At(0, 0x5000))) && Carries(m, 0x7000, Encode(At(16, 0x4000)))
  }

  lemma CarriesPut(m: Mem, a: int, b: seq<byte>, c: int, d: seq<byte>)
    requires Carries(m, a, b) && Place(c, |d|).Clear(Place(a, |b|))
    ensures Carries(Put(m, c, d), a, b)
  {
    hide Get, Put, Apart;
    ClearApart(Place(c, |d|), Place(a, |b|));
    GetPutApart(m, c, d, a, |b|);
  }

  /** Saving a master of the scene does not disturb it. */
  lemma SceneKept(m: Mem, a: int, r: Regs)
    requires Scene(m) && (a == OUTER.master || a == INNER.master)
    ensures Scene(SaveRegs(m, a, r))
  {
    hide Put, Encode, Carries, Stacked;
    var b := Encode(r);
    CarriesPut(m, 0, [0xe8], a, b);
    CarriesPut(m, 1, LE4(0xffb), a, b);
    CarriesPut(m, 5, [0], a, b);
    CarriesPut(m, 16, [0], a, b);
    CarriesPut(m, 0x4000, Stacked(OUTER), a, b);
    CarriesPut(m, 0x5000, Stacked(INNER), a, b);
    CarriesPut(m, 0x2000, Encode(At(0, 0x5000)), a, b);
    CarriesPut(m, 0x7000, Encode(At(16, 0x4000)), a, b);
  }

  lemma CarriesByte(m: Mem, a: u32, b: byte)
    requires Carries(m, a, [b])
    ensures m[a] == b
  {
    assert Get(m, a, 1)[0] == m[Wrap(a)];
  }

  lemma CarriesArguments(m: Mem, esp: int, l: Level)
    requires Carries(m, esp, Stacked(l)) && 0 <= esp && esp + 12 <= SIZE
    ensures Arguments(At(0, esp), m) == l
  {
    hide Get, LE4, Dword;
    var b := Stacked(l);
    assert b[0..4] == LE4(l.master) && b[4..8] == LE4(l.slave) && b[8..12] == LE4(l.decoded);
    DwordAt(m, esp, b, 0, l.master);
    DwordAt(m, esp, b, 4, l.slave);
    DwordAt(m, esp, b, 8, l.decoded);
  }

  /** A machine of the scene whose next instruction is the call enters the level on its stack. */
  lemma SceneEntered(w: World, esp: u32, l: Level, r: Regs)
    requires Scene(w.mem) && w.regs == At(0, esp)
    requires (esp, l, r) == (0x4000, OUTER, At(0, 0x5000)) || (esp, l, r) == (0x5000, INNER, At(16, 0x4000))
    ensures Nests(StepsOnly(), w) && CallAt(StepsOnly(), w.regs, w.mem).1 == 5 && Arguments(w.regs, w.mem) == l
    ensures var v := Entered(w, l); v.regs == r && Scene(v.mem)
  {
    hide Put, Encode, Stacked, Dword, Arguments, LoadRegs;
    CarriesByte(w.mem, 0, 0xe8);
    DirectCall(StepsOnly(), w.regs, w.mem, 0x1000);
    CarriesArguments(w.mem, esp, l);
    SceneKept(w.mem, l.master, w.regs);
    LoadEncoded(SaveRegs(w.mem, l.master, w.regs), l.slave, r);
  }

  lemma IdleValid()
    ensures IdleCpu().Valid()
  {
    assert !IdleCpu().executable(0x8000_0000);
  }

  lemma IdleFetch(m: Mem, a: u32)
    requires m[a] == 0 && a < 0x8000_0000
    ensures IdleCpu().Valid() && Fetch(IdleCpu(), m, a, MODE32).executable
  {
    hide Fetch, Reach, AfterPrefix, Cpu.Valid;
    IdleValid();
    FetchByteMeans(IdleCpu(), m, a, MODE32);
  }

  lemma NoCall(os: System, r: Regs, m: Mem)
    requires m[r.eip] == 0
    ensures CallAt(os, r, m) == (NoVmi, 0)
  {
    hide Dword, Wrap;
  }

  /** A machine of the example that is at no call steps to address 16. */
  lemma IdleStep(w: World)
    requires Carries(w.mem, w.regs.eip, [0]) && w.regs.eip < 0x8000_0000
    ensures IdleCpu().Valid() && Nest(IdleCpu(), StepsOnly(), w, [])
    ensures var v := Step(IdleCpu(), StepsOnly(), w, []); v.mem == w.mem && v.regs == At(16, 0x4000)
  {
    hide Get, Put, Dword, Fetch, CallAt;
    CarriesByte(w.mem, w.regs.eip, 0);
    IdleFetch(w.mem, w.regs.eip);
    NoCall(StepsOnly(), w.regs, w.mem);
  }

  lemma TwoPlaces()
    ensures PlacesOf([OUTER, INNER]) == [Place(0x1000, BLOCK), Place(0x2000, BLOCK), Place(0x3000, DECODED),
                                         Place(0x6000, BLOCK), Place(0x7000, BLOCK), Place(0x8000, DECODED)]
  {
    var levels := [OUTER, INNER];
    assert levels[1..] == [INNER] && [INNER][1..] == [];
    assert PlacesOf([INNER]) == [Place(0x6000, BLOCK), Place(0x7000, BLOCK), Place(0x8000, DECODED)] + PlacesOf([]);
  }

  lemma TwoSeparate()
    ensures Separate([OUTER, INNER])
  {
    hide Separate, PlacesOf;
    TwoPlaces();
    PlacesSeparate([OUTER, INNER]);
  }

  lemma InnermostIdle(w: World, levels: seq<Level>, a: int, n: nat)
    requires IdleCpu().Valid() && Nest(IdleCpu(), StepsOnly(), w, levels)
    requires Carries(Reached(w, levels).mem, 16, [0]) && Reached(w, levels).regs == At(16, 0x4000)
    ensures LeafKeeps(IdleCpu(), StepsOnly(), w, levels, a, n)
    decreases levels
  {
    hide Get, Nest, Step, Cpu.Valid, Entered;
    if levels == [] {
      IdleStep(w);
    } else {
      NestInside(IdleCpu(), StepsOnly(), w, levels);
      InnermostIdle(Entered(w, levels[0]), levels[1..], a, n);
    }
  }

  lemma SceneIdle(m: Mem)
    requires Scene(m)
    ensures Carries(m, 5, [0]) && Carries(m, 16, [0])
  {
    hide Carries;
  }

  lemma ExampleLeaf(w: World, a: int, n: nat)
    requires Scene(w.mem) && w.regs == At(0, 0x4000)
    requires IdleCpu().Valid() && Nest(IdleCpu(), StepsOnly(), w, [OUTER, INNER])
    ensures LeafKeeps(IdleCpu(), StepsOnly(), w, [OUTER, INNER], a, n)
  {
    hide Scene, Entered, Nest, LeafKeeps, Cpu.Valid;
    var v := Entered(w, OUTER);
    var u := Entered(v, INNER);
    var both, one := [OUTER, INNER], [INNER];
    assert both[1..] == one && one[1..] == [];
    SceneEntered(w, 0x4000, OUTER, At(0, 0x5000));
    SceneEntered(v, 0x5000, INNER, At(16, 0x4000));
    SceneIdle(u.mem);
    assert Reached(u, []) == u && Reached(v, one) == u && Reached(w, both) == u;
    InnermostIdle(w, both, a, n);
  }

  lemma SceneNests(w: World)
    requires Scene(w.mem) && w.regs == At(0, 0x4000)
    ensures IdleCpu().Valid() && Nest(IdleCpu(), StepsOnly(), w, [OUTER, INNER])
    ensures Separate([OUTER, INNER]) && MastersKept(IdleCpu(), StepsOnly(), w, [OUTER, INNER])
    ensures Steppable(IdleCpu(), StepsOnly(), w) && LevelsOf(IdleCpu(), StepsOnly(), w) == [OUTER, INNER]
  {
    hide Scene, Entered, Step, Nests, LeafReady, Arguments, LeafKeeps, Separate, Cpu.Valid, Steppable, LevelsOf;
    var cpu, os := IdleCpu(), StepsOnly();
    var v := Entered(w, OUTER);
    var u := Entered(v, INNER);
    var both, one := [OUTER, INNER], [INNER];
    assert both[1..] == one && one[1..] == [];
    SceneEntered(w, 0x4000, OUTER, At(0, 0x5000));
    SceneEntered(v, 0x5000, INNER, At(16, 0x4000));
    SceneIdle(u.mem);
    IdleStep(u);
    assert Nest(cpu, os, u, []);
    assert Nest(cpu, os, v, one);
    assert Nest(cpu, os, w, both);
    TwoSeparate();
    LevelsAre(cpu, os, w, both);
    assert Reached(u, []) == u && Reached(v, one) == u;
    InnermostIdle(v, one, INNER.master, BLOCK);
    ExampleLeaf(w, OUTER.master, BLOCK);
    assert MastersKept(cpu, os, u, []) && MastersKept(cpu, os, v, one);
  }

  lemma StepAdvances(cpu: Cpu, os: System, w: World, levels: seq<Level>)
    requires cpu.Valid() && Nest(cpu, os, w, levels) && levels != []
    ensures Step(cpu, os, w, levels).regs
      == Advance(Switch(cpu, os, w, levels).regs, CallAt(os, w.regs, w.mem).1)
  {
    hide Nest, Switch, CallAt, Advance, Cpu.Valid;
  }

  lemma ExampleKeeps(w: World, a: u32)
    requires Scene(w.mem) && w.regs == At(0, 0x4000) && a < 0x1000
    ensures IdleCpu().Valid() && Steppable(IdleCpu(), StepsOnly(), w)
    ensures Get(Stepped(IdleCpu(), StepsOnly(), w).mem, a, 1) == Get(w.mem, a, 1)
  {
    hide Scene, Entered, Step, Nests, LeafKeeps, Separate, Cpu.Valid, Steppable, LevelsOf, Nest, Arguments, Get,
         ApartFromAll;
    var cpu, os, both := IdleCpu(), StepsOnly(), [OUTER, INNER];
    SceneNests(w);
    TwoPlaces();
    ClearFromAll(Place(a, 1), both);
    ExampleLeaf(w, a, 1);
    StepKeeps(cpu, os, w, both, a, 1);
  }

  /** The turn of the example comes back to the instruction behind the call. */
  lemma NestedTurn(w: World)
    requires Scene(w.mem) && w.regs == At(0, 0x4000)
    ensures IdleCpu().Valid() && Steppable(IdleCpu(), StepsOnly(), w)
    ensures var v := Stepped(IdleCpu(), StepsOnly(), w);
      v.regs == At(5, 0x4000) && Carries(v.mem, 5, [0]) && Carries(v.mem, 16, [0])
  {
    hide Scene, Entered, Step, Nests, LeafKeeps, Separate, Cpu.Valid, Steppable, LevelsOf, Nest, Arguments, CallAt, Get;
    var cpu, os, both := IdleCpu(), StepsOnly(), [OUTER, INNER];
    SceneNests(w);
    SceneEntered(w, 0x4000, OUTER, At(0, 0x5000));
    SceneIdle(w.mem);
    MasterRestored(cpu, os, w, both);
    StepAdvances(cpu, os, w, both);
    ExampleKeeps(w, 5);
    ExampleKeeps(w, 16);
  }

  ghost predicate Idling(w: World) {
    (w.regs == At(5, 0x4000) || w.regs == At(16, 0x4000)) && Carries(w.mem, 5, [0]) && Carries(w.mem, 16, [0])
  }

  lemma IdlingStep(w: World)
    requires Idling(w)
    ensures IdleCpu().Valid() && Steppable(IdleCpu(), StepsOnly(), w) && Idling(Stepped(IdleCpu(), StepsOnly(), w))
  {
    hide Step, Cpu.Valid, Nest, Carries, Steppable, LevelsOf;
    IdleStep(w);
    LevelsAre(IdleCpu(), StepsOnly(), w, []);
  }

  lemma SceneSteady(w: World, functionEnd: u32)
    requires Scene(w.mem) && w.regs == At(0, 0x4000)
    ensures IdleCpu().Valid() && Steady(IdleCpu(), StepsOnly(), w, functionEnd)
    ensures Steppable(IdleCpu(), StepsOnly(), w) && |LevelsOf(IdleCpu(), StepsOnly(), w)| == 2
  {
    hide Scene, Step, Cpu.Valid, Steppable, LevelsOf, Nest, Carries, Steady, Stepped, Separate;
    var cpu, os := IdleCpu(), StepsOnly();
    IdleValid();
    SceneNests(w);
    var inv := (v: World) => v == w || Idling(v);
    forall v | inv(v) ensures Steppable(cpu, os, v) && inv(Stepped(cpu, os, v)) {
      if v == w { NestedTurn(w); } else { IdlingStep(v); }
    }
    InvariantSteady(cpu, os, inv, w, functionEnd);
  }

  lemma ZeroCarries(m: Mem, a: u32)
    requires forall x: u32 :: m[x] == 0
    ensures Carries(m, a, [0])
  {
    assert Get(m, a, 1) == [m[Wrap(a)]];
  }

  ghost predicate Beside(a: u32, n: nat, c: u32, k: nat) {
    a + n <= SIZE && (a + n <= c || c + k <= a)
  }

  /** Bytes put beside everything that is there so far. */
  lemma Laid(m: Mem, c: u32, d: seq<byte>) returns (m': Mem)
    requires c + |d| <= SIZE
    ensures m' == Put(m, c, d) && Carries(m', c, d)
    ensures forall a: u32, b: seq<byte> :: Carries(m, a, b) && Beside(a, |b|, c, |d|) ==> Carries(m', a, b)
  {
    hide Put, Get;
    m' := Put(m, c, d);
    GetPutSame(m, c, d);
    forall a: u32, b: seq<byte> | Carries(m, a, b) && Beside(a, |b|, c, |d|) ensures Carries(m', a, b) {
      CarriesPut(m, a, b, c, d);
    }
  }

  /** Some machine is in such a scene. */
  lemma SceneExists() returns (w: World)
    ensures Scene(w.mem) && w.regs == At(0, 0x4000)
  {
    hide Put, Get, Encode, Stacked;
    var m0: Mem := seq(SIZE, _ => 0);
    ZeroCarries(m0, 5);
    ZeroCarries(m0, 16);
    var opcode := Laid(m0, 0, [0xe8]);
    var m1 := Laid(opcode, 1, LE4(0xffb));
    var m2 := Laid(m1, 0x2000, Encode(At(0, 0x5000)));
    var m3 := Laid(m2, 0x4000, Stacked(OUTER));
    var m4 := Laid(m3, 0x5000, Stacked(INNER));
    var m := Laid(m4, 0x7000, Encode(At(16, 0x4000)));
    w := World(At(0, 0x4000), m, false, Line(0, 0, 0, 0));
  }

  /** Two levels of nesting over separate areas, whose innermost instruction leaves them alone. */
  lemma NestExample() returns (w: World)
    ensures IdleCpu().Valid() && Nest(IdleCpu(), StepsOnly(), w, [OUTER, INNER])
    ensures Separate([OUTER, INNER]) && MastersKept(IdleCpu(), StepsOnly(), w, [OUTER, INNER])
  {
    hide Scene, Nest, Separate, MastersKept;
    w := SceneExists();
    SceneNests(w);
  }

  /** A run whose first turn nests twice, and which then stays at address 16. */
  lemma HaltsExample(functionEnd: u32) returns (w: World)
    ensures IdleCpu().Valid() && Steady(IdleCpu(), StepsOnly(), w, functionEnd)
    ensures Steppable(IdleCpu(), StepsOnly(), w) && |LevelsOf(IdleCpu(), StepsOnly(), w)| == 2
  {
    hide Scene, Steady, Steppable, LevelsOf;
    w := SceneExists();
    SceneSteady(w, functionEnd);
  }
}
