/** The linear sweep of get_disassembly_listing (x86utm.cpp): one instruction after the other is run in
    disassembling mode, and a listing entry is made for each. */
module Disassembly {
  import opened Emulator
  import opened FlatMemory
  import opened Registers

  /** The entries start at begin, and each starts where the one before it ends. */
  ghost predicate Tiles(listing: seq<Line>, begin: int) {
    forall i :: 0 <= i < |listing| ==>
      && 1 <= listing[i].numBytes <= INSTR_BUF
      && listing[i].address as int == if i == 0 then begin else listing[i - 1].address + listing[i - 1].numBytes
  }

  function EndOf(listing: seq<Line>, begin: int): int {
    if listing == [] then begin else listing[|listing| - 1].address + listing[|listing| - 1].numBytes
  }

  /** Every memory of the sweep satisfies inv, and there the opcode of an instruction that starts in
      [begin, end] can be fetched. */
  ghost predicate CodeFetches(cpu: Cpu, begin: u32, end: u32, inv: Mem -> bool)
    requires cpu.Valid()
  {
    forall r: Regs, m: Mem :: inv(m) && begin <= r.eip <= end ==>
      && Fetch(cpu, m, r.eip, MODE32).executable
      && inv(Execute(cpu, r, m, true).world.mem)
  }

  /** A disassembling turn describes the instruction at EIP and goes on right behind it, whatever the
      instruction itself does to EIP. */
  lemma TurnTiles(cpu: Cpu, w: World)
    requires cpu.Valid() && Fetch(cpu, w.mem, w.regs.eip, MODE32).executable
    ensures var (v, n) := RunFor(cpu, w, 1, true);
      && n == 1 && v.line.address == w.regs.eip && 1 <= v.line.numBytes <= INSTR_BUF
      && v.regs.eip == Wrap(w.regs.eip + v.line.numBytes)
  {
    hide Fetch, Dword;
    BudgetOfOne(cpu, w, true);
  }

  lemma FetchesHere(cpu: Cpu, begin: u32, end: u32, inv: Mem -> bool, w: World)
    requires cpu.Valid() && CodeFetches(cpu, begin, end, inv) && inv(w.mem) && begin <= w.regs.eip <= end
    ensures Fetch(cpu, w.mem, w.regs.eip, MODE32).executable
    ensures inv(RunFor(cpu, w, 1, true).0.mem)
  {
    hide Fetch, RunFor;
    BudgetOfOne(cpu, w, true);
  }

  /** The sweep ends, and its entries tile the code from begin to beyond end. */
  method GetDisassemblyListing(emu: Emu, begin: u32, end: u32, ghost inv: Mem -> bool) returns (listing: seq<Line>)
    requires emu.cpu.Valid() && emu.tsc == 0
    requires CodeFetches(emu.cpu, begin, end, inv) && inv(emu.mem) && end + INSTR_BUF < SIZE
    modifies emu
    ensures Tiles(listing, begin) && EndOf(listing, begin) > end
    ensures forall i :: 0 <= i < |listing| ==> begin <= listing[i].address <= end
    ensures emu.tsc == |listing| && emu.regs.eip as int == EndOf(listing, begin)
  {
    hide Fetch, RunFor, Execute, CodeFetches;
    emu.maxInstr := 1;
    emu.regs := emu.regs.(eip := begin);
    listing := [];
    while emu.regs.eip <= end
      invariant emu.maxInstr == emu.tsc + 1 && emu.tsc == |listing| && inv(emu.mem)
      invariant Tiles(listing, begin)
      invariant emu.regs.eip as int == EndOf(listing, begin)
      invariant begin <= emu.regs.eip
      invariant forall i :: 0 <= i < |listing| ==> begin <= listing[i].address <= end
      decreases end - emu.regs.eip
    {
      FetchesHere(emu.cpu, begin, end, inv, emu.W());
      TurnTiles(emu.cpu, emu.W());
      emu.Run(true);
      listing := listing + [emu.line];
      emu.maxInstr := emu.maxInstr + 1;
    }
  }
}
