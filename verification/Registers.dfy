/** The register block that SaveState and LoadState of x86utm.cpp keep in emulated memory:
    ten dwords followed by six words. */
module Registers {
  import opened FlatMemory

  datatype Regs = Regs(eip: u32, eax: u32, ebx: u32, ecx: u32, edx: u32, esi: u32, edi: u32, ebp: u32,
                       esp: u32, eflg: u32, cs: u16, ss: u16, ds: u16, es: u16, fs: u16, gs: u16)

  const BLOCK := 52

  function Word(m: Mem, a: int): u16 {
    Val2(Get(m, a, 2))
  }

  function PutWord(m: Mem, a: int, v: u16): Mem {
    Put(m, a, LE2(v))
  }

  /** The block as bytes. */
  function Encode(r: Regs): (b: seq<byte>)
    ensures |b| == BLOCK
  {
    LE4(r.eip) + LE4(r.eax) + LE4(r.ebx) + LE4(r.ecx) + LE4(r.edx) + LE4(r.esi) + LE4(r.edi) + LE4(r.ebp)
    + LE4(r.esp) + LE4(r.eflg) + LE2(r.cs) + LE2(r.ss) + LE2(r.ds) + LE2(r.es) + LE2(r.fs) + LE2(r.gs)
  }

  /** The registers held by the block at address a, as LoadState reads them. */
  function LoadRegs(m: Mem, a: int): Regs {
    Regs(Dword(m, a), Dword(m, a + 4), Dword(m, a + 8), Dword(m, a + 12), Dword(m, a + 16), Dword(m, a + 20),
         Dword(m, a + 24), Dword(m, a + 28), Dword(m, a + 32), Dword(m, a + 36),
         Word(m, a + 40), Word(m, a + 42), Word(m, a + 44), Word(m, a + 46), Word(m, a + 48), Word(m, a + 50))
  }

  /** Memory with the block of r at address a, as SaveState writes it. */
  function SaveRegs(m: Mem, a: int, r: Regs): Mem {
    Put(m, a, Encode(r))
  }

  /** The dword at byte k of a block. */
  lemma DwordAt(m: Mem, a: int, b: seq<byte>, k: nat, v: u32)
    requires Get(m, a, |b|) == b && k + 4 <= |b| && b[k..k + 4] == LE4(v)
    ensures Dword(m, a + k) == v
  {
    hide Get, LE4;
    GetSplit(m, a, |b|, k);
    GetSplit(m, a + k, |b| - k, 4);
    assert b[k..][..4] == b[k..k + 4];
    Val4LE4(v);
  }

  lemma WordAt(m: Mem, a: int, b: seq<byte>, k: nat, v: u16)
    requires Get(m, a, |b|) == b && k + 2 <= |b| && b[k..k + 2] == LE2(v)
    ensures Word(m, a + k) == v
  {
    hide Get, LE2;
    GetSplit(m, a, |b|, k);
    GetSplit(m, a + k, |b| - k, 2);
    assert b[k..][..2] == b[k..k + 2];
    Val2LE2(v);
  }

  lemma EncodedDwords(r: Regs)
    ensures var b := Encode(r);
      && b[0..4] == LE4(r.eip) && b[4..8] == LE4(r.eax) && b[8..12] == LE4(r.ebx) && b[12..16] == LE4(r.ecx)
      && b[16..20] == LE4(r.edx) && b[20..24] == LE4(r.esi) && b[24..28] == LE4(r.edi) && b[28..32] == LE4(r.ebp)
      && b[32..36] == LE4(r.esp) && b[36..40] == LE4(r.eflg)
  {
    hide LE4, LE2;
  }

  lemma EncodedWords(r: Regs)
    ensures var b := Encode(r);
      && b[40..42] == LE2(r.cs) && b[42..44] == LE2(r.ss) && b[44..46] == LE2(r.ds)
      && b[46..48] == LE2(r.es) && b[48..50] == LE2(r.fs) && b[50..52] == LE2(r.gs)
  {
    hide LE4, LE2;
  }

  /** A block of r, wherever it came from, loads as r. */
  lemma LoadEncoded(m: Mem, a: int, r: Regs)
    requires Get(m, a, BLOCK) == Encode(r)
    ensures LoadRegs(m, a) == r
  {
    hide Get, LE4, LE2, Encode, Dword, Word;
    var b := Encode(r);
    EncodedDwords(r);
    DwordAt(m, a, b, 0, r.eip); DwordAt(m, a, b, 4, r.eax); DwordAt(m, a, b, 8, r.ebx); DwordAt(m, a, b, 12, r.ecx);
    DwordAt(m, a, b, 16, r.edx); DwordAt(m, a, b, 20, r.esi); DwordAt(m, a, b, 24, r.edi); DwordAt(m, a, b, 28, r.ebp);
    DwordAt(m, a, b, 32, r.esp); DwordAt(m, a, b, 36, r.eflg);
    EncodedWords(r);
    WordAt(m, a, b, 40, r.cs); WordAt(m, a, b, 42, r.ss); WordAt(m, a, b, 44, r.ds);
    WordAt(m, a, b, 46, r.es); WordAt(m, a, b, 48, r.fs); WordAt(m, a, b, 50, r.gs);
  }

  /** A saved block, register by register. */
  lemma BlockFields(m: Mem, a: int, r: Regs)
    ensures var b := SaveRegs(m, a, r);
      && Dword(b, a) == r.eip && Dword(b, a + 4) == r.eax && Dword(b, a + 8) == r.ebx && Dword(b, a + 12) == r.ecx
      && Dword(b, a + 16) == r.edx && Dword(b, a + 20) == r.esi && Dword(b, a + 24) == r.edi
      && Dword(b, a + 28) == r.ebp && Dword(b, a + 32) == r.esp && Dword(b, a + 36) == r.eflg
      && Word(b, a + 40) == r.cs && Word(b, a + 42) == r.ss && Word(b, a + 44) == r.ds
      && Word(b, a + 46) == r.es && Word(b, a + 48) == r.fs && Word(b, a + 50) == r.gs
  {
    hide Get, Put, Encode, Dword, Word;
    GetPutSame(m, a, Encode(r));
    LoadEncoded(SaveRegs(m, a, r), a, r);
  }

  lemma SamePart(m: Mem, m': Mem, a: int, k: nat, n: nat)
    requires Get(m, a, BLOCK) == Get(m', a, BLOCK) && k + n <= BLOCK
    ensures Get(m, a + k, n) == Get(m', a + k, n)
  {
    hide Get;
    GetSplit(m, a, BLOCK, k); GetSplit(m, a + k, BLOCK - k, n);
    GetSplit(m', a, BLOCK, k); GetSplit(m', a + k, BLOCK - k, n);
  }

  /** Equal blocks load equal registers. */
  lemma SameBlock(m: Mem, m': Mem, a: int)
    requires Get(m, a, BLOCK) == Get(m', a, BLOCK)
    ensures LoadRegs(m, a) == LoadRegs(m', a)
  {
    hide Get, Val4, Val2;
    SamePart(m, m', a, 0, 4); SamePart(m, m', a, 4, 4); SamePart(m, m', a, 8, 4); SamePart(m, m', a, 12, 4);
    SamePart(m, m', a, 16, 4); SamePart(m, m', a, 20, 4); SamePart(m, m', a, 24, 4); SamePart(m, m', a, 28, 4);
    SamePart(m, m', a, 32, 4); SamePart(m, m', a, 36, 4);
    SamePart(m, m', a, 40, 2); SamePart(m, m', a, 42, 2); SamePart(m, m', a, 44, 2);
    SamePart(m, m', a, 46, 2); SamePart(m, m', a, 48, 2); SamePart(m, m', a, 50, 2);
  }

  lemma SaveThenLoad(m: Mem, a: int, r: Regs)
    ensures LoadRegs(SaveRegs(m, a, r), a) == r
  {
    GetPutSame(m, a, Encode(r));
    LoadEncoded(SaveRegs(m, a, r), a, r);
  }

  lemma NextDword(m: Mem, a: int, b: seq<byte>, v: u32)
    requires |b| <= 100
    ensures PutDword(Put(m, a, b), a + |b|, v) == Put(m, a, b + LE4(v))
  {
    PutPut(m, a, b, LE4(v));
  }

  lemma NextWord(m: Mem, a: int, b: seq<byte>, v: u16)
    requires |b| <= 100
    ensures PutWord(Put(m, a, b), a + |b|, v) == Put(m, a, b + LE2(v))
  {
    PutPut(m, a, b, LE2(v));
  }

  lemma FirstDword(m: Mem, a: int, v: u32)
    ensures PutDword(m, a, v) == Put(m, a, LE4(v))
  {
  }

  /** The stores of SaveState, one register at a time, write the block. */
  method SaveState(m: Mem, state: u32, r: Regs) returns (mem: Mem)
    ensures mem == SaveRegs(m, state, r)
  {
    hide Put, PutDword, PutWord, LE4, LE2;
    mem := PutDword(m, state, r.eip);
    ghost var b := LE4(r.eip);
    assert mem == Put(m, state, b) by { FirstDword(m, state, r.eip); }
    NextDword(m, state, b, r.eax);
    mem := PutDword(mem, state + 4, r.eax);   b := b + LE4(r.eax);
    NextDword(m, state, b, r.ebx);
    mem := PutDword(mem, state + 8, r.ebx);   b := b + LE4(r.ebx);
    NextDword(m, state, b, r.ecx);
    mem := PutDword(mem, state + 12, r.ecx);  b := b + LE4(r.ecx);
    NextDword(m, state, b, r.edx);
    mem := PutDword(mem, state + 16, r.edx);  b := b + LE4(r.edx);
    NextDword(m, state, b, r.esi);
    mem := PutDword(mem, state + 20, r.esi);  b := b + LE4(r.esi);
    NextDword(m, state, b, r.edi);
    mem := PutDword(mem, state + 24, r.edi);  b := b + LE4(r.edi);
    NextDword(m, state, b, r.ebp);
    mem := PutDword(mem, state + 28, r.ebp);  b := b + LE4(r.ebp);
    NextDword(m, state, b, r.esp);
    mem := PutDword(mem, state + 32, r.esp);  b := b + LE4(r.esp);
    NextDword(m, state, b, r.eflg);
    mem := PutDword(mem, state + 36, r.eflg); b := b + LE4(r.eflg);
    NextWord(m, state, b, r.cs);
    mem := PutWord(mem, state + 40, r.cs);    b := b + LE2(r.cs);
    NextWord(m, state, b, r.ss);
    mem := PutWord(mem, state + 42, r.ss);    b := b + LE2(r.ss);
    NextWord(m, state, b, r.ds);
    mem := PutWord(mem, state + 44, r.ds);    b := b + LE2(r.ds);
    NextWord(m, state, b, r.es);
    mem := PutWord(mem, state + 46, r.es);    b := b + LE2(r.es);
    NextWord(m, state, b, r.fs);
    mem := PutWord(mem, state + 48, r.fs);    b := b + LE2(r.fs);
    NextWord(m, state, b, r.gs);
    mem := PutWord(mem, state + 50, r.gs);    b := b + LE2(r.gs);
  }
}
