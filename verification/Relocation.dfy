/** PatchAddress_Targets of include/Read_COFF_Object.h (the build without the Linux addend): every
    reference of the code section is overwritten with its target. The relocation table is read from
    the buffer that is being patched. */
module Relocation {
  import opened Arithmetic
  import opened FlatMemory
  import opened Registers

  const ENTRY_SIZE := 10

  const RELOC_ADDR32: u16 := 6
  const RELOC_REL32: u16 := 20

  datatype Entry = Entry(codeOffset: u32, symbolIndex: u32, kind: u16)

  datatype Symbol = Symbol(section: nat, value: u32)

  /** The object file's tables: the data offsets of its sections, its symbols, the offset of the code
      section's data, and the place and length of its relocation table. */
  datatype Tables = Tables(sections: seq<u32>, symbols: seq<Symbol>, codeData: u32, relocations: nat, count: nat)

  function EntryAt(code: seq<byte>, a: nat): Entry
    requires a + ENTRY_SIZE <= |code|
  {
    Entry(Val4(code[a..a + 4]), Val4(code[a + 4..a + 8]), Val2(code[a + 8..a + 10]))
  }

  function Site(t: Tables, e: Entry): u32 {
    Wrap(t.codeData + e.codeOffset)
  }

  /** What the source needs of an entry: its symbol and that symbol's section exist, and the four bytes
      to patch lie in the buffer. */
  predicate Legal(code: seq<byte>, t: Tables, e: Entry) {
    && e.symbolIndex < |t.symbols|
    && t.symbols[e.symbolIndex].section < |t.sections|
    && Site(t, e) + 4 <= |code|
  }

  predicate Known(e: Entry) {
    e.kind == RELOC_ADDR32 || e.kind == RELOC_REL32
  }

  /** The address of the symbol that an entry refers to. */
  function Target(t: Tables, e: Entry): u32
    requires e.symbolIndex < |t.symbols| && t.symbols[e.symbolIndex].section < |t.sections|
  {
    var symbol := t.symbols[e.symbolIndex];
    Wrap(t.sections[symbol.section] + symbol.value)
  }

  function Patched(code: seq<byte>, a: nat, v: u32): (r: seq<byte>)
    requires a + 4 <= |code|
    ensures |r| == |code|
  {
    code[..a] + LE4(v) + code[a + 4..]
  }

  /** The dword stored for an entry: the target, or its distance from behind the dword. */
  function Value(t: Tables, e: Entry): u32
    requires e.symbolIndex < |t.symbols| && t.symbols[e.symbolIndex].section < |t.sections|
  {
    if e.kind == RELOC_REL32 then Wrap(Target(t, e) - (Site(t, e) + 4)) else Target(t, e)
  }

  /** Every entry that the loop reaches, read from the buffer as it is by then, is legal. */
  ghost predicate Runs(code: seq<byte>, t: Tables, k: nat)
    decreases t.count - k
  {
    k < t.count ==>
      && t.relocations + ENTRY_SIZE * (k + 1) <= |code|
      && var e := EntryAt(code, t.relocations + ENTRY_SIZE * k);
         Legal(code, t, e) && (Known(e) ==> Runs(Patched(code, Site(t, e), Value(t, e)), t, k + 1))
  }

  /** The buffer after patching from entry k on, and how many entries were patched. */
  ghost function PatchFrom(code: seq<byte>, t: Tables, k: nat): (r: (seq<byte>, nat))
    requires Runs(code, t, k) && k <= t.count
    decreases t.count - k
  {
    if k == t.count then (code, k)
    else
      var e := EntryAt(code, t.relocations + ENTRY_SIZE * k);
      if Known(e) then PatchFrom(Patched(code, Site(t, e), Value(t, e)), t, k + 1) else (code, k)
  }

  method PatchDword(code: array<byte>, a: nat, v: u32)
    requires a + 4 <= code.Length
    modifies code
    ensures code[..] == Patched(old(code[..]), a, v)
  {
    var b := LE4(v);
    code[a], code[a + 1], code[a + 2], code[a + 3] := b[0], b[1], b[2], b[3];
  }

  method PatchAddressTargets(code: array<byte>, t: Tables) returns (ok: bool)
    requires Runs(code[..], t, 0)
    modifies code
    ensures (code[..], ok) == (PatchFrom(old(code[..]), t, 0).0, PatchFrom(old(code[..]), t, 0).1 == t.count)
  {
    hide Patched, EntryAt, Site;
    var m := 0;
    while m < t.count
      invariant m <= t.count && Runs(code[..], t, m)
      invariant PatchFrom(code[..], t, m) == PatchFrom(old(code[..]), t, 0)
    {
      var offset := t.relocations + ENTRY_SIZE * m;
      var temp := EntryAt(code[..], offset);
      var patchedCode: int := Site(t, temp);
      var symbol := t.symbols[temp.symbolIndex];
      var patchTarget: int := Wrap(t.sections[symbol.section] + symbol.value);
      if temp.kind == RELOC_REL32 {
        patchTarget := Wrap(patchTarget - (patchedCode + 4));
      } else if temp.kind != RELOC_ADDR32 && temp.kind != RELOC_REL32 {
        return false;
      }
      PatchDword(code, patchedCode, patchTarget);
      m := m + 1;
    }
    return true;
  }

  // ---- separate sites ---------------------------------------------------------------------

  ghost function Original(code: seq<byte>, t: Tables, i: nat): Entry
    requires t.relocations + ENTRY_SIZE * t.count <= |code| && i < t.count
  {
    EntryAt(code, t.relocations + ENTRY_SIZE * i)
  }

  ghost predicate SiteLegal(code: seq<byte>, t: Tables, i: nat)
    requires t.relocations + ENTRY_SIZE * t.count <= |code| && i < t.count
  {
    var e := Original(code, t, i);
    Legal(code, t, e) && (Site(t, e) + 4 <= t.relocations || t.relocations + ENTRY_SIZE * t.count <= Site(t, e))
  }

  ghost predicate SitesApart(code: seq<byte>, t: Tables, i: nat, j: nat)
    requires t.relocations + ENTRY_SIZE * t.count <= |code| && i < t.count && j < t.count
  {
    var a, b := Site(t, Original(code, t, i)), Site(t, Original(code, t, j));
    a + 4 <= b || b + 4 <= a
  }

  /** The table lies in the buffer, its entries are legal, and no site overlaps the table or another
      site. */
  ghost predicate SitesSeparate(code: seq<byte>, t: Tables) {
    && t.relocations + ENTRY_SIZE * t.count <= |code|
    && (forall i: nat :: i < t.count ==> SiteLegal(code, t, i))
    && (forall i: nat, j: nat :: i < j < t.count ==> SitesApart(code, t, i, j))
  }

  ghost predicate AtSite(code: seq<byte>, t: Tables, i: nat, x: int)
    requires t.relocations + ENTRY_SIZE * t.count <= |code| && i < t.count
  {
    Site(t, Original(code, t, i)) <= x < Site(t, Original(code, t, i)) + 4
  }

  /** x is a byte of the site of one of the first n entries. */
  ghost predicate InSite(code: seq<byte>, t: Tables, n: nat, x: int)
    requires t.relocations + ENTRY_SIZE * t.count <= |code| && n <= t.count
  {
    exists i: nat :: i < n && AtSite(code, t, i, x)
  }

  ghost predicate SiteHolds(code: seq<byte>, t: Tables, now: seq<byte>, i: nat)
    requires SitesSeparate(code, t) && i < t.count && |now| == |code|
  {
    assert SiteLegal(code, t, i);
    var e := Original(code, t, i);
    now[Site(t, e)..Site(t, e) + 4] == LE4(Value(t, e))
  }

  /** The buffer now after the first n entries: their sites hold their values, all other bytes are
      those of the original. */
  ghost predicate Progress(code: seq<byte>, t: Tables, n: nat, now: seq<byte>)
    requires SitesSeparate(code, t) && n <= t.count
  {
    && |now| == |code|
    && (forall i: nat :: i < n ==> SiteHolds(code, t, now, i))
    && (forall x: nat :: x < |code| && !InSite(code, t, n, x) ==> now[x] == code[x])
  }

  /** The table is still the original one when its next entry is read. */
  lemma TableIntact(code: seq<byte>, t: Tables, n: nat, now: seq<byte>)
    requires SitesSeparate(code, t) && n < t.count && Progress(code, t, n, now)
    ensures EntryAt(now, t.relocations + ENTRY_SIZE * n) == Original(code, t, n)
  {
    hide Val4, Val2, SiteHolds;
    var a := t.relocations + ENTRY_SIZE * n;
    forall x | a <= x < a + ENTRY_SIZE ensures now[x] == code[x] {
      forall i: nat | i < n ensures !AtSite(code, t, i, x) {
        assert SiteLegal(code, t, i);
      }
    }
    assert now[a..a + 4] == code[a..a + 4] && now[a + 4..a + 8] == code[a + 4..a + 8];
    assert now[a + 8..a + 10] == code[a + 8..a + 10];
  }

  lemma PatchedElsewhere(code: seq<byte>, a: nat, v: u32, x: nat)
    requires a + 4 <= |code| && x < |code| && (x < a || a + 4 <= x)
    ensures Patched(code, a, v)[x] == code[x]
  {
  }

  lemma PatchedApart(code: seq<byte>, a: nat, v: u32, b: nat)
    requires a + 4 <= |code| && b + 4 <= |code| && (b + 4 <= a || a + 4 <= b)
    ensures Patched(code, a, v)[b..b + 4] == code[b..b + 4]
  {
    hide LE4;
  }

  lemma PatchedHere(code: seq<byte>, a: nat, v: u32)
    requires a + 4 <= |code|
    ensures Patched(code, a, v)[a..a + 4] == LE4(v)
  {
    hide LE4;
  }

  lemma PatchStep(code: seq<byte>, t: Tables, n: nat, now: seq<byte>)
    requires SitesSeparate(code, t) && n < t.count && Progress(code, t, n, now)
    ensures SiteLegal(code, t, n) && Legal(code, t, Original(code, t, n))
    ensures var e := Original(code, t, n); Progress(code, t, n + 1, Patched(now, Site(t, e), Value(t, e)))
  {
    hide Val4, Val2, LE4, Site, Value, EntryAt, Patched;
    assert SiteLegal(code, t, n);
    var e := Original(code, t, n);
    var next := Patched(now, Site(t, e), Value(t, e));
    forall i: nat | i < n + 1 ensures SiteHolds(code, t, next, i) {
      var a := Site(t, Original(code, t, i));
      if i < n {
        assert SiteHolds(code, t, now, i) && SitesApart(code, t, i, n) && SiteLegal(code, t, i);
        PatchedApart(now, Site(t, e), Value(t, e), a);
      } else {
        PatchedHere(now, Site(t, e), Value(t, e));
      }
    }
    forall x: nat | x < |code| && !InSite(code, t, n + 1, x) ensures next[x] == code[x] {
      assert !AtSite(code, t, n, x);
      PatchedElsewhere(now, Site(t, e), Value(t, e), x);
      assert !InSite(code, t, n, x) by {
        forall i: nat | i < n ensures !AtSite(code, t, i, x) {
        }
      }
    }
  }

  lemma TableLength(code: seq<byte>, t: Tables, n: nat, now: seq<byte>)
    requires SitesSeparate(code, t) && n < t.count && Progress(code, t, n, now)
    ensures |now| == |code| && t.relocations + ENTRY_SIZE * (n + 1) <= |now|
  {
  }

  /** With separate sites the loop runs to the first entry of unknown type (or to the end), and every
      entry before it is patched as the original table says. */
  lemma {:induction false} PatchedAsListed(code: seq<byte>, t: Tables, n: nat, now: seq<byte>)
    requires SitesSeparate(code, t) && n <= t.count && Progress(code, t, n, now)
    ensures Runs(now, t, n)
    ensures var (last, k) := PatchFrom(now, t, n);
      && n <= k <= t.count
      && (forall i: nat :: n <= i < k ==> Known(Original(code, t, i)))
      && (k < t.count ==> !Known(Original(code, t, k)))
      && Progress(code, t, k, last)
    decreases t.count - n
  {
    hide Progress, Patched, Value, Site;
    if n < t.count {
      TableLength(code, t, n, now);
      TableIntact(code, t, n, now);
      PatchStep(code, t, n, now);
      var e := Original(code, t, n);
      if Known(e) {
        PatchedAsListed(code, t, n + 1, Patched(now, Site(t, e), Value(t, e)));
      }
    }
  }

  /** The four bytes of an entry's site hold the symbol's address, or lead there from behind the site. */
  ghost predicate Relocated(code: seq<byte>, t: Tables, e: Entry)
    requires Legal(code, t, e)
  {
    var field := Val4(code[Site(t, e)..Site(t, e) + 4]);
    && (e.kind == RELOC_ADDR32 ==> field == Target(t, e))
    && (e.kind == RELOC_REL32 ==> Wrap(Site(t, e) + 4 + field) == Target(t, e))
  }

  lemma StartsUnpatched(code: seq<byte>, t: Tables)
    requires SitesSeparate(code, t)
    ensures Progress(code, t, 0, code)
  {
  }

  lemma BackAgain(target: u32, from: int)
    ensures Wrap(from + Wrap(target - from)) == target
  {
    var q := (target - from) / SIZE;
    assert target - from == q * SIZE + Wrap(target - from);
  }

  lemma HeldMeans(code: seq<byte>, t: Tables, last: seq<byte>, k: nat, i: nat)
    requires SitesSeparate(code, t) && k <= t.count && Progress(code, t, k, last) && i < k
    ensures SiteLegal(code, t, i) && Legal(last, t, Original(code, t, i))
    ensures Relocated(last, t, Original(code, t, i))
  {
    hide EntryAt, Val4, LE4, Site, Target;
    assert SiteLegal(code, t, i) && SiteHolds(code, t, last, i);
    var e := Original(code, t, i);
    Val4LE4(Value(t, e));
    BackAgain(Target(t, e), Site(t, e) + 4);
  }

  /** The relocation theorem: when the sites are separate, patching is defined, and it succeeds exactly
      when all types are known; then every ADDR32 site holds its symbol's address, every REL32 site
      the distance of that address from the byte behind the site, and all other bytes are unchanged. */
  lemma PatchedObject(code: seq<byte>, t: Tables)
    requires SitesSeparate(code, t)
    ensures Runs(code, t, 0)
    ensures var (last, k) := PatchFrom(code, t, 0);
      && (k == t.count <==> forall i: nat :: i < t.count ==> Known(Original(code, t, i)))
      && k <= t.count && |last| == |code|
      && (forall i: nat :: i < k ==> SiteLegal(code, t, i) && Relocated(last, t, Original(code, t, i)))
      && (forall x: nat :: x < |code| && !InSite(code, t, k, x) ==> last[x] == code[x])
  {
    hide Runs, PatchFrom, Site, Known, Target;
    StartsUnpatched(code, t);
    PatchedAsListed(code, t, 0, code);
    var (last, k) := PatchFrom(code, t, 0);
    forall i: nat | i < k ensures SiteLegal(code, t, i) && Relocated(last, t, Original(code, t, i)) {
      HeldMeans(code, t, last, k, i);
    }
  }

  // ---- the same, byte by byte -------------------------------------------------------------

  /** The ten bytes of entry i of the relocation table. */
  predicate Listed(code: seq<byte>, t: Tables, i: nat, offset: u32, index: u32, kind: u16) {
    var a := t.relocations + 10 * i;
    a + 10 <= |code| && code[a..a + 10] == LE4(offset) + LE4(index) + LE2(kind)
  }

  /** The symbol's address: the data offset of its section plus its value. */
  predicate SymbolAt(t: Tables, index: u32, address: u32) {
    && index < |t.symbols| && t.symbols[index].section < |t.sections|
    && address == Wrap(t.sections[t.symbols[index].section] + t.symbols[index].value)
  }

  /** The four bytes at the site of such an entry: the address of its symbol, or the distance of that
      address from the byte behind them. */
  ghost predicate Placed(code: seq<byte>, t: Tables, offset: u32, index: u32, kind: u16) {
    var site := Wrap(t.codeData + offset);
    && site + 4 <= |code|
    && exists address: u32 :: SymbolAt(t, index, address)
         && (kind == 6 ==> code[site..site + 4] == LE4(address))
         && (kind == 20 ==> code[site..site + 4] == LE4(Wrap(address - (site + 4))))
  }

  lemma ListedEntry(code: seq<byte>, t: Tables, i: nat, offset: u32, index: u32, kind: u16)
    requires Listed(code, t, i, offset, index, kind)
    ensures t.relocations + ENTRY_SIZE * i + ENTRY_SIZE <= |code|
    ensures EntryAt(code, t.relocations + ENTRY_SIZE * i) == Entry(offset, index, kind)
  {
    hide LE4, LE2, Val4, Val2;
    var a := t.relocations + ENTRY_SIZE * i;
    var b := code[a..a + 10];
    assert b[0..4] == LE4(offset) && b[4..8] == LE4(index) && b[8..10] == LE2(kind);
    assert code[a..a + 4] == b[0..4] && code[a + 4..a + 8] == b[4..8] && code[a + 8..a + 10] == b[8..10];
    Val4LE4(offset);
    Val4LE4(index);
    Val2LE2(kind);
  }

  lemma DistanceBack(target: u32, from: int, field: u32)
    requires Wrap(from + field) == target
    ensures field == Wrap(target - from)
  {
    WrapAgain(from + field, 0 - from);
    assert Wrap(target - from) == Wrap(from + field + (0 - from)) == Wrap(field);
  }

  lemma FieldBytes(code: seq<byte>, t: Tables, e: Entry)
    requires Legal(code, t, e) && Relocated(code, t, e)
    ensures Placed(code, t, e.codeOffset, e.symbolIndex, e.kind)
  {
    hide LE4, Val4, Wrap;
    var site: int, target: u32 := Site(t, e), Target(t, e);
    var field := Val4(code[site..site + 4]);
    LE4Val4(code[site..site + 4]);
    if e.kind == RELOC_REL32 {
      DistanceBack(target, site + 4, field);
    }
    assert SymbolAt(t, e.symbolIndex, target);
  }

  lemma TableInside(code: seq<byte>, t: Tables)
    requires SitesSeparate(code, t)
    ensures t.relocations + ENTRY_SIZE * t.count <= |code|
  {
  }

  lemma TableFits(code: seq<byte>, t: Tables, i: nat)
    requires SitesSeparate(code, t) && i < t.count
    ensures t.relocations + ENTRY_SIZE * t.count <= |code| && t.relocations + ENTRY_SIZE * (i + 1) <= |code|
    ensures Original(code, t, i) == EntryAt(code, t.relocations + ENTRY_SIZE * i)
    ensures SiteLegal(code, t, i)
  {
  }

  lemma EntryPlaced(before: seq<byte>, after: seq<byte>, t: Tables, i: nat)
    requires SitesSeparate(before, t) && i < t.count && |after| == |before|
    requires Legal(after, t, Original(before, t, i)) && Relocated(after, t, Original(before, t, i))
    ensures var e := Original(before, t, i); Placed(after, t, e.codeOffset, e.symbolIndex, e.kind)
  {
    hide Relocated, Placed, Legal;
    FieldBytes(after, t, Original(before, t, i));
  }

  lemma LE2Val2(b: seq<byte>)
    requires |b| == 2
    ensures LE2(Val2(b)) == b
  {
  }

  lemma EntryListed(code: seq<byte>, t: Tables, i: nat)
    requires t.relocations + ENTRY_SIZE * (i + 1) <= |code|
    ensures var e := EntryAt(code, t.relocations + ENTRY_SIZE * i);
      Listed(code, t, i, e.codeOffset, e.symbolIndex, e.kind)
  {
    hide LE4, LE2, Val4, Val2;
    var a := t.relocations + ENTRY_SIZE * i;
    LE4Val4(code[a..a + 4]);
    LE4Val4(code[a + 4..a + 8]);
    LE2Val2(code[a + 8..a + 10]);
    assert code[a..a + 10] == code[a..a + 4] + code[a + 4..a + 8] + code[a + 8..a + 10];
  }

  /** PatchAddressTargets on an object whose sites are separate: each site holds what its table entry
      asks for. */
  method PatchObject(code: array<byte>, t: Tables) returns (ok: bool)
    requires SitesSeparate(code[..], t)
    modifies code
    ensures ok ==> forall i: nat, offset: u32, index: u32, kind: u16 ::
      i < t.count && Listed(old(code[..]), t, i, offset, index, kind) ==> Placed(code[..], t, offset, index, kind)
    ensures !ok ==> exists i: nat, offset: u32, index: u32, kind: u16 ::
      i < t.count && Listed(old(code[..]), t, i, offset, index, kind) && kind != 6 && kind != 20
  {
    hide Runs, PatchFrom, Relocated, Site, EntryAt, Placed, Listed, Target, SitesSeparate;
    ghost var before := code[..];
    PatchedObject(before, t);
    TableInside(before, t);
    ok := PatchAddressTargets(code, t);
    ghost var after := code[..];
    if ok {
      forall i: nat, offset: u32, index: u32, kind: u16 | i < t.count && Listed(before, t, i, offset, index, kind)
        ensures Placed(after, t, offset, index, kind)
      {
        ListedEntry(before, t, i, offset, index, kind);
        TableFits(before, t, i);
        EntryPlaced(before, after, t, i);
      }
    } else {
      ghost var i: nat :| i < t.count && !Known(Original(before, t, i));
      TableFits(before, t, i);
      EntryListed(before, t, i);
    }
  }

  // ---- the near call ----------------------------------------------------------------------

  function S16(x: u16): int {
    if x < 0x8000 then x else x - 0x1_0000
  }

  lemma NearTarget(eip: u32, field: u32)
    ensures Wrap(Wrap(eip + 4) + S32(field)) == Wrap(eip + 4 + field)
  {
    var q := (eip + 4) / SIZE;
    assert eip + 4 == q * SIZE + Wrap(eip + 4);
    assert field == S32(field) || field == S32(field) + SIZE;
  }

  lemma LowSigned(a: int, field: u16)
    ensures (a + S16(field)) % 0x1_0000 == (a + field) % 0x1_0000
  {
  }

  lemma WrapLow(a: int)
    ensures Wrap(a) % 0x1_0000 == a % 0x1_0000
  {
    var q, w := a / SIZE, Wrap(a);
    var u, v := w / 0x1_0000, w % 0x1_0000;
    DivModUnique(a, 0x1_0000, 0x1_0000 * q + u, v);
  }

  lemma LowPlus(a: int, b: int, d: int)
    requires a % 0x1_0000 == b % 0x1_0000
    ensures (a + d) % 0x1_0000 == (b + d) % 0x1_0000
  {
    var q, p := a / 0x1_0000, b / 0x1_0000;
    assert a + d == 0x1_0000 * (q - p) + (b + d);
  }

  lemma NearTarget16(eip: u32, field: u16)
    ensures Wrap(Wrap(eip + 2) + S16(field)) % 0x1_0000 == (eip + 2 + field) % 0x1_0000
    ensures Wrap(eip + 2) % 0x1_0000 == (eip + 2) % 0x1_0000
  {
    hide Wrap;
    WrapLow(eip + 2);
    WrapLow(Wrap(eip + 2) + S16(field));
    LowPlus(Wrap(eip + 2), eip + 2, S16(field));
    LowSigned(eip + 2, field);
  }

  /** x86emuOp_call_near_IMM; EIP is behind the opcode. With 16-bit operands the target is cut to 16
      bits and a word is pushed. */
  method CallNear(r: Regs, m: Mem, data32: bool) returns (r': Regs, m': Mem)
    ensures r' == r.(eip := r'.eip, esp := r'.esp)
    ensures data32 ==>
      && r'.eip == Wrap(r.eip + 4 + Dword(m, r.eip)) && r'.esp == Wrap(r.esp - 4)
      && m' == PutDword(m, r'.esp, Wrap(r.eip + 4)) && Dword(m', r'.esp) == Wrap(r.eip + 4)
    ensures !data32 ==>
      && r'.eip == (r.eip + 2 + Word(m, r.eip)) % 0x1_0000 && r'.esp == Wrap(r.esp - 2)
      && m' == PutWord(m, r'.esp, (r.eip + 2) % 0x1_0000) && Word(m', r'.esp) == (r.eip + 2) % 0x1_0000
  {
    hide Get, Put, LE4, LE2, Val4, Val2;
    var ofs;
    if data32 {
      ofs := S32(Dword(m, r.eip));
      r' := r.(eip := Wrap(r.eip + 4));
      NearTarget(r.eip, Dword(m, r.eip));
    } else {
      ofs := S16(Word(m, r.eip));
      r' := r.(eip := Wrap(r.eip + 2));
      NearTarget16(r.eip, Word(m, r.eip));
    }
    var eip := Wrap(r'.eip + ofs);
    if data32 {
      r' := r'.(esp := Wrap(r'.esp - 4));
      m' := PutDword(m, r'.esp, r'.eip);
      DwordPutDword(m, r'.esp, r'.eip);
    } else {
      eip := eip % 0x1_0000;
      r' := r'.(esp := Wrap(r'.esp - 2));
      m' := PutWord(m, r'.esp, r'.eip % 0x1_0000);
      GetPutSame(m, r'.esp, LE2(r'.eip % 0x1_0000));
      Val2LE2(r'.eip % 0x1_0000);
    }
    r' := r'.(eip := eip);
  }

  /** A REL32 site in a memory that was loaded with a relocated object holds the distance to the
      symbol. */
  lemma LoadedSite(code: seq<byte>, t: Tables, e: Entry, m: Mem)
    requires Legal(code, t, e) && Relocated(code, t, e) && e.kind == RELOC_REL32
    requires |code| <= SIZE && Get(m, 0, |code|) == code
    ensures Wrap(Site(t, e) + 4 + Dword(m, Site(t, e))) == Target(t, e)
  {
    hide Get, Val4, Site, Target;
    var a := Site(t, e);
    GetSplit(m, 0, |code|, a);
    GetSplit(m, a, |code| - a, 4);
    assert code[a..][..4] == code[a..a + 4];
  }

  /** A near call whose operand is a REL32 site of a relocated and loaded object lands on the symbol,
      and pushes the address behind the site. */
  method CallRelocated(ghost code: seq<byte>, ghost t: Tables, ghost e: Entry, r: Regs, m: Mem)
    returns (r': Regs, m': Mem)
    requires Legal(code, t, e) && Relocated(code, t, e) && e.kind == RELOC_REL32
    requires |code| <= SIZE && Get(m, 0, |code|) == code
    requires r.eip == Site(t, e)
    ensures r'.eip == Target(t, e) && Dword(m', r'.esp) == Wrap(Site(t, e) + 4)
  {
    hide Get, Relocated, Dword, PutDword;
    LoadedSite(code, t, e, m);
    r', m' := CallNear(r, m, true);
  }

  lemma SymbolListed(code: seq<byte>, t: Tables, i: nat)
    requires SitesSeparate(code, t) && i < t.count
    ensures SiteLegal(code, t, i)
    ensures var e := Original(code, t, i);
      forall offset: u32, index: u32, kind: u16 :: Listed(code, t, i, offset, index, kind) ==>
        Site(t, e) == Wrap(t.codeData + offset) && SymbolAt(t, index, Target(t, e))
  {
    hide Listed, EntryAt, Wrap;
    assert SiteLegal(code, t, i);
    forall offset: u32, index: u32, kind: u16 | Listed(code, t, i, offset, index, kind)
      ensures Original(code, t, i) == Entry(offset, index, kind)
    {
      ListedEntry(code, t, i, offset, index, kind);
    }
  }

  /** Patch an object whose sites are separate, load it at address 0 and execute the near call at any of
      its REL32 sites: when patching succeeds the call lands on the symbol of that entry. */
  method PatchLoadCall(code: array<byte>, t: Tables, i: nat, r: Regs, m: Mem)
    returns (ok: bool, r': Regs, m': Mem)
    requires SitesSeparate(code[..], t) && code.Length <= SIZE
    requires i < t.count && Original(code[..], t, i).kind == RELOC_REL32
    requires r.eip == Site(t, Original(code[..], t, i))
    modifies code
    ensures ok <==> forall k: nat :: k < t.count ==> Known(Original(old(code[..]), t, k))
    ensures ok ==>
      && SiteLegal(old(code[..]), t, i) && r'.eip == Target(t, Original(old(code[..]), t, i))
      && Dword(m', r'.esp) == Wrap(r.eip + 4)
    ensures ok ==> forall offset: u32, index: u32, kind: u16 ::
      Listed(old(code[..]), t, i, offset, index, kind) ==>
        r.eip == Wrap(t.codeData + offset) && SymbolAt(t, index, r'.eip)
  {
    hide Get, Put, Runs, PatchFrom, Known, Target, Relocated, Site, EntryAt, Dword, Listed, SymbolAt;
    ghost var before := code[..];
    PatchedObject(before, t);
    ok := PatchAddressTargets(code, t);
    r', m' := r, m;
    if ok {
      m' := Put(m, 0, code[..]);
      GetPutSame(m, 0, code[..]);
      assert SiteLegal(before, t, i);
      SymbolListed(before, t, i);
      r', m' := CallRelocated(code[..], t, Original(before, t, i), r, m');
    }
  }
}
