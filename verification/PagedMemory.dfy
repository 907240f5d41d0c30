/** mem.c: the two-level, lazily built page table with per-byte attributes. The class below is proved
    to refine a flat sequence of 2^32 cells. */
module PagedMemory {
  import opened Arithmetic
  import opened FlatMemory

  const PERM_R: bv8 := 0x01
  const PERM_W: bv8 := 0x02
  const PERM_X: bv8 := 0x04
  const PERM_VALID: bv8 := 0x08
  const ACC_R: bv8 := 0x10
  const ACC_W: bv8 := 0x20
  const ACC_X: bv8 := 0x40
  const ACC_INVALID: bv8 := 0x80

  const PAGE_SIZE: int := 4096
  const PAGES: int := 0x10_0000

  // ---- the flat memory ------------------------------------------------------------------

  datatype Cell = Cell(attr: bv8, data: byte)

  /** The abstract memory: one cell per address, and the error flag of the current access. */
  datatype Vm = Vm(cells: seq<Cell>, invalid: bool) {
    function Set(a: u32, c: Cell): Vm
      requires |cells| == SIZE
    {
      this.(cells := cells[a := c])
    }
  }

  type Flat = v: Vm | |v.cells| == SIZE ghost witness Vm(seq(SIZE, _ => Cell(0, 0)), false)

  /** A read or fetch of one byte: perm is the permission it needs and acc the mark it leaves. */
  function ReadByte(v: Flat, a: u32, perm: bv8, acc: bv8): (r: (Flat, byte)) {
    var c := v.cells[a];
    if c.attr & perm == 0 then (v.(invalid := true), 0xff)
    else if c.attr & PERM_VALID == 0 then
      (v.Set(a, c.(attr := c.attr | acc | ACC_INVALID)).(invalid := true), c.data)
    else (v.Set(a, c.(attr := c.attr | acc)), c.data)
  }

  function ReadWord(v: Flat, a: u32, perm: bv8, acc: bv8): (r: (Flat, u16)) {
    var (v1, b0) := ReadByte(v, a, perm, acc);
    var (v2, b1) := ReadByte(v1, Wrap(a + 1), perm, acc);
    (v2, b0 as int + 0x100 * b1 as int)
  }

  function ReadDword(v: Flat, a: u32, perm: bv8, acc: bv8): (r: (Flat, u32)) {
    var (v1, w0) := ReadWord(v, a, perm, acc);
    var (v2, w1) := ReadWord(v1, Wrap(a + 2), perm, acc);
    (v2, w0 as int + 0x1_0000 * w1 as int)
  }

  function WriteByte(v: Flat, a: u32, val: byte): (r: Flat) {
    var c := v.cells[a];
    if c.attr & PERM_W == 0 then v.Set(a, c.(attr := c.attr | ACC_INVALID)).(invalid := true)
    else v.Set(a, Cell(c.attr | PERM_VALID | ACC_W, val))
  }

  function WriteWord(v: Flat, a: u32, val: u32): (r: Flat) {
    WriteByte(WriteByte(v, a, val % 0x100), Wrap(a + 1), val / 0x100 % 0x100)
  }

  function WriteDword(v: Flat, a: u32, val: u32): (r: Flat) {
    WriteWord(WriteWord(v, a, val), Wrap(a + 2), val / 0x1_0000)
  }

  /** A cell with marks added to its attribute. */
  function Marked(c: Cell, m: bv8): Cell {
    c.(attr := c.attr | m)
  }

  datatype Kind = R | W | X
  datatype Bits = B8 | B16 | B32 | B8NoPerm
  datatype Access = Access(kind: Kind, bits: Bits, addr: u32, val: u32)

  function Written(v: Flat, a: u32, b: byte): Flat {
    v.Set(a, Marked(v.cells[a], PERM_VALID | ACC_W).(data := b))
  }

  /** One access on the flat memory: the new memory and the value read (or the value passed in). */
  function MemioFlat(v0: Flat, a: Access): (r: (Flat, u32)) {
    var v := v0.(invalid := false);
    match (a.kind, a.bits)
    case (R, B8) => ReadByte(v, a.addr, PERM_R, ACC_R)
    case (R, B16) => ReadWord(v, a.addr, PERM_R, ACC_R)
    case (R, B32) => ReadDword(v, a.addr, PERM_R, ACC_R)
    case (R, B8NoPerm) => (v, v.cells[a.addr].data)
    case (W, B8) => (WriteByte(v, a.addr, a.val % 0x100), a.val)
    case (W, B16) => (WriteWord(v, a.addr, a.val), a.val)
    case (W, B32) => (WriteDword(v, a.addr, a.val), a.val)
    case (W, B8NoPerm) => (Written(v, a.addr, a.val % 0x100), a.val)
    case (X, B8) => ReadByte(v, a.addr, PERM_X, ACC_X)
    case (X, B16) => ReadWord(v, a.addr, PERM_X, ACC_X)
    case (X, B32) => ReadDword(v, a.addr, PERM_X, ACC_X)
    case (X, B8NoPerm) => (v, a.val)
  }

  function RunFlat(v: Flat, run: seq<Access>): Flat
    decreases |run|
  {
    if run == [] then v else RunFlat(MemioFlat(v, run[0]).0, run[1..])
  }

  /** The cells with the attribute of lo .. hi-1 set to perm. */
  function Painted(cells: seq<Cell>, lo: int, hi: int, perm: bv8): (r: seq<Cell>)
    ensures |r| == |cells|
  {
    seq(|cells|, a requires 0 <= a < |cells| => if lo <= a < hi then cells[a].(attr := perm) else cells[a])
  }

  /** What x86emu_set_perm does: after a whole page at address 0 it stops. */
  function SetPermFlat(cells: seq<Cell>, start: u32, end: u32, perm: bv8): seq<Cell> {
    if start == 0 && end >= PAGE_SIZE then Painted(cells, 0, PAGE_SIZE, perm)
    else Painted(cells, start, end as int + 1, perm)
  }

  /** Exactly the addresses start .. end get the attribute, and no data changes; of a range that begins
      with a whole page at address 0 only that page does. */
  ghost predicate SetFrom(cells: seq<Cell>, now: seq<Cell>, start: u32, end: u32, perm: bv8) {
    && |now| == |cells| == SIZE
    && forall a: u32 ::
         if start <= a <= end && (start > 0 || end < 4096 || a < 4096)
         then now[a] == Cell(perm, cells[a].data) else now[a] == cells[a]
  }

  lemma SetPermMeans(cells: seq<Cell>, start: u32, end: u32, perm: bv8)
    requires |cells| == SIZE
    ensures SetFrom(cells, SetPermFlat(cells, start, end, perm), start, end, perm)
  {
  }

  lemma PaintedBackwards(cells: seq<Cell>, lo: int, hi: int, perm: bv8)
    requires hi <= lo
    ensures Painted(cells, lo, hi, perm) == cells
  {
  }

  lemma PaintedOne(cells: seq<Cell>, lo: int, a: int, perm: bv8)
    requires 0 <= lo <= a < |cells|
    ensures var now := Painted(cells, lo, a, perm); now[a := now[a].(attr := perm)] == Painted(cells, lo, a + 1, perm)
  {
  }

  lemma PaintedTwice(cells: seq<Cell>, lo: int, mid: int, hi: int, perm: bv8)
    requires lo <= mid <= hi
    ensures Painted(Painted(cells, lo, mid, perm), mid, hi, perm) == Painted(cells, lo, hi, perm)
  {
  }

  /** The cells with page p taken from src. */
  function WithPage(cells: seq<Cell>, p: int, src: seq<Cell>): (r: seq<Cell>)
    requires |src| == |cells|
    ensures |r| == |cells|
  {
    seq(|cells|, a requires 0 <= a < |cells| => if a / PAGE_SIZE == p then src[a] else cells[a])
  }

  /** The permissions and the initialized mark; the rest of an attribute are access marks. */
  const KEEP: bv8 := PERM_R | PERM_W | PERM_X | PERM_VALID

  /** The access marks of page p removed. */
  function ClearedPage(cells: seq<Cell>, p: int): (r: seq<Cell>)
    ensures |r| == |cells|
  {
    seq(|cells|, a requires 0 <= a < |cells| =>
      if a / PAGE_SIZE == p then cells[a].(attr := cells[a].attr & KEEP) else cells[a])
  }

  /** One page table entry: the attribute and data bytes once the page exists (one allocation in the
      source, two arrays here), and the attribute of its bytes before that. */
  datatype Page = Page(attr: array?<bv8>, data: array?<byte>, defAttr: bv8)

  /** The access marks removed from the pages below n that have arrays. */
  ghost function ClearedBelow(cells: seq<Cell>, entries: seq<Page>, n: int): (r: seq<Cell>)
    ensures |r| == |cells|
  {
    seq(|cells|, a requires 0 <= a < |cells| =>
      var p := a / PAGE_SIZE;
      if p < n && p < |entries| && entries[p].attr != null then cells[a].(attr := cells[a].attr & KEEP) else cells[a])
  }

  /** Data, permissions and the initialized mark stay, and the four access marks of every byte on a page
      with arrays are gone. */
  ghost predicate ResetFrom(cells: seq<Cell>, now: seq<Cell>, entries: seq<Page>) {
    && |now| == |cells| == SIZE && |entries| == PAGES
    && forall a: u32 ::
         && now[a].data == cells[a].data && now[a].attr & 0x0f == cells[a].attr & 0x0f
         && now[a].attr & 0xf0 == if entries[a / 4096].attr != null then 0 else cells[a].attr & 0xf0
  }

  lemma KeepBits(a: bv8)
    ensures (a & KEEP) & 0x0f == a & 0x0f && (a & KEEP) & 0xf0 == 0
  {
  }

  lemma ResetMeans(cells: seq<Cell>, entries: seq<Page>)
    requires |cells| == SIZE && |entries| == PAGES
    ensures ResetFrom(cells, ClearedBelow(cells, entries, PAGES), entries)
  {
    forall a: u32 ensures (cells[a].attr & KEEP) & 0x0f == cells[a].attr & 0x0f && (cells[a].attr & KEEP) & 0xf0 == 0 {
      KeepBits(cells[a].attr);
    }
  }

  lemma ClearedNext(cells: seq<Cell>, entries: seq<Page>, n: nat)
    requires n < |entries|
    ensures ClearedBelow(cells, entries, n + 1)
         == if entries[n].attr != null then ClearedPage(ClearedBelow(cells, entries, n), n)
            else ClearedBelow(cells, entries, n)
  {
  }

  lemma SkipUnbuilt(cells: seq<Cell>, entries: seq<Page>, n: nat, k: nat)
    requires n <= k <= |entries| && forall p | n <= p < k :: entries[p].attr == null
    ensures ClearedBelow(cells, entries, k) == ClearedBelow(cells, entries, n)
  {
  }

  /** A page with arrays, or one whose default attribute carries no access mark. */
  predicate UnmarkedDefault(page: Page) {
    page.attr != null || page.defAttr & 0x0f == page.defAttr
  }

  lemma NothingCleared(cells: seq<Cell>, entries: seq<Page>)
    ensures ClearedBelow(cells, entries, 0) == cells
  {
  }

  predicate Readable(v: Flat, a: u32) {
    v.cells[a].attr & PERM_R != 0 && v.cells[a].attr & PERM_VALID != 0
  }

  predicate Writable(v: Flat, a: u32) {
    v.cells[a].attr & PERM_W != 0
  }

  /** Readable and initialized, tested with one mask. */
  lemma ReadableAndValid(a: bv8)
    ensures a & (PERM_R | PERM_VALID) == (PERM_R | PERM_VALID) <==> a & PERM_R != 0 && a & PERM_VALID != 0
    ensures a & PERM_W == PERM_W <==> a & PERM_W != 0
  {
  }

  /** Both bits at once. */
  lemma ReadableBits(v: Flat, a: u32)
    ensures Readable(v, a) <==> v.cells[a].attr & (PERM_R | PERM_VALID) == PERM_R | PERM_VALID
  {
    ReadableAndValid(v.cells[a].attr);
  }

  lemma WritableBits(v: Flat, a: u32)
    ensures Writable(v, a) <==> v.cells[a].attr & PERM_W == PERM_W
  {
    ReadableAndValid(v.cells[a].attr);
  }

  function MarkRead(v: Flat, a: u32): Flat {
    v.Set(a, Marked(v.cells[a], ACC_R))
  }

  lemma ReadWordFast(v: Flat, a: int)
    requires 0 <= a < SIZE - 1 && Readable(v, a) && Readable(v, a + 1)
    ensures ReadWord(v, a, PERM_R, ACC_R) ==
            (MarkRead(MarkRead(v, a), a + 1), v.cells[a].data as int + 0x100 * v.cells[a + 1].data as int)
  {
    assert Wrap(a + 1) == a + 1;
  }

  /** Four readable, initialized bytes are read without a trace but their marks. */
  lemma ReadDwordFast(v: Flat, a: int)
    requires 0 <= a < SIZE - 3
    requires Readable(v, a) && Readable(v, a + 1) && Readable(v, a + 2) && Readable(v, a + 3)
    ensures ReadDword(v, a, PERM_R, ACC_R) ==
            (MarkRead(MarkRead(MarkRead(MarkRead(v, a), a + 1), a + 2), a + 3),
             Val4([v.cells[a].data, v.cells[a + 1].data, v.cells[a + 2].data, v.cells[a + 3].data]))
  {
    hide ReadWord, Marked;
    assert Wrap(a + 2) == a + 2;
    ReadWordFast(v, a);
    ReadWordFast(MarkRead(MarkRead(v, a), a + 1), a + 2);
  }

  lemma MarkWritten(a: bv8)
    ensures a | PERM_VALID | ACC_W == a | (PERM_VALID | ACC_W)
  {
  }

  lemma WriteWordFast(v: Flat, a: int, val: u32)
    requires 0 <= a < SIZE - 1 && Writable(v, a) && Writable(v, a + 1)
    ensures WriteWord(v, a, val) == Written(Written(v, a, val % 0x100), a + 1, val / 0x100 % 0x100)
  {
    assert Wrap(a + 1) == a + 1;
    MarkWritten(v.cells[a].attr);
    MarkWritten(v.cells[a + 1].attr);
  }

  lemma WriteDwordFast(v: Flat, a: int, val: u32)
    requires 0 <= a < SIZE - 3
    requires Writable(v, a) && Writable(v, a + 1) && Writable(v, a + 2) && Writable(v, a + 3)
    ensures var b := LE4(val);
            WriteDword(v, a, val) ==
            Written(Written(Written(Written(v, a, b[0]), a + 1, b[1]), a + 2, b[2]), a + 3, b[3])
  {
    hide WriteWord, Marked;
    assert Wrap(a + 2) == a + 2;
    assert val / 0x1_0000 / 0x100 % 0x100 == LE4(val)[3];
    WriteWordFast(v, a, val);
    WriteWordFast(Written(Written(v, a, val % 0x100), a + 1, val / 0x100 % 0x100), a + 2, val / 0x1_0000);
  }

  // ---- 16- and 32-bit views of attribute bytes ------------------------------------------

  /** A value repeated in both bytes of a 16-bit word, as the PERM16 macro does. */
  function Perm16(a: bv8): bv16 {
    (a as bv16) | ((a as bv16) << 8)
  }

  function Perm32(a: bv8): bv32 {
    (Perm16(a) as bv32) | ((Perm16(a) as bv32) << 16)
  }

  function Join16(lo: bv8, hi: bv8): bv16 {
    (lo as bv16) | ((hi as bv16) << 8)
  }

  function Join32(b0: bv8, b1: bv8, b2: bv8, b3: bv8): bv32 {
    (b0 as bv32) | ((b1 as bv32) << 8) | ((b2 as bv32) << 16) | ((b3 as bv32) << 24)
  }

  lemma MarksKeepValid(a: bv8)
    ensures (a | ACC_R) & PERM_VALID == a & PERM_VALID
    ensures (a | ACC_X) & PERM_VALID == a & PERM_VALID
  {
  }

  /** An address that does not reach the last byte of the page, and the next one. */
  lemma SamePage2(addr: u32)
    requires addr % PAGE_SIZE < PAGE_SIZE - 1
    ensures addr + 1 < SIZE
    ensures (addr + 1) / PAGE_SIZE == addr / PAGE_SIZE && (addr + 1) % PAGE_SIZE == addr % PAGE_SIZE + 1
  {
  }

  /** Addresses that do not reach the end of the page stay on it. */
  lemma SamePage(addr: u32)
    requires addr % PAGE_SIZE < PAGE_SIZE - 3
    ensures addr + 3 < SIZE
    ensures (addr + 1) / PAGE_SIZE == (addr + 2) / PAGE_SIZE == (addr + 3) / PAGE_SIZE == addr / PAGE_SIZE
    ensures (addr + 1) % PAGE_SIZE == addr % PAGE_SIZE + 1
    ensures (addr + 2) % PAGE_SIZE == addr % PAGE_SIZE + 2
    ensures (addr + 3) % PAGE_SIZE == addr % PAGE_SIZE + 3
  {
  }

  function Byte0(w: bv32): bv8 { (w & 0xff) as bv8 }

  function Byte1(w: bv32): bv8 { ((w >> 8) & 0xff) as bv8 }

  function Byte2(w: bv32): bv8 { ((w >> 16) & 0xff) as bv8 }

  function Byte3(w: bv32): bv8 { ((w >> 24) & 0xff) as bv8 }

  /** One 16-bit test covers both bytes, and one 16-bit or marks both. */
  lemma WideTest16(lo: bv8, hi: bv8, m: bv8)
    ensures Join16(lo, hi) & Perm16(m) == Perm16(m) <==> lo & m == m && hi & m == m
  {
    assert Join16(lo, hi) & Perm16(m) == Join16(lo & m, hi & m);
    assert Join16(lo & m, hi & m) == Join16(m, m) <==> lo & m == m && hi & m == m;
  }

  lemma WideOr16(lo: bv8, hi: bv8, m: bv8)
    ensures var w := (Join16(lo, hi) | Perm16(m)) as bv32; Byte0(w) == lo | m && Byte1(w) == hi | m
  {
  }

  /** All bits of m are set in all four bytes, as one 32-bit test. */
  predicate AllSet32(b0: bv8, b1: bv8, b2: bv8, b3: bv8, m: bv8) {
    Join32(b0, b1, b2, b3) & Perm32(m) == Perm32(m)
  }

  lemma WideTest32(b0: bv8, b1: bv8, b2: bv8, b3: bv8, m: bv8)
    ensures AllSet32(b0, b1, b2, b3, m) <==>
            b0 & m == m && b1 & m == m && b2 & m == m && b3 & m == m
  {
    assert Join32(b0, b1, b2, b3) & Perm32(m) == Join32(b0 & m, b1 & m, b2 & m, b3 & m);
  }

  /** The wide tests on the attributes of four cells. */
  lemma FourReadable(v: Flat, a: u32, b0: bv8, b1: bv8, b2: bv8, b3: bv8)
    requires a + 3 < SIZE && v.cells[a].attr == b0 && v.cells[a + 1].attr == b1
    requires v.cells[a + 2].attr == b2 && v.cells[a + 3].attr == b3
    ensures AllSet32(b0, b1, b2, b3, PERM_R | PERM_VALID)
       <==> Readable(v, a) && Readable(v, a + 1) && Readable(v, a + 2) && Readable(v, a + 3)
  {
    hide AllSet32, Readable;
    WideTest32(b0, b1, b2, b3, PERM_R | PERM_VALID);
    ReadableBits(v, a); ReadableBits(v, a + 1); ReadableBits(v, a + 2); ReadableBits(v, a + 3);
  }

  lemma FourWritable(v: Flat, a: u32, b0: bv8, b1: bv8, b2: bv8, b3: bv8)
    requires a + 3 < SIZE && v.cells[a].attr == b0 && v.cells[a + 1].attr == b1
    requires v.cells[a + 2].attr == b2 && v.cells[a + 3].attr == b3
    ensures AllSet32(b0, b1, b2, b3, PERM_W)
       <==> Writable(v, a) && Writable(v, a + 1) && Writable(v, a + 2) && Writable(v, a + 3)
  {
    hide AllSet32, Writable;
    WideTest32(b0, b1, b2, b3, PERM_W);
    WritableBits(v, a); WritableBits(v, a + 1); WritableBits(v, a + 2); WritableBits(v, a + 3);
  }

  lemma WideOr32Byte0(b0: bv8, b1: bv8, b2: bv8, b3: bv8, m: bv8)
    ensures var w := Join32(b0, b1, b2, b3) | Perm32(m); Byte0(w) == b0 | m
  {
  }

  lemma WideOr32Byte1(b0: bv8, b1: bv8, b2: bv8, b3: bv8, m: bv8)
    ensures var w := Join32(b0, b1, b2, b3) | Perm32(m); Byte1(w) == b1 | m
  {
  }

  lemma WideOr32Byte2(b0: bv8, b1: bv8, b2: bv8, b3: bv8, m: bv8)
    ensures var w := Join32(b0, b1, b2, b3) | Perm32(m); Byte2(w) == b2 | m
  {
  }

  lemma WideOr32Byte3(b0: bv8, b1: bv8, b2: bv8, b3: bv8, m: bv8)
    ensures var w := Join32(b0, b1, b2, b3) | Perm32(m); Byte3(w) == b3 | m
  {
  }

  lemma WideOr32(b0: bv8, b1: bv8, b2: bv8, b3: bv8, m: bv8)
    ensures var w := Join32(b0, b1, b2, b3) | Perm32(m);
            Byte0(w) == b0 | m && Byte1(w) == b1 | m && Byte2(w) == b2 | m && Byte3(w) == b3 | m
  {
    hide *;
    WideOr32Byte0(b0, b1, b2, b3, m);
    WideOr32Byte1(b0, b1, b2, b3, m);
    WideOr32Byte2(b0, b1, b2, b3, m);
    WideOr32Byte3(b0, b1, b2, b3, m);
  }

  /** The bytes of a 32-bit word of attributes after one 32-bit or. */
  method OrMarks32(b0: bv8, b1: bv8, b2: bv8, b3: bv8, m: bv8) returns (m0: bv8, m1: bv8, m2: bv8, m3: bv8)
    ensures m0 == b0 | m && m1 == b1 | m && m2 == b2 | m && m3 == b3 | m
  {
    hide *;
    WideOr32(b0, b1, b2, b3, m);
    var marked := Join32(b0, b1, b2, b3) | Perm32(m);
    return Byte0(marked), Byte1(marked), Byte2(marked), Byte3(marked);
  }

  // ---- what an access does to the cells --------------------------------------------------

  /** A read or fetch of this byte raises the error flag. */
  predicate BadRead(c: Cell, perm: bv8) {
    c.attr & perm == 0 || c.attr & PERM_VALID == 0
  }

  /** The data bytes, as the flat memory the rest of the model works on. */
  function Data(v: Flat): (m: Mem) {
    seq(SIZE, a requires 0 <= a < SIZE => v.cells[a].data)
  }

  /** Some, or every, byte of the dword at a. */
  ghost predicate SomeOf4(a: u32, p: u32 -> bool) {
    p(a) || p(Wrap(a + 1)) || p(Wrap(a + 2)) || p(Wrap(a + 3))
  }

  ghost predicate AllOf4(a: u32, p: u32 -> bool) {
    p(a) && p(Wrap(a + 1)) && p(Wrap(a + 2)) && p(Wrap(a + 3))
  }

  lemma DwordBytes(m: Mem, a: u32)
    ensures Dword(m, a) == Val4([m[a], m[Wrap(a + 1)], m[Wrap(a + 2)], m[Wrap(a + 3)]])
  {
    assert Get(m, a, 4) == [m[a], m[Wrap(a + 1)], m[Wrap(a + 2)], m[Wrap(a + 3)]];
  }

  predicate BadReadAt(v: Flat, a: u32, k: nat, perm: bv8) {
    BadRead(v.cells[Wrap(a + k)], perm)
  }

  predicate BadWriteAt(v: Flat, a: u32, k: nat) {
    v.cells[Wrap(a + k)].attr & PERM_W == 0
  }

  /** A cell after a read or fetch that needs perm and leaves acc: without the permission it is left
      alone, otherwise it is marked, also as invalid when it has never been initialized. */
  function Looked(c: Cell, perm: bv8, acc: bv8): Cell {
    if c.attr & perm == 0 then c
    else if c.attr & PERM_VALID == 0 then c.(attr := c.attr | acc | ACC_INVALID)
    else c.(attr := c.attr | acc)
  }

  /** A cell after a store: without write permission only the mark of an invalid access is left. */
  function Stored(c: Cell, b: byte): Cell {
    if c.attr & PERM_W == 0 then c.(attr := c.attr | ACC_INVALID) else Cell(c.attr | PERM_VALID | ACC_W, b)
  }

  /** w is v after a read of the n bytes from a on. */
  ghost predicate ReadOf(v: Flat, w: Flat, a: u32, n: nat, perm: bv8, acc: bv8) {
    && (w.invalid <==> v.invalid || exists k: nat :: k < n && BadReadAt(v, a, k, perm))
    && forall x: u32 :: w.cells[x] == if In(x, a, n) then Looked(v.cells[x], perm, acc) else v.cells[x]
  }

  /** w is v after a store of the bytes b from a on. */
  ghost predicate StoreOf(v: Flat, w: Flat, a: u32, b: seq<byte>) {
    && (w.invalid <==> v.invalid || exists k: nat :: k < |b| && BadWriteAt(v, a, k))
    && forall x: u32 :: w.cells[x] == if In(x, a, |b|) then Stored(v.cells[x], b[Wrap(x - a)]) else v.cells[x]
  }

  /** What a read sees of a cell: 0xff without permission. */
  function ShownByte(c: Cell, perm: bv8): byte {
    if c.attr & perm == 0 then 0xff else c.data
  }

  /** The n bytes a read from a on sees. */
  function Shown(v: Flat, a: u32, n: nat, perm: bv8): (b: seq<byte>)
    ensures |b| == n
  {
    seq<byte>(n, k requires 0 <= k < n => ShownByte(v.cells[Wrap(a + k)], perm))
  }

  predicate PermittedAt(v: Flat, a: u32, k: nat, perm: bv8) {
    v.cells[Wrap(a + k)].attr & perm != 0
  }

  lemma ShownData(v: Flat, a: u32, n: nat, perm: bv8)
    requires forall k: nat :: k < n ==> PermittedAt(v, a, k, perm)
    ensures Shown(v, a, n, perm) == Get(Data(v), a, n)
  {
    hide Wrap;
    forall k: nat | k < n ensures Shown(v, a, n, perm)[k] == Get(Data(v), a, n)[k] {
      assert PermittedAt(v, a, k, perm);
      var c := v.cells[Wrap(a + k)];
      assert Shown(v, a, n, perm)[k] == ShownByte(c, perm);
      assert Get(Data(v), a, n)[k] == Data(v)[Wrap(a + k)];
      assert Data(v)[Wrap(a + k)] == c.data;
    }
  }

  /** The address behind n bytes, as the (n+1)-st. */
  lemma InNext(x: u32, a: u32, n: nat)
    requires n < SIZE
    ensures In(x, a, n + 1) <==> In(x, a, n) || x == Wrap(a + n)
    ensures Wrap(Wrap(a + n) - a) == n && !In(Wrap(a + n), a, n)
  {
    WrapShift(a, n);
    if Wrap(x - a) == n {
      WrapAgain(x - a, a);
      assert Wrap(Wrap(x - a) + a) == Wrap(x) == x;
    }
  }

  lemma WrapZero(a: u32)
    ensures Wrap(a + 0) == a
  {
  }

  /** n byte reads in a row. */
  function ReadMany(v: Flat, a: u32, n: nat, perm: bv8, acc: bv8): (r: (Flat, seq<byte>))
    ensures |r.1| == n
  {
    if n == 0 then (v, [])
    else
      var (v1, b1) := ReadMany(v, a, n - 1, perm, acc);
      var (v2, b2) := ReadByte(v1, Wrap(a + (n - 1)), perm, acc);
      (v2, b1 + [b2])
  }

  function WriteMany(v: Flat, a: u32, b: seq<byte>): Flat {
    if b == [] then v
    else WriteByte(WriteMany(v, a, b[..|b| - 1]), Wrap(a + (|b| - 1)), b[|b| - 1])
  }

  lemma NoneIn(a: u32)
    ensures forall x: u32 :: !In(x, a, 0)
  {
  }

  lemma ShownNone(v: Flat, a: u32, perm: bv8)
    ensures Shown(v, a, 0, perm) == []
  {
  }

  /** One byte access, in these terms. */
  lemma OneRead(v: Flat, y: u32, perm: bv8, acc: bv8)
    ensures var (w, b) := ReadByte(v, y, perm, acc); var c := v.cells[y];
      && (w.invalid <==> v.invalid || BadRead(c, perm))
      && w.cells == v.cells[y := Looked(c, perm, acc)]
      && b == ShownByte(c, perm)
  {
    hide Wrap;
    var c := v.cells[y];
    if c.attr & perm == 0 {
      assert v.cells[y := c] == v.cells;
    }
  }

  lemma ShownNext(v: Flat, a: u32, n: nat, perm: bv8)
    ensures Shown(v, a, n + 1, perm) == Shown(v, a, n, perm) + [ShownByte(v.cells[Wrap(a + n)], perm)]
  {
  }

  /** A read of n bytes and one of the byte behind them are a read of n + 1 bytes. */
  lemma ReadNext(v: Flat, v1: Flat, w: Flat, a: u32, n: nat, perm: bv8, acc: bv8)
    requires n + 1 < SIZE && ReadOf(v, v1, a, n, perm, acc)
    requires var y := Wrap(a + n);
      && (w.invalid <==> v1.invalid || BadRead(v1.cells[y], perm))
      && w.cells == v1.cells[y := Looked(v1.cells[y], perm, acc)]
    ensures ReadOf(v, w, a, n + 1, perm, acc)
  {
    hide In, Looked, BadRead, Wrap;
    var y := Wrap(a + n);
    InNext(y, a, n);
    forall x: u32 ensures w.cells[x] == if In(x, a, n + 1) then Looked(v.cells[x], perm, acc) else v.cells[x] {
      InNext(x, a, n);
    }
    assert BadReadAt(v, a, n, perm) == BadRead(v.cells[y], perm);
  }

  lemma {:induction false} ReadManyMeans(v: Flat, a: u32, n: nat, perm: bv8, acc: bv8)
    requires n < SIZE
    ensures var (w, b) := ReadMany(v, a, n, perm, acc); ReadOf(v, w, a, n, perm, acc) && b == Shown(v, a, n, perm)
  {
    hide In, ReadByte, Shown, Looked;
    if n == 0 {
      NoneIn(a);
      ShownNone(v, a, perm);
    } else {
      ReadManyMeans(v, a, n - 1, perm, acc);
      var (v1, b1) := ReadMany(v, a, n - 1, perm, acc);
      var w := ReadMany(v, a, n, perm, acc).0;
      var y := Wrap(a + (n - 1));
      InNext(y, a, n - 1);
      OneRead(v1, y, perm, acc);
      ShownNext(v, a, n - 1, perm);
      ReadNext(v, v1, w, a, n - 1, perm, acc);
    }
  }

  lemma OneWrite(v: Flat, y: u32, b: byte)
    ensures var w := WriteByte(v, y, b); var c := v.cells[y];
      (w.invalid <==> v.invalid || c.attr & PERM_W == 0) && w.cells == v.cells[y := Stored(c, b)]
  {
  }

  lemma InMeans(x: u32, a: u32, n: nat)
    ensures In(x, a, n) <==> Wrap(x - a) < n
  {
  }

  lemma StoreNext(v: Flat, v1: Flat, w: Flat, a: u32, b: seq<byte>, c: byte)
    requires |b| + 1 < SIZE && StoreOf(v, v1, a, b)
    requires var y := Wrap(a + |b|);
      && (w.invalid <==> v1.invalid || v1.cells[y].attr & PERM_W == 0)
      && w.cells == v1.cells[y := Stored(v1.cells[y], c)]
    ensures StoreOf(v, w, a, b + [c])
  {
    hide In, Stored, Wrap;
    var y, b' := Wrap(a + |b|), b + [c];
    InNext(y, a, |b|);
    forall x: u32
      ensures Wrap(x - a) < |b'| ==> w.cells[x] == Stored(v.cells[x], b'[Wrap(x - a)])
      ensures Wrap(x - a) >= |b'| ==> w.cells[x] == v.cells[x]
    {
      InNext(x, a, |b|);
      InMeans(x, a, |b|);
      InMeans(x, a, |b'|);
      if x != y && Wrap(x - a) < |b'| {
        assert b'[Wrap(x - a)] == b[Wrap(x - a)];
      }
    }
    forall x: u32 ensures In(x, a, |b'|) <==> Wrap(x - a) < |b'| {
      InMeans(x, a, |b'|);
    }
    assert BadWriteAt(v, a, |b|) == (v.cells[y].attr & PERM_W == 0);
  }

  lemma {:induction false} WriteManyMeans(v: Flat, a: u32, b: seq<byte>)
    requires |b| < SIZE
    ensures StoreOf(v, WriteMany(v, a, b), a, b)
    decreases |b|
  {
    hide In, WriteByte, Stored;
    if b == [] {
      NoneIn(a);
    } else {
      var n := |b| - 1;
      WriteManyMeans(v, a, b[..n]);
      var v1 := WriteMany(v, a, b[..n]);
      OneWrite(v1, Wrap(a + n), b[n]);
      assert b == b[..n] + [b[n]];
      StoreNext(v, v1, WriteMany(v, a, b), a, b[..n], b[n]);
    }
  }

  lemma ReadByteMeans(v: Flat, a: u32, perm: bv8, acc: bv8)
    ensures var (w, b) := ReadByte(v, a, perm, acc); ReadOf(v, w, a, 1, perm, acc) && [b] == Shown(v, a, 1, perm)
  {
    hide ReadByte, ReadOf, Shown;
    assert Wrap(a + 0) == a;
    assert ReadMany(v, a, 0, perm, acc) == (v, []);
    ReadManyMeans(v, a, 1, perm, acc);
  }

  lemma ReadWordMeans(v: Flat, a: u32, perm: bv8, acc: bv8)
    ensures var (w, b) := ReadWord(v, a, perm, acc);
      ReadOf(v, w, a, 2, perm, acc) && b == Val2(Shown(v, a, 2, perm))
  {
    hide ReadByte, ReadOf, Shown;
    assert Wrap(a + 0) == a;
    assert ReadMany(v, a, 0, perm, acc) == (v, []);
    var one := ReadMany(v, a, 1, perm, acc);
    ReadManyMeans(v, a, 2, perm, acc);
  }

  lemma BytesMakeDword(v: Flat, a: u32, perm: bv8, acc: bv8)
    ensures var (v1, b0) := ReadByte(v, a, perm, acc);
            var (v2, b1) := ReadByte(v1, Wrap(a + 1), perm, acc);
            var (v3, b2) := ReadByte(v2, Wrap(a + 2), perm, acc);
            var (v4, b3) := ReadByte(v3, Wrap(a + 3), perm, acc);
            ReadDword(v, a, perm, acc) == (v4, Val4([b0, b1, b2, b3]))
  {
    assert Wrap(Wrap(a + 2) + 1) == Wrap(a + 3);
  }

  lemma ReadDwordMeans(v: Flat, a: u32, perm: bv8, acc: bv8)
    ensures var (w, b) := ReadDword(v, a, perm, acc);
      ReadOf(v, w, a, 4, perm, acc) && b == Val4(Shown(v, a, 4, perm))
  {
    hide ReadByte, ReadDword, ReadOf, Shown;
    BytesMakeDword(v, a, perm, acc);
    assert Wrap(a + 0) == a;
    assert ReadMany(v, a, 0, perm, acc) == (v, []);
    var one, two, three := ReadMany(v, a, 1, perm, acc), ReadMany(v, a, 2, perm, acc), ReadMany(v, a, 3, perm, acc);
    ReadManyMeans(v, a, 4, perm, acc);
  }

  lemma WriteByteMeans(v: Flat, a: u32, b: byte)
    ensures StoreOf(v, WriteByte(v, a, b), a, [b])
  {
    hide WriteByte, StoreOf;
    assert Wrap(a + 0) == a && [b][..0] == [];
    WriteManyMeans(v, a, [b]);
  }

  lemma LowWord(val: u32)
    ensures LE2(val % 0x1_0000) == [val % 0x100, val / 0x100 % 0x100]
  {
    var q, r := val / 0x1_0000, val % 0x1_0000;
    var a, b := r / 0x100, r % 0x100;
    DivModUnique(val, 0x100, q * 0x100 + a, b);
    DivModUnique(q * 0x100 + a, 0x100, q, a);
  }

  lemma WriteWordMeans(v: Flat, a: u32, val: u32)
    ensures StoreOf(v, WriteWord(v, a, val), a, LE2(val % 0x1_0000))
  {
    hide WriteByte, StoreOf, Wrap, LE2;
    var b := LE2(val % 0x1_0000);
    LowWord(val);
    WrapZero(a);
    assert b[..1][..0] == [];
    assert WriteMany(v, a, b[..1]) == WriteByte(WriteMany(v, a, b[..1][..0]), Wrap(a + 0), b[..1][0]);
    WriteManyMeans(v, a, b);
  }

  /** The upper two bytes, as the upper word gives them. */
  lemma HighBytes(val: u32)
    ensures val / 0x1_0000 % 0x100 == LE4(val)[2] && val / 0x1_0000 / 0x100 % 0x100 == LE4(val)[3]
  {
    var y, r := val / 0x100_0000, val % 0x100_0000;
    DivModUnique(val, 0x1_0000, y * 0x100 + r / 0x1_0000, r % 0x1_0000);
    DivModUnique(val / 0x1_0000, 0x100, y, r / 0x1_0000);
  }

  lemma DwordIsBytes(v: Flat, a: u32, val: u32)
    ensures var b := LE4(val);
            WriteDword(v, a, val) ==
            WriteByte(
              WriteByte(WriteByte(WriteByte(v, a, b[0]), Wrap(a + 1), b[1]), Wrap(a + 2), b[2]), Wrap(a + 3), b[3])
  {
    hide WriteByte, Wrap;
    WrapAgain(a + 2, 1);
    HighBytes(val);
  }

  lemma WriteDwordMeans(v: Flat, a: u32, val: u32)
    ensures StoreOf(v, WriteDword(v, a, val), a, LE4(val))
  {
    hide WriteByte, WriteDword, StoreOf, LE4;
    DwordIsBytes(v, a, val);
    var b := LE4(val);
    assert Wrap(a + 0) == a && b[..1][..0] == [] && b[..2][..1] == b[..1] && b[..3][..2] == b[..2];
    assert WriteMany(v, a, b[..1]) == WriteByte(v, a, b[0]);
    assert WriteMany(v, a, b[..2]) == WriteByte(WriteMany(v, a, b[..1]), Wrap(a + 1), b[1]);
    assert WriteMany(v, a, b[..3]) == WriteByte(WriteMany(v, a, b[..2]), Wrap(a + 2), b[2]);
    WriteManyMeans(v, a, b);
  }

  /** What an access of each kind and width is to do to the memory v, starting with the error flag
      down, and the value it is to give. */
  ghost predicate Performed(v: Flat, w: Flat, kind: Kind, bits: Bits, a: u32, val0: u32, val: u32) {
    match (kind, bits)
    case (R, B8) => ReadOf(v, w, a, 1, PERM_R, ACC_R) && [val] == Shown(v, a, 1, PERM_R)
    case (R, B16) => ReadOf(v, w, a, 2, PERM_R, ACC_R) && val == Val2(Shown(v, a, 2, PERM_R))
    case (R, B32) => ReadOf(v, w, a, 4, PERM_R, ACC_R) && val == Val4(Shown(v, a, 4, PERM_R))
    case (R, B8NoPerm) => w == v && val == v.cells[a].data
    case (X, B8) => ReadOf(v, w, a, 1, PERM_X, ACC_X) && [val] == Shown(v, a, 1, PERM_X)
    case (X, B16) => ReadOf(v, w, a, 2, PERM_X, ACC_X) && val == Val2(Shown(v, a, 2, PERM_X))
    case (X, B32) => ReadOf(v, w, a, 4, PERM_X, ACC_X) && val == Val4(Shown(v, a, 4, PERM_X))
    case (X, B8NoPerm) => w == v && val == val0
    case (W, B8) => StoreOf(v, w, a, [val0 % 0x100]) && val == val0
    case (W, B16) => StoreOf(v, w, a, LE2(val0 % 0x1_0000)) && val == val0
    case (W, B32) => StoreOf(v, w, a, LE4(val0)) && val == val0
    case (W, B8NoPerm) =>
      && val == val0 && w.invalid == v.invalid
      && w.cells == v.cells[a := Cell(v.cells[a].attr | PERM_VALID | ACC_W, val0 % 0x100)]
  }

  lemma MemioPerforms(v0: Flat, a: Access)
    ensures var (w, val) := MemioFlat(v0, a); Performed(v0.(invalid := false), w, a.kind, a.bits, a.addr, a.val, val)
  {
    hide ReadByte, ReadWord, ReadDword, WriteByte, WriteWord, WriteDword, ReadOf, StoreOf, Shown, LE2, LE4, Val2, Val4;
    var v := v0.(invalid := false);
    match (a.kind, a.bits) {
      case (R, B8) => ReadByteMeans(v, a.addr, PERM_R, ACC_R);
      case (R, B16) => ReadWordMeans(v, a.addr, PERM_R, ACC_R);
      case (R, B32) => ReadDwordMeans(v, a.addr, PERM_R, ACC_R);
      case (R, B8NoPerm) =>
      case (X, B8) => ReadByteMeans(v, a.addr, PERM_X, ACC_X);
      case (X, B16) => ReadWordMeans(v, a.addr, PERM_X, ACC_X);
      case (X, B32) => ReadDwordMeans(v, a.addr, PERM_X, ACC_X);
      case (X, B8NoPerm) =>
      case (W, B8) => WriteByteMeans(v, a.addr, a.val % 0x100);
      case (W, B16) => WriteWordMeans(v, a.addr, a.val);
      case (W, B32) => WriteDwordMeans(v, a.addr, a.val);
      case (W, B8NoPerm) => MarkWritten(v.cells[a.addr].attr);
    }
  }

  lemma LookedData(v: Flat, w: Flat, a: u32, n: nat, perm: bv8, acc: bv8)
    requires ReadOf(v, w, a, n, perm, acc)
    ensures Data(w) == Data(v)
  {
    hide In;
    forall x: int | 0 <= x < SIZE ensures Data(w)[x] == Data(v)[x] {
    }
  }

  lemma SomeBadRead(v: Flat, a: u32, perm: bv8)
    ensures (exists k: nat :: k < 4 && BadReadAt(v, a, k, perm)) <==> SomeOf4(a, (x: u32) => BadRead(v.cells[x], perm))
  {
    hide BadRead, Wrap;
    WrapZero(a);
    assert BadReadAt(v, a, 0, perm) == BadRead(v.cells[a], perm);
    assert BadReadAt(v, a, 1, perm) == BadRead(v.cells[Wrap(a + 1)], perm);
    assert BadReadAt(v, a, 2, perm) == BadRead(v.cells[Wrap(a + 2)], perm);
    assert BadReadAt(v, a, 3, perm) == BadRead(v.cells[Wrap(a + 3)], perm);
  }

  lemma ShownDword(v: Flat, a: u32, perm: bv8)
    requires AllOf4(a, (x: u32) => v.cells[x].attr & perm != 0)
    ensures Val4(Shown(v, a, 4, perm)) == Dword(Data(v), a)
  {
    hide Get, Val4, Shown, Wrap, Data;
    WrapZero(a);
    assert PermittedAt(v, a, 0, perm) && PermittedAt(v, a, 1, perm) && PermittedAt(v, a, 2, perm);
    assert PermittedAt(v, a, 3, perm);
    ShownData(v, a, 4, perm);
  }

  /** The error flag and the value of a 32-bit read or fetch, and the data after a 32-bit store. */
  lemma ReadResult(v: Flat, w: Flat, a: u32, perm: bv8, acc: bv8)
    requires ReadOf(v, w, a, 4, perm, acc) && !v.invalid
    ensures w.invalid <==> SomeOf4(a, (x: u32) => BadRead(v.cells[x], perm))
    ensures Data(w) == Data(v)
    ensures AllOf4(a, (x: u32) => v.cells[x].attr & perm != 0) ==> Val4(Shown(v, a, 4, perm)) == Dword(Data(v), a)
  {
    hide SomeOf4, AllOf4, Shown, Val4, Dword, Data, In, Looked, BadReadAt;
    SomeBadRead(v, a, perm);
    LookedData(v, w, a, 4, perm, acc);
    if AllOf4(a, (x: u32) => v.cells[x].attr & perm != 0) {
      ShownDword(v, a, perm);
    }
  }

  lemma StoreAt(a: u32, x: u32)
    ensures Wrap(a + Wrap(x - a)) == x
  {
    WrapAgain(x - a, a);
  }

  lemma StoreResult(v: Flat, w: Flat, a: u32, b: seq<byte>)
    requires StoreOf(v, w, a, b) && !v.invalid && |b| <= SIZE
    ensures w.invalid <==> exists k: nat :: k < |b| && BadWriteAt(v, a, k)
    ensures !w.invalid ==> Data(w) == Put(Data(v), a, b)
  {
    hide Wrap;
    if !w.invalid {
      forall x: int | 0 <= x < SIZE ensures Data(w)[x] == Put(Data(v), a, b)[x] {
        if In(x, a, |b|) {
          StoreAt(a, x);
          assert !BadWriteAt(v, a, Wrap(x - a));
        }
      }
    }
  }

  lemma StoreDwordResult(v: Flat, w: Flat, a: u32, val: u32)
    requires StoreOf(v, w, a, LE4(val)) && !v.invalid
    ensures w.invalid <==> SomeOf4(a, (x: u32) => v.cells[x].attr & PERM_W == 0)
    ensures !w.invalid ==> Data(w) == PutDword(Data(v), a, val)
  {
    hide Put, LE4, In, Wrap, Stored;
    WrapZero(a);
    StoreResult(v, w, a, LE4(val));
    assert BadWriteAt(v, a, 0) == (v.cells[a].attr & PERM_W == 0);
    assert BadWriteAt(v, a, 1) == (v.cells[Wrap(a + 1)].attr & PERM_W == 0);
    assert BadWriteAt(v, a, 2) == (v.cells[Wrap(a + 2)].attr & PERM_W == 0);
    assert BadWriteAt(v, a, 3) == (v.cells[Wrap(a + 3)].attr & PERM_W == 0);
  }

  /** The 32-bit accesses on the data bytes: a read or fetch fails exactly when one of its four bytes
      lacks the permission or was never initialized, and with the permission on all four it gives the
      dword in memory; a store fails exactly when one of the bytes is not writable, and otherwise the
      dword is in memory. */
  ghost predicate DwordResult(v: Flat, w: Flat, kind: Kind, bits: Bits, a: u32, val0: u32, val: u32, err: bool) {
    && (kind.R? && bits.B32? ==>
          && (err <==> SomeOf4(a, (x: u32) => BadRead(v.cells[x], PERM_R))) && Data(w) == Data(v)
          && (AllOf4(a, (x: u32) => v.cells[x].attr & PERM_R != 0) ==> val == Dword(Data(v), a)))
    && (kind.X? && bits.B32? ==>
          && (err <==> SomeOf4(a, (x: u32) => BadRead(v.cells[x], PERM_X))) && Data(w) == Data(v)
          && (AllOf4(a, (x: u32) => v.cells[x].attr & PERM_X != 0) ==> val == Dword(Data(v), a)))
    && (kind.W? && bits.B32? ==>
          && (err <==> SomeOf4(a, (x: u32) => v.cells[x].attr & PERM_W == 0))
          && (!err ==> Data(w) == PutDword(Data(v), a, val0)))
  }

  lemma Performs32(v: Flat, w: Flat, kind: Kind, bits: Bits, a: u32, val0: u32, val: u32)
    requires Performed(v.(invalid := false), w, kind, bits, a, val0, val)
    ensures DwordResult(v, w, kind, bits, a, val0, val, w.invalid)
  {
    hide ReadOf, StoreOf, BadRead, Dword, Put, Shown, Val4, LE4, Wrap;
    var v0 := v.(invalid := false);
    if kind.R? && bits.B32? { ReadResult(v0, w, a, PERM_R, ACC_R); }
    if kind.X? && bits.B32? { ReadResult(v0, w, a, PERM_X, ACC_X); }
    if kind.W? && bits.B32? { StoreDwordResult(v0, w, a, val0); }
    assert Data(v0) == Data(v);
  }

  // ---- the page table -------------------------------------------------------------------

  class Memory {
    var pdir: array?<array?<Page>>
    var invalid: bool
    var defAttr: bv8

    ghost var cells: seq<Cell>
    /** The page table read as one sequence; a missing table stands for entries with the default attribute. */
    ghost var entries: seq<Page>
    /** The directory and its tables; the attribute arrays; the data arrays. */
    ghost var tables: set<object>
    ghost var attrs: set<object>
    ghost var datas: set<object>
    /** Which directory slot a table, and which page an attribute or data array, belongs to. */
    ghost var tableOf: map<array<Page>, int>
    ghost var attrOf: map<array<bv8>, int>
    ghost var dataOf: map<array<byte>, int>

    ghost function Repr(): set<object>
      reads this
    {
      {this} + tables + attrs + datas
    }

    ghost predicate TableOk(t: array?<Page>, d: int)
      reads this`tables, this`tableOf
    {
      t != null ==> t in tables && t.Length == 1024 && t in tableOf && tableOf[t] == d
    }

    /** The directory and its tables are well-formed. */
    ghost predicate DirOk()
      reads this`pdir, this`tables, this`tableOf, tables
    {
      pdir != null ==>
        pdir in tables && pdir.Length == 1024 && forall d | 0 <= d < 1024 :: TableOk(pdir[d], d)
    }

    ghost function Entry(p: int): Page
      reads this`pdir, this`tables, this`tableOf, this`defAttr, tables
      requires DirOk() && 0 <= p < PAGES
    {
      assert pdir != null ==> TableOk(pdir[p / 1024], p / 1024);
      if pdir == null || pdir[p / 1024] == null then Page(null, null, defAttr) else pdir[p / 1024][p % 1024]
    }

    /** Directory and tables hold the entries. */
    ghost predicate TablesHoldEntries()
      reads this`pdir, this`tables, this`tableOf, this`defAttr, this`entries, tables
    {
      DirOk() && |entries| == PAGES && forall p | 0 <= p < PAGES :: Entry(p) == entries[p]
    }

    ghost predicate PageOk(e: Page, p: int)
      reads this`attrs, this`datas, this`attrOf, this`dataOf
    {
      if e.attr == null then e.data == null else
        && e.data != null && e.attr in attrs && e.data in datas
        && e.attr.Length == PAGE_SIZE && e.data.Length == PAGE_SIZE
        && e.attr in attrOf && attrOf[e.attr] == p
        && e.data in dataOf && dataOf[e.data] == p
    }

    ghost predicate PagesOk()
      reads this`entries, this`attrs, this`datas, this`attrOf, this`dataOf
    {
      |entries| == PAGES && forall p | 0 <= p < PAGES :: PageOk(entries[p], p)
    }

    ghost function CellOf(e: Page, o: int): Cell
      reads e.attr, e.data
      requires e.attr != null ==> e.data != null && e.attr.Length == e.data.Length == PAGE_SIZE
      requires 0 <= o < PAGE_SIZE
    {
      if e.attr == null then Cell(e.defAttr, 0) else Cell(e.attr[o], e.data[o])
    }

    ghost predicate CellHeld(a: u32)
      reads this`cells, this`entries, this`attrs, this`datas, this`attrOf, this`dataOf, attrs, datas
      requires PagesOk() && |cells| == SIZE
    {
      assert PageOk(entries[a / PAGE_SIZE], a / PAGE_SIZE);
      cells[a] == CellOf(entries[a / PAGE_SIZE], a % PAGE_SIZE)
    }

    /** The entries hold the flat cells. */
    ghost predicate EntriesHoldCells()
      reads this`cells, this`entries, this`attrs, this`datas, this`attrOf, this`dataOf, attrs, datas
    {
      PagesOk() && |cells| == SIZE && forall a: u32 :: CellHeld(a)
    }

    ghost predicate Valid()
      reads this, Repr()
    {
      this !in tables + attrs + datas && tables !! attrs !! datas &&
      TablesHoldEntries() && EntriesHoldCells()
    }

    ghost function Abs(): (v: Flat)
      reads this, Repr()
      requires Valid()
    {
      Vm(cells, invalid)
    }

    /** The invariant and the default attribute are kept and the representation only grows. */
    twostate predicate StillValid()
      reads this, Repr()
    {
      Valid() && fresh(Repr() - old(Repr())) && old(Repr()) <= Repr() && defAttr == old(defAttr)
    }

    /** emu_mem_new */
    constructor (perm: bv8)
      ensures Valid() && fresh(Repr())
      ensures Abs() == Vm(seq(SIZE, _ => Cell(perm, 0)), false) && defAttr == perm
      ensures entries == seq(PAGES, _ => Page(null, null, perm))
    {
      pdir, invalid, defAttr := null, false, perm;
      cells := seq(SIZE, _ => Cell(perm, 0));
      entries := seq(PAGES, _ => Page(null, null, perm));
      tables, attrs, datas := {}, {}, {};
      tableOf, attrOf, dataOf := map[], map[], map[];
    }

    /** A new table: every entry gets the default attribute of the memory. */
    method NewTable() returns (table: array<Page>)
      ensures fresh(table) && table.Length == 1024
      ensures forall k | 0 <= k < 1024 :: table[k] == Page(null, null, defAttr)
    {
      table := new Page[1024](_ => Page(null, null, 0));
      for u := 0 to 1024
        invariant forall k | 0 <= k < 1024 :: table[k] == Page(null, null, if k < u then defAttr else 0)
      {
        table[u] := table[u].(defAttr := defAttr);
      }
    }

    method GetDirectory()
      requires Valid()
      modifies this`pdir, this`tables
      ensures Valid() && fresh(Repr() - old(Repr())) && old(Repr()) <= Repr()
      ensures Abs() == old(Abs()) && defAttr == old(defAttr) && entries == old(entries)
      ensures pdir != null && pdir in tables && pdir.Length == 1024
    {
      hide Memory.CellHeld, Memory.CellOf;
      if pdir == null {
        pdir := new array?<Page>[1024](_ => null);
        tables := tables + {pdir};
      }
    }

    /** The first half of vm_get_page: the directory and the table of slot d exist. */
    method GetTable(d: nat) returns (table: array<Page>)
      requires Valid() && d < 1024
      modifies Repr()
      ensures Valid() && fresh(Repr() - old(Repr())) && old(Repr()) <= Repr()
      ensures Abs() == old(Abs()) && defAttr == old(defAttr) && entries == old(entries)
      ensures pdir != null && pdir[d] == table
    {
      hide Memory.CellHeld, Memory.CellOf;
      GetDirectory();
      var found := pdir[d];
      if found != null {
        assert TableOk(found, d);
        table := found;
      } else {
        table := NewTable();
        pdir[d] := table;
        tables := tables + {table};
        tableOf := tableOf[table := d];
      }
    }

    /** Entry p, which had no arrays, is replaced, and the cells of its page with it. */
    twostate lemma PageReplaced(p: int)
      requires old(EntriesHoldCells()) && old(attrs) <= attrs && old(datas) <= datas && 0 <= p < PAGES
      requires |old(entries)| == |entries| == PAGES && old(entries[p].attr) == null
      requires entries == old(entries)[p := entries[p]]
      requires PageOk(entries[p], p)
      requires entries[p].attr == null ==> attrOf == old(attrOf) && dataOf == old(dataOf)
      requires entries[p].attr != null ==>
                 && entries[p].attr !in old(attrs) && entries[p].data !in old(datas)
                 && attrOf == old(attrOf)[entries[p].attr := p] && dataOf == old(dataOf)[entries[p].data := p]
      requires forall x | x in old(attrs) + old(datas) :: unchanged(x)
      requires |cells| == |old(cells)| == SIZE
      requires forall a: u32 ::
        cells[a] == if a / PAGE_SIZE == p then CellOf(entries[p], a % PAGE_SIZE) else old(cells)[a]
      ensures EntriesHoldCells()
    {
      forall q | 0 <= q < PAGES ensures PageOk(entries[q], q) {
        assert old(PageOk(entries[q], q));
      }
      forall a: u32 ensures CellHeld(a) {
        var q := a / PAGE_SIZE;
        assert old(CellHeld(a)) && old(PageOk(entries[q], q));
        if q != p && entries[q].attr != null {
          var x: object, y: object := entries[q].attr, entries[q].data;
          assert x in old(attrs) + old(datas) && y in old(attrs) + old(datas);
        }
      }
    }

    /** One entry of a table is overwritten. */
    method SetEntry(table: array<Page>, p: nat, page: Page)
      requires TablesHoldEntries() && p < PAGES && pdir != null && pdir[p / 1024] == table
      modifies this`entries, table
      ensures TablesHoldEntries() && entries == old(entries)[p := page]
    {
      assert TableOk(table, p / 1024);
      table[p % 1024] := page;
      entries := entries[p := page];
      forall q | 0 <= q < PAGES ensures Entry(q) == entries[q] {
        assert old(Entry(q) == entries[q]);
        var d := q / 1024;
        assert d != p / 1024 ==> TableOk(pdir[d], d);
      }
    }

    static method NewPage(attribute: bv8) returns (attr: array<bv8>, data: array<byte>)
      ensures fresh(attr) && attr.Length == PAGE_SIZE && forall o | 0 <= o < PAGE_SIZE :: attr[o] == attribute
      ensures attr as object != data
      ensures fresh(data) && data.Length == PAGE_SIZE && forall o | 0 <= o < PAGE_SIZE :: data[o] == 0
    {
      attr := new bv8[PAGE_SIZE](_ => attribute);
      data := new byte[PAGE_SIZE](_ => 0);
    }

    /** An entry without arrays is replaced; its page now shows src. */
    method ReplaceEntry(table: array<Page>, p: nat, page: Page, ghost src: seq<Cell>)
      requires Valid() && p < PAGES == |entries| && entries[p].attr == null
      requires pdir != null && pdir.Length == 1024 && pdir[p / 1024] == table && table in tables
      requires page.attr == null ==> page.data == null
      requires page.attr != null ==> page.data != null && page.attr.Length == page.data.Length == PAGE_SIZE
      requires page.attr != null ==>
                 var a: object, d: object := page.attr, page.data;
                 a != d && a != this && d != this && a !in tables + attrs + datas && d !in tables + attrs + datas
      requires |src| == |cells| == SIZE && forall a: u32 :: a / PAGE_SIZE == p ==> src[a] == CellOf(page, a % PAGE_SIZE)
      modifies this`entries, this`cells, this`attrs, this`datas, this`attrOf, this`dataOf, table
      ensures Valid() && entries == old(entries)[p := page] && cells == WithPage(old(cells), p, src)
      ensures page.attr == null ==> attrs == old(attrs) && datas == old(datas)
      ensures page.attr != null ==> attrs == old(attrs) + {page.attr} && datas == old(datas) + {page.data}
    {
      hide Memory.TablesHoldEntries, Memory.EntriesHoldCells;
      if page.attr != null {
        attrs, datas := attrs + {page.attr}, datas + {page.data};
        attrOf, dataOf := attrOf[page.attr := p], dataOf[page.data := p];
      }
      SetEntry(table, p, page);
      cells := WithPage(cells, p, src);
      PageReplaced(p);
    }

    lemma Sizes()
      requires Valid()
      ensures |cells| == SIZE && |entries| == PAGES
    {
    }

    /** The cells of a page without arrays. */
    lemma PageCells(p: nat)
      requires Valid() && p < PAGES == |entries| && entries[p].attr == null
      ensures |cells| == SIZE && forall a: u32 :: a / PAGE_SIZE == p ==> cells[a] == Cell(entries[p].defAttr, 0)
    {
      forall a: u32 | a / PAGE_SIZE == p ensures cells[a] == Cell(entries[p].defAttr, 0) {
        assert CellHeld(a);
      }
    }

    /** The page of entry p is allocated: zero data, every attribute the default of the entry. */
    method MakePage(table: array<Page>, p: nat, default: bv8)
      requires Valid() && p < PAGES == |entries| && entries[p].attr == null && default == entries[p].defAttr
      requires pdir != null && pdir.Length == 1024 && pdir[p / 1024] == table && table in tables
      modifies this`entries, this`cells, this`attrs, this`datas, this`attrOf, this`dataOf, table
      ensures Valid() && fresh(attrs - old(attrs)) && fresh(datas - old(datas)) && cells == old(cells)
      ensures old(attrs) <= attrs && old(datas) <= datas && |entries| == PAGES && entries[p].attr != null
    {
      hide Memory.EntriesHoldCells, Memory.TablesHoldEntries;
      PageCells(p);
      var attr, data := NewPage(default);
      ReplaceEntry(table, p, Page(attr, data, default), cells);
      assert WithPage(old(cells), p, old(cells)) == old(cells);
    }

    /** vm_get_page: builds what is missing on the way to the page of addr and, with create, the page
        itself. It never changes the abstract memory. */
    method GetPage(addr: u32, create: bool) returns (table: array<Page>)
      requires Valid()
      modifies Repr()
      ensures Valid() && fresh(Repr() - old(Repr())) && old(Repr()) <= Repr()
      ensures Abs() == old(Abs()) && defAttr == old(defAttr)
      ensures pdir != null && pdir[addr / 0x40_0000] == table
      ensures table.Length == 1024 && table[addr / PAGE_SIZE % 1024] == entries[addr / PAGE_SIZE]
      ensures create ==> entries[addr / PAGE_SIZE].attr != null
    {
      hide Memory.EntriesHoldCells;
      table := GetTable(addr / 0x40_0000);
      assert TableOk(table, addr / 0x40_0000) && Entry(addr / PAGE_SIZE) == entries[addr / PAGE_SIZE];
      if create && table[addr / PAGE_SIZE % 1024].attr == null {
        MakePage(table, addr / PAGE_SIZE, table[addr / PAGE_SIZE % 1024].defAttr);
        assert Entry(addr / PAGE_SIZE) == entries[addr / PAGE_SIZE];
      }
    }

    /** page is entry p and its arrays exist. */
    ghost predicate Shows(page: Page, p: int)
      reads this
    {
      && 0 <= p < PAGES == |entries| && page == entries[p]
      && page.attr != null && page.data != null && page.attr in attrs && page.data in datas
      && page.attr.Length == page.data.Length == PAGE_SIZE
    }

    /** The page of addr, created if need be. */
    method LoadPage(addr: u32) returns (page: Page)
      requires Valid()
      modifies Repr()
      ensures Valid() && fresh(Repr() - old(Repr())) && old(Repr()) <= Repr()
      ensures Abs() == old(Abs()) && defAttr == old(defAttr)
      ensures Shows(page, addr / PAGE_SIZE)
    {
      var table := GetPage(addr, true);
      page := table[addr / PAGE_SIZE % 1024];
      assert PageOk(entries[addr / PAGE_SIZE], addr / PAGE_SIZE);
    }

    lemma Shown(page: Page, addr: u32)
      requires Valid() && Shows(page, addr / PAGE_SIZE)
      ensures |cells| == SIZE && cells[addr] == Cell(page.attr[addr % PAGE_SIZE], page.data[addr % PAGE_SIZE])
    {
      assert CellHeld(addr);
    }

    /** Four cells of one page. */
    lemma Shown4(page: Page, addr: u32)
      requires Valid() && Shows(page, addr / PAGE_SIZE) && addr % PAGE_SIZE < PAGE_SIZE - 3
      ensures |cells| == SIZE && addr + 3 < SIZE
      ensures var i := addr % PAGE_SIZE;
              && cells[addr] == Cell(page.attr[i], page.data[i])
              && cells[addr + 1] == Cell(page.attr[i + 1], page.data[i + 1])
              && cells[addr + 2] == Cell(page.attr[i + 2], page.data[i + 2])
              && cells[addr + 3] == Cell(page.attr[i + 3], page.data[i + 3])
    {
      hide Memory.Valid;
      SamePage(addr);
      Shown(page, addr); Shown(page, addr + 1); Shown(page, addr + 2); Shown(page, addr + 3);
    }

    method PutAttr(page: Page, addr: u32, v: bv8)
      requires Valid() && Shows(page, addr / PAGE_SIZE)
      modifies this`cells, page.attr
      ensures Valid() && cells == old(cells)[addr := old(cells[addr]).(attr := v)]
      ensures page.attr[addr % PAGE_SIZE] == v
    {
      hide Memory.TablesHoldEntries;
      Shown(page, addr);
      page.attr[addr % PAGE_SIZE] := v;
      cells := cells[addr := cells[addr].(attr := v)];
      assert PageOk(page, addr / PAGE_SIZE);
      forall a: u32 ensures CellHeld(a) {
        assert old(CellHeld(a)) && PageOk(entries[a / PAGE_SIZE], a / PAGE_SIZE);
      }
    }

    method PutData(page: Page, addr: u32, v: byte)
      requires Valid() && Shows(page, addr / PAGE_SIZE)
      modifies this`cells, page.data
      ensures Valid() && cells == old(cells)[addr := old(cells[addr]).(data := v)]
      ensures page.data[addr % PAGE_SIZE] == v
    {
      hide Memory.TablesHoldEntries;
      Shown(page, addr);
      page.data[addr % PAGE_SIZE] := v;
      cells := cells[addr := cells[addr].(data := v)];
      assert PageOk(page, addr / PAGE_SIZE);
      forall a: u32 ensures CellHeld(a) {
        assert old(CellHeld(a)) && PageOk(entries[a / PAGE_SIZE], a / PAGE_SIZE);
      }
    }

    method SetInvalid(v: bool)
      requires Valid()
      modifies this`invalid
      ensures Valid() && invalid == v
    {
      invalid := v;
    }

    /** The access fails. */
    method Fail()
      requires Valid()
      modifies this`invalid
      ensures Valid() && invalid
    {
      SetInvalid(true);
    }

    method RByte(addr: u32) returns (val: byte)
      requires Valid()
      modifies Repr()
      ensures StillValid()
      ensures (Abs(), val) == ReadByte(old(Abs()), addr, PERM_R, ACC_R)
    {
      hide Memory.TablesHoldEntries, Memory.EntriesHoldCells;
      var i := addr % PAGE_SIZE;
      var page := LoadPage(addr);
      Shown(page, addr);
      if page.attr[i] & PERM_R != 0 {
        MarksKeepValid(page.attr[i]);
        PutAttr(page, addr, page.attr[i] | ACC_R);
        if page.attr[i] & PERM_VALID == 0 {
          PutAttr(page, addr, page.attr[i] | ACC_INVALID);
          Fail();
          assert cells == old(cells)[addr := old(cells[addr]).(attr := page.attr[i])];
        }
        return page.data[i];
      }
      Fail();
      return 0xff;
    }

    method RByteNoperm(addr: u32) returns (val: byte)
      requires Valid()
      modifies Repr()
      ensures StillValid()
      ensures Abs() == old(Abs()) && val == Abs().cells[addr].data
    {
      hide Memory.TablesHoldEntries, Memory.EntriesHoldCells;
      var page := LoadPage(addr);
      Shown(page, addr);
      return page.data[addr % PAGE_SIZE];
    }

    method XByte(addr: u32) returns (val: byte)
      requires Valid()
      modifies Repr()
      ensures StillValid()
      ensures (Abs(), val) == ReadByte(old(Abs()), addr, PERM_X, ACC_X)
    {
      hide Memory.TablesHoldEntries, Memory.EntriesHoldCells;
      var i := addr % PAGE_SIZE;
      var page := LoadPage(addr);
      Shown(page, addr);
      if page.attr[i] & PERM_X != 0 {
        MarksKeepValid(page.attr[i]);
        PutAttr(page, addr, page.attr[i] | ACC_X);
        if page.attr[i] & PERM_VALID == 0 {
          PutAttr(page, addr, page.attr[i] | ACC_INVALID);
          Fail();
          assert cells == old(cells)[addr := old(cells[addr]).(attr := page.attr[i])];
        }
        return page.data[i];
      }
      Fail();
      return 0xff;
    }

    method XWord(addr: u32) returns (val: u16)
      requires Valid()
      modifies Repr()
      ensures StillValid()
      ensures (Abs(), val) == ReadWord(old(Abs()), addr, PERM_X, ACC_X)
    {
      hide Memory.TablesHoldEntries, Memory.EntriesHoldCells;
      var b0 := XByte(addr);
      var b1 := XByte(Wrap(addr + 1));
      return b0 as int + 0x100 * b1 as int;
    }

    method XDword(addr: u32) returns (val: u32)
      requires Valid()
      modifies Repr()
      ensures StillValid()
      ensures (Abs(), val) == ReadDword(old(Abs()), addr, PERM_X, ACC_X)
    {
      hide Memory.TablesHoldEntries, Memory.EntriesHoldCells;
      var w0 := XWord(addr);
      var w1 := XWord(Wrap(addr + 2));
      return w0 as int + 0x1_0000 * w1 as int;
    }

    lemma Readable2(page: Page, addr: u32)
      requires Valid() && Shows(page, addr / PAGE_SIZE) && addr % PAGE_SIZE < PAGE_SIZE - 1
      ensures var i := addr % PAGE_SIZE;
              Join16(page.attr[i], page.attr[i + 1]) & Perm16(PERM_R | PERM_VALID) == Perm16(PERM_R | PERM_VALID) <==>
              Readable(Abs(), addr) && Readable(Abs(), addr + 1)
      ensures var i := addr % PAGE_SIZE;
              page.data[i] == cells[addr].data && page.data[i + 1] == cells[addr + 1].data
    {
      hide Memory.TablesHoldEntries, Memory.EntriesHoldCells, Perm16, Join16;
      var i := addr % PAGE_SIZE;
      Shown(page, addr); Shown(page, addr + 1);
      WideTest16(page.attr[i], page.attr[i + 1], PERM_R | PERM_VALID);
      ReadableAndValid(page.attr[i]); ReadableAndValid(page.attr[i + 1]);
    }

    method StoreAttr1(page: Page, addr: u32, m: bv8)
      requires Valid() && Shows(page, addr / PAGE_SIZE) && |cells| == SIZE && m == Marked(cells[addr], ACC_R).attr
      modifies this`cells, page.attr
      ensures Valid() && Abs() == MarkRead(old(Abs()), addr)
    {
      hide Memory.TablesHoldEntries, Memory.EntriesHoldCells;
      PutAttr(page, addr, m);
    }

    /** One 16-bit or marks both bytes. */
    method MarkRead2(page: Page, addr: u32)
      requires Valid() && Shows(page, addr / PAGE_SIZE) && addr % PAGE_SIZE < PAGE_SIZE - 1
      modifies this`cells, page.attr
      ensures Valid() && Abs() == MarkRead(MarkRead(old(Abs()), addr), addr + 1)
    {
      hide Memory.TablesHoldEntries, Memory.EntriesHoldCells, Perm16, Join16, Byte0, Byte1;
      var i := addr % PAGE_SIZE;
      SamePage2(addr);
      Shown(page, addr); Shown(page, addr + 1);
      WideOr16(page.attr[i], page.attr[i + 1], ACC_R);
      var marked := (Join16(page.attr[i], page.attr[i + 1]) | Perm16(ACC_R)) as bv32;
      StoreAttr1(page, addr, Byte0(marked));
      StoreAttr1(page, addr + 1, Byte1(marked));
    }

    /** The fast path reads the permissions of both bytes as one 16-bit value. */
    method RWord(addr: u32) returns (val: u16)
      requires Valid()
      modifies Repr()
      ensures StillValid()
      ensures (Abs(), val) == ReadWord(old(Abs()), addr, PERM_R, ACC_R)
    {
      hide Memory.TablesHoldEntries, Memory.EntriesHoldCells, Perm16, Join16, Byte0, Byte1, ReadByte;
      var i := addr % PAGE_SIZE;
      var page := LoadPage(addr);
      if i >= PAGE_SIZE - 1
         || Join16(page.attr[i], page.attr[i + 1]) & Perm16(PERM_R | PERM_VALID) != Perm16(PERM_R | PERM_VALID)
      {
        var b0 := RByte(addr);
        var b1 := RByte(Wrap(addr + 1));
        return b0 as int + 0x100 * b1 as int;
      }
      Readable2(page, addr);
      ReadWordFast(Abs(), addr);
      MarkRead2(page, addr);
      return page.data[i] as int + 0x100 * page.data[i + 1] as int;
    }

    /** The slow path of vm_r_dword. */
    method RDwordBytes(addr: u32) returns (val: u32)
      requires Valid()
      modifies Repr()
      ensures StillValid()
      ensures (Abs(), val) == ReadDword(old(Abs()), addr, PERM_R, ACC_R)
    {
      hide Memory.TablesHoldEntries, Memory.EntriesHoldCells, ReadDword, ReadByte;
      BytesMakeDword(Abs(), addr, PERM_R, ACC_R);
      var b0 := RByte(addr);
      var b1 := RByte(Wrap(addr + 1));
      var b2 := RByte(Wrap(addr + 2));
      var b3 := RByte(Wrap(addr + 3));
      return Val4([b0, b1, b2, b3]);
    }

    /** The wide test passes exactly on four readable, initialized bytes. */
    lemma Readable4(page: Page, addr: u32)
      requires Valid() && Shows(page, addr / PAGE_SIZE) && addr % PAGE_SIZE < PAGE_SIZE - 3
      ensures var i := addr % PAGE_SIZE;
              AllSet32(page.attr[i], page.attr[i + 1], page.attr[i + 2], page.attr[i + 3], PERM_R | PERM_VALID) <==>
              && Readable(Abs(), addr) && Readable(Abs(), addr + 1)
              && Readable(Abs(), addr + 2) && Readable(Abs(), addr + 3)
      ensures var i := addr % PAGE_SIZE;
              page.data[i] == cells[addr].data && page.data[i + 1] == cells[addr + 1].data
              && page.data[i + 2] == cells[addr + 2].data && page.data[i + 3] == cells[addr + 3].data
    {
      hide Memory.Valid, AllSet32, Readable;
      var i := addr % PAGE_SIZE;
      Shown4(page, addr);
      FourReadable(Abs(), addr, page.attr[i], page.attr[i + 1], page.attr[i + 2], page.attr[i + 3]);
    }

    /** The four attribute bytes of a 32-bit store. */
    method StoreAttr4(page: Page, addr: u32, m0: bv8, m1: bv8, m2: bv8, m3: bv8)
      requires Valid() && Shows(page, addr / PAGE_SIZE) && addr % PAGE_SIZE < PAGE_SIZE - 3
      requires var i := addr % PAGE_SIZE;
               m0 == page.attr[i] | ACC_R && m1 == page.attr[i + 1] | ACC_R
               && m2 == page.attr[i + 2] | ACC_R && m3 == page.attr[i + 3] | ACC_R
      modifies this`cells, page.attr
      ensures Valid()
      ensures Abs() == MarkRead(MarkRead(MarkRead(MarkRead(old(Abs()), addr), addr + 1), addr + 2), addr + 3)
    {
      hide Memory.TablesHoldEntries, Memory.EntriesHoldCells;
      SamePage(addr);
      Shown4(page, addr);
      StoreAttr1(page, addr, m0);
      StoreAttr1(page, addr + 1, m1);
      StoreAttr1(page, addr + 2, m2);
      StoreAttr1(page, addr + 3, m3);
    }

    /** One 32-bit or marks four bytes. */
    method MarkRead4(page: Page, addr: u32)
      requires Valid() && Shows(page, addr / PAGE_SIZE) && addr % PAGE_SIZE < PAGE_SIZE - 3
      modifies this`cells, page.attr
      ensures Valid()
      ensures Abs() == MarkRead(MarkRead(MarkRead(MarkRead(old(Abs()), addr), addr + 1), addr + 2), addr + 3)
    {
      hide Memory.TablesHoldEntries, Memory.EntriesHoldCells, Perm32, Join32;
      var i := addr % PAGE_SIZE;
      var m0, m1, m2, m3 := OrMarks32(page.attr[i], page.attr[i + 1], page.attr[i + 2], page.attr[i + 3], ACC_R);
      StoreAttr4(page, addr, m0, m1, m2, m3);
    }

    method RDword(addr: u32) returns (val: u32)
      requires Valid()
      modifies Repr()
      ensures StillValid()
      ensures (Abs(), val) == ReadDword(old(Abs()), addr, PERM_R, ACC_R)
    {
      hide Memory.TablesHoldEntries, Memory.EntriesHoldCells, AllSet32, ReadDword, ReadByte;
      var i := addr % PAGE_SIZE;
      var page := LoadPage(addr);
      if i >= PAGE_SIZE - 3
         || !AllSet32(page.attr[i], page.attr[i + 1], page.attr[i + 2], page.attr[i + 3], PERM_R | PERM_VALID)
      {
        val := RDwordBytes(addr);
        return;
      }
      Readable4(page, addr);
      ReadDwordFast(Abs(), addr);
      MarkRead4(page, addr);
      return Val4([page.data[i], page.data[i + 1], page.data[i + 2], page.data[i + 3]]);
    }

    method WByte(addr: u32, val: byte)
      requires Valid()
      modifies Repr()
      ensures StillValid()
      ensures Abs() == WriteByte(old(Abs()), addr, val)
    {
      hide Memory.TablesHoldEntries, Memory.EntriesHoldCells;
      var i := addr % PAGE_SIZE;
      var page := LoadPage(addr);
      Shown(page, addr);
      if page.attr[i] & PERM_W != 0 {
        MarkWritten(page.attr[i]);
        PutAttr(page, addr, page.attr[i] | (PERM_VALID | ACC_W));
        PutData(page, addr, val);
        assert cells == old(cells)[addr := Cell(page.attr[i], val)];
      } else {
        PutAttr(page, addr, page.attr[i] | ACC_INVALID);
        Fail();
      }
    }

    method WByteNoperm(addr: u32, val: byte)
      requires Valid()
      modifies Repr()
      ensures StillValid()
      ensures Abs() == Written(old(Abs()), addr, val)
    {
      hide Memory.TablesHoldEntries, Memory.EntriesHoldCells;
      var page := LoadPage(addr);
      Shown(page, addr);
      PutAttr(page, addr, page.attr[addr % PAGE_SIZE] | (PERM_VALID | ACC_W));
      PutData(page, addr, val);
    }

    lemma Writable2(page: Page, addr: u32)
      requires Valid() && Shows(page, addr / PAGE_SIZE) && addr % PAGE_SIZE < PAGE_SIZE - 1
      ensures var i := addr % PAGE_SIZE;
              Join16(page.attr[i], page.attr[i + 1]) & Perm16(PERM_W) == Perm16(PERM_W) <==>
              Writable(Abs(), addr) && Writable(Abs(), addr + 1)
    {
      hide Memory.TablesHoldEntries, Memory.EntriesHoldCells, Perm16, Join16;
      var i := addr % PAGE_SIZE;
      Shown(page, addr); Shown(page, addr + 1);
      WideTest16(page.attr[i], page.attr[i + 1], PERM_W);
      ReadableAndValid(page.attr[i]); ReadableAndValid(page.attr[i + 1]);
    }

    method PutCell(page: Page, addr: u32, v: bv8, val: byte)
      requires Valid() && Shows(page, addr / PAGE_SIZE)
      modifies this`cells, page.attr, page.data
      ensures Valid() && cells == old(cells)[addr := Cell(v, val)]
    {
      hide Memory.TablesHoldEntries, Memory.EntriesHoldCells;
      Shown(page, addr);
      PutAttr(page, addr, v);
      PutData(page, addr, val);
      assert cells == old(cells)[addr := Cell(v, val)];
    }

    /** One 16-bit or marks both bytes, and one 16-bit store writes them. */
    method Write2(page: Page, addr: u32, val: u32)
      requires Valid() && Shows(page, addr / PAGE_SIZE) && addr % PAGE_SIZE < PAGE_SIZE - 1
      modifies this`cells, page.attr, page.data
      ensures Valid() && Abs() == Written(Written(old(Abs()), addr, val % 0x100), addr + 1, val / 0x100 % 0x100)
    {
      hide Memory.TablesHoldEntries, Memory.EntriesHoldCells, Perm16, Join16, Byte0, Byte1;
      var i := addr % PAGE_SIZE;
      SamePage2(addr);
      Shown(page, addr); Shown(page, addr + 1);
      WideOr16(page.attr[i], page.attr[i + 1], PERM_VALID | ACC_W);
      var marked := (Join16(page.attr[i], page.attr[i + 1]) | Perm16(PERM_VALID | ACC_W)) as bv32;
      PutCell(page, addr, Byte0(marked), val % 0x100);
      PutCell(page, addr + 1, Byte1(marked), val / 0x100 % 0x100);
    }

    method WWord(addr: u32, val: u32)
      requires Valid()
      modifies Repr()
      ensures StillValid()
      ensures Abs() == WriteWord(old(Abs()), addr, val)
    {
      hide Memory.TablesHoldEntries, Memory.EntriesHoldCells, Perm16, Join16, Byte0, Byte1, WriteByte;
      var i := addr % PAGE_SIZE;
      var page := LoadPage(addr);
      if i >= PAGE_SIZE - 1 || Join16(page.attr[i], page.attr[i + 1]) & Perm16(PERM_W) != Perm16(PERM_W) {
        WByte(addr, val % 0x100);
        WByte(Wrap(addr + 1), val / 0x100 % 0x100);
        return;
      }
      Writable2(page, addr);
      WriteWordFast(Abs(), addr, val);
      Write2(page, addr, val);
    }

    /** The slow path of vm_w_dword. */
    method WDwordBytes(addr: u32, val: u32)
      requires Valid()
      modifies Repr()
      ensures StillValid()
      ensures Abs() == WriteDword(old(Abs()), addr, val)
    {
      hide Memory.TablesHoldEntries, Memory.EntriesHoldCells, WriteDword, WriteByte;
      DwordIsBytes(Abs(), addr, val);
      var b := LE4(val);
      WByte(addr, b[0]);
      WByte(Wrap(addr + 1), b[1]);
      WByte(Wrap(addr + 2), b[2]);
      WByte(Wrap(addr + 3), b[3]);
    }

    lemma Writable4(page: Page, addr: u32)
      requires Valid() && Shows(page, addr / PAGE_SIZE) && addr % PAGE_SIZE < PAGE_SIZE - 3
      ensures var i := addr % PAGE_SIZE;
              AllSet32(page.attr[i], page.attr[i + 1], page.attr[i + 2], page.attr[i + 3], PERM_W)
              <==>
              && Writable(Abs(), addr) && Writable(Abs(), addr + 1)
              && Writable(Abs(), addr + 2) && Writable(Abs(), addr + 3)
    {
      hide Memory.Valid, AllSet32, Writable;
      var i := addr % PAGE_SIZE;
      Shown4(page, addr);
      FourWritable(Abs(), addr, page.attr[i], page.attr[i + 1], page.attr[i + 2], page.attr[i + 3]);
    }

    method StoreCell1(page: Page, addr: u32, v: bv8, val: byte)
      requires Valid() && Shows(page, addr / PAGE_SIZE) && |cells| == SIZE
      requires v == cells[addr].attr | (PERM_VALID | ACC_W)
      modifies this`cells, page.attr, page.data
      ensures Valid() && Abs() == Written(old(Abs()), addr, val)
    {
      hide Memory.TablesHoldEntries, Memory.EntriesHoldCells;
      PutCell(page, addr, v, val);
    }

    /** The four attribute bytes and the four data bytes of a 32-bit store. */
    method StoreCells4(page: Page, addr: u32, m0: bv8, m1: bv8, m2: bv8, m3: bv8, b: seq<byte>)
      requires Valid() && Shows(page, addr / PAGE_SIZE) && addr % PAGE_SIZE < PAGE_SIZE - 3 && |b| == 4
      requires var i := addr % PAGE_SIZE;
               && m0 == page.attr[i] | (PERM_VALID | ACC_W) && m1 == page.attr[i + 1] | (PERM_VALID | ACC_W)
               && m2 == page.attr[i + 2] | (PERM_VALID | ACC_W) && m3 == page.attr[i + 3] | (PERM_VALID | ACC_W)
      modifies this`cells, page.attr, page.data
      ensures Valid()
      ensures Abs() == Written(Written(Written(Written(
   old(Abs()), addr, b[0]), addr + 1, b[1]), addr + 2, b[2]), addr + 3, b[3])
    {
      hide Memory.TablesHoldEntries, Memory.EntriesHoldCells;
      SamePage(addr);
      Shown4(page, addr);
      StoreCell1(page, addr, m0, b[0]);
      StoreCell1(page, addr + 1, m1, b[1]);
      StoreCell1(page, addr + 2, m2, b[2]);
      StoreCell1(page, addr + 3, m3, b[3]);
    }

    /** One 32-bit or marks four bytes, and one 32-bit store writes them. */
    method Write4(page: Page, addr: u32, val: u32)
      requires Valid() && Shows(page, addr / PAGE_SIZE) && addr % PAGE_SIZE < PAGE_SIZE - 3
      modifies this`cells, page.attr, page.data
      ensures Valid()
      ensures var b := LE4(val);
              Abs() == Written(Written(Written(Written(
                old(Abs()), addr, b[0]), addr + 1, b[1]), addr + 2, b[2]), addr + 3, b[3])
    {
      hide Memory.TablesHoldEntries, Memory.EntriesHoldCells, Perm32, Join32, LE4;
      var i := addr % PAGE_SIZE;
      var b := LE4(val);
      SamePage(addr);
      Shown4(page, addr);
      var m0, m1, m2, m3 :=
        OrMarks32(page.attr[i], page.attr[i + 1], page.attr[i + 2], page.attr[i + 3], PERM_VALID | ACC_W);
      StoreCells4(page, addr, m0, m1, m2, m3, b);
    }

    method WDword(addr: u32, val: u32)
      requires Valid()
      modifies Repr()
      ensures StillValid()
      ensures Abs() == WriteDword(old(Abs()), addr, val)
    {
      hide Memory.TablesHoldEntries, Memory.EntriesHoldCells, AllSet32, WriteDword, WriteByte;
      var i := addr % PAGE_SIZE;
      var page := LoadPage(addr);
      if i >= PAGE_SIZE - 3
         || !AllSet32(page.attr[i], page.attr[i + 1], page.attr[i + 2], page.attr[i + 3], PERM_W)
      {
        WDwordBytes(addr, val);
        return;
      }
      Writable4(page, addr);
      WriteDwordFast(Abs(), addr, val);
      Write4(page, addr, val);
    }

    lemma PageEntryOk(p: nat)
      requires Valid() && p < PAGES
      ensures |entries| == PAGES && PageOk(entries[p], p)
      ensures pdir != null ==> pdir.Length == 1024 && TableOk(pdir[p / 1024], p / 1024)
      ensures pdir != null && pdir[p / 1024] != null ==>
                pdir[p / 1024] in tables && pdir[p / 1024].Length == 1024 && pdir[p / 1024][p % 1024] == entries[p]
      ensures entries[p].attr != null ==> entries[p].attr in attrs
    {
      assert Entry(p) == entries[p];
    }

    method PaintEntry(table: array<Page>, p: nat, page: Page, perm: bv8)
      requires Valid() && p < PAGES == |entries| && page == entries[p]
      requires pdir != null && pdir.Length == 1024 && pdir[p / 1024] == table && table in tables
      requires page.attr != null ==> page.attr in attrs
      modifies this`entries, this`cells, table, page.attr
      ensures Valid() && cells == Painted(old(cells), p * PAGE_SIZE, (p + 1) * PAGE_SIZE, perm)
    {
      hide Memory.TablesHoldEntries;
      assert PageOk(page, p);
      SetEntry(table, p, page.(defAttr := perm));
      if page.attr != null {
        forall o | 0 <= o < PAGE_SIZE {
          page.attr[o] := perm;
        }
      }
      cells := Painted(cells, p * PAGE_SIZE, (p + 1) * PAGE_SIZE, perm);
      forall q | 0 <= q < PAGES ensures PageOk(entries[q], q) {
        assert old(PageOk(entries[q], q));
      }
      forall a: u32 ensures CellHeld(a) {
        assert old(CellHeld(a)) && PageOk(entries[a / PAGE_SIZE], a / PAGE_SIZE);
      }
    }

    /** A page and its default attribute get one attribute: the loop body for whole pages of
        x86emu_set_perm. */
    method PaintPage(start: u32, perm: bv8)
      requires Valid() && start % PAGE_SIZE == 0
      modifies Repr()
      ensures StillValid()
      ensures Abs() == Vm(Painted(old(cells), start, start + PAGE_SIZE, perm), old(invalid))
    {
      hide Memory.TablesHoldEntries, Memory.EntriesHoldCells, Memory.TableOk, Memory.PageOk, Painted;
      var p := start / PAGE_SIZE;
      assert p * PAGE_SIZE == start && (p + 1) * PAGE_SIZE == start + PAGE_SIZE;
      PageEntryOk(p);
      var table := GetPage(start, false);
      PageEntryOk(p);
      PaintEntry(table, p, table[p % 1024], perm);
    }

    /** The access marks of one page are removed. */
    method ResetPage(attr: array<bv8>, p: nat)
      requires Valid() && p < PAGES == |entries| && entries[p].attr == attr && attr.Length == PAGE_SIZE
      modifies this`cells, attr
      ensures Valid() && cells == ClearedPage(old(cells), p)
    {
      hide Memory.TablesHoldEntries;
      assert PageOk(entries[p], p);
      forall o | 0 <= o < PAGE_SIZE {
        attr[o] := attr[o] & KEEP;
      }
      cells := ClearedPage(cells, p);
      forall q | 0 <= q < PAGES ensures PageOk(entries[q], q) {
        assert old(PageOk(entries[q], q));
      }
      forall a: u32 ensures CellHeld(a) {
        assert old(CellHeld(a)) && PageOk(entries[a / PAGE_SIZE], a / PAGE_SIZE);
      }
    }

    lemma NoDirectoryCleared(n: int)
      requires Valid() && pdir == null
      ensures ClearedBelow(cells, entries, n) == cells
    {
      forall a | 0 <= a < SIZE ensures ClearedBelow(cells, entries, n)[a] == cells[a] {
        assert Entry(a / PAGE_SIZE) == entries[a / PAGE_SIZE];
      }
    }

    lemma TableUnbuilt(d: nat)
      requires Valid() && d < 1024 && pdir != null && pdir.Length == 1024 && pdir[d] == null
      ensures |entries| == PAGES && forall p | d * 1024 <= p < d * 1024 + 1024 :: entries[p].attr == null
    {
      forall p | d * 1024 <= p < d * 1024 + 1024 ensures entries[p].attr == null {
        assert p / 1024 == d && Entry(p) == entries[p];
      }
    }

    lemma TableEntry(d: nat, u: nat)
      requires Valid() && d < 1024 && u < 1024 && pdir != null && pdir.Length == 1024 && pdir[d] != null
      ensures pdir[d].Length == 1024 && |entries| == PAGES && entries[d * 1024 + u] == pdir[d][u]
      ensures pdir[d][u].attr != null ==> pdir[d][u].attr in attrs && pdir[d][u].attr.Length == PAGE_SIZE
    {
      assert TableOk(pdir[d], d);
      var p := d * 1024 + u;
      assert p / 1024 == d && p % 1024 == u;
      assert Entry(p) == entries[p] && PageOk(entries[p], p);
    }

    /** One table of x86emu_reset_access_stats. */
    method ResetTable(table: array<Page>, d: nat, ghost was: seq<Cell>)
      requires Valid() && d < 1024 && pdir != null && pdir.Length == 1024 && pdir[d] == table && table.Length == 1024
      requires cells == ClearedBelow(was, entries, d * 1024)
      modifies this`cells, attrs
      ensures Valid() && cells == ClearedBelow(was, entries, d * 1024 + 1024)
    {
      hide Memory.TablesHoldEntries, Memory.EntriesHoldCells, ClearedBelow;
      for u := 0 to 1024
        invariant Valid() && cells == ClearedBelow(was, entries, d * 1024 + u)
        invariant pdir != null && pdir.Length == 1024 && pdir[d] == table
      {
        TableEntry(d, u);
        ClearedNext(was, entries, d * 1024 + u);
        var page := table[u];
        if page.attr != null {
          ResetPage(page.attr, d * 1024 + u);
        }
      }
    }

    /** x86emu_reset_access_stats: the access marks of every page that has been built are removed. */
    method ResetAccessStats()
      requires Valid()
      modifies this`cells, attrs
      ensures Valid() && entries == old(entries) && invalid == old(invalid)
      ensures cells == ClearedBelow(old(cells), entries, PAGES)
      ensures ResetFrom(old(cells), cells, entries)
    {
      hide Memory.TablesHoldEntries, Memory.EntriesHoldCells, ClearedBelow, ResetFrom;
      Sizes();
      ResetMeans(cells, entries);
      NothingCleared(cells, entries);
      if pdir == null {
        NoDirectoryCleared(PAGES);
        return;
      }
      PageEntryOk(0);
      for d := 0 to 1024
        invariant Valid() && entries == old(entries) && pdir != null && pdir.Length == 1024
        invariant cells == ClearedBelow(old(cells), entries, d * 1024)
      {
        var table := pdir[d];
        PageEntryOk(d * 1024);
        if table == null {
          TableUnbuilt(d);
          SkipUnbuilt(old(cells), entries, d * 1024, d * 1024 + 1024);
        } else {
          ResetTable(table, d, old(cells));
        }
      }
    }

    ghost predicate MarksCleared(now: seq<Cell>, a: u32)
      reads this`cells
      requires |now| == |cells| == SIZE
    {
      now[a] == cells[a].(attr := cells[a].attr & 0x0f)
    }

    lemma ClearedHere(a: u32)
      requires Valid()
      ensures |cells| == SIZE && |entries| == PAGES
      ensures UnmarkedDefault(entries[a / PAGE_SIZE]) ==> MarksCleared(ClearedBelow(cells, entries, PAGES), a)
      ensures !UnmarkedDefault(entries[a / PAGE_SIZE]) ==> !MarksCleared(ClearedBelow(cells, entries, PAGES), a)
    {
      assert CellHeld(a);
    }

    /** Resetting clears the access marks of all addresses exactly when no page that has not been
        built carries a mark in its default attribute. */
    lemma ResetExact()
      requires Valid()
      ensures (forall a: u32 :: MarksCleared(ClearedBelow(cells, entries, PAGES), a))
         <==> (forall p | 0 <= p < PAGES :: UnmarkedDefault(entries[p]))
    {
      hide Memory.TablesHoldEntries, Memory.EntriesHoldCells, ClearedBelow, Memory.MarksCleared, UnmarkedDefault;
      ClearedHere(0);
      if forall p | 0 <= p < PAGES :: UnmarkedDefault(entries[p]) {
        forall a: u32 ensures MarksCleared(ClearedBelow(cells, entries, PAGES), a) {
          ClearedHere(a);
        }
      } else {
        var p :| 0 <= p < PAGES && !UnmarkedDefault(entries[p]);
        ClearedHere(p * PAGE_SIZE);
      }
    }

    static function HeadEnd(start: u32, end: u32): int {
      var next := (start / PAGE_SIZE + 1) * PAGE_SIZE;
      if end as int + 1 <= next then end as int + 1 else next
    }

    /** The part of the range that begins inside a page, up to the end of that page. */
    method PaintHead(start0: u32, end: u32, perm: bv8) returns (start: u32)
      requires Valid() && start0 <= end && start0 % PAGE_SIZE != 0
      modifies Repr()
      ensures StillValid()
      ensures var upto := HeadEnd(start0, end);
              start == Wrap(upto) && Abs() == Vm(Painted(old(cells), start0, upto, perm), old(invalid))
    {
      hide Memory.TablesHoldEntries, Memory.EntriesHoldCells, Painted;
      start := start0;
      var idx := start % PAGE_SIZE;
      var page := LoadPage(start);
      PaintedBackwards(cells, start0, start0, perm);
      ghost var upto: int := start0;
      while idx < PAGE_SIZE && start <= end
        invariant StillValid() && Shows(page, start0 / PAGE_SIZE)
        invariant start0 % PAGE_SIZE <= idx <= PAGE_SIZE && upto == start0 / PAGE_SIZE * PAGE_SIZE + idx
        invariant start == Wrap(upto) && upto <= HeadEnd(start0, end)
        invariant Abs() == Vm(Painted(old(cells), start0, upto, perm), old(invalid))
      {
        PaintedOne(old(cells), start0, start, perm);
        PutAttr(page, start, perm);
        idx := idx + 1;
        start := Wrap(start + 1);
        upto := upto + 1;
      }
    }

    /** The first count bytes of the last page. */
    method PaintTail(start: u32, count: u32, perm: bv8)
      requires Valid() && start % PAGE_SIZE == 0 && count < PAGE_SIZE
      modifies Repr()
      ensures StillValid()
      ensures Abs() == Vm(Painted(old(cells), start, start + count, perm), old(invalid))
    {
      hide Memory.TablesHoldEntries, Memory.EntriesHoldCells;
      var page := LoadPage(start);
      var idx := 0;
      while idx < count
        invariant StillValid() && Shows(page, start / PAGE_SIZE) && 0 <= idx <= count
        invariant Abs() == Vm(Painted(old(cells), start, start + idx, perm), old(invalid))
      {
        PutAttr(page, start + idx, perm);
        idx := idx + 1;
      }
    }

    /** The whole pages of a range and the part of a page after them. */
    method PaintPages(start0: u32, end: u32, perm: bv8)
      requires Valid() && start0 <= end && start0 % PAGE_SIZE == 0
      modifies Repr()
      ensures StillValid()
      ensures Abs() == Vm(SetPermFlat(old(cells), start0, end, perm), old(invalid))
      ensures SetFrom(old(cells), cells, start0, end, perm)
    {
      hide Memory.TablesHoldEntries, Memory.EntriesHoldCells, Painted, SetFrom;
      Sizes();
      SetPermMeans(cells, start0, end, perm);
      var start := start0;
      PaintedBackwards(cells, start, start, perm);
      ghost var whole := false;
      while Wrap(end - start) >= PAGE_SIZE - 1
        invariant !whole && StillValid() && start % PAGE_SIZE == 0
        invariant start0 <= start <= end && (start == 0 <==> start0 == 0)
        invariant Abs() == Vm(Painted(old(cells), start0, start, perm), old(invalid))
        decreases end - start
      {
        PaintPage(start, perm);
        PaintedTwice(old(cells), start0, start, start + PAGE_SIZE, perm);
        if start == 0 {
          return;
        }
        if end - start == PAGE_SIZE - 1 {
          start, whole := Wrap(start + PAGE_SIZE), true;
          break;
        }
        start := Wrap(start + PAGE_SIZE);
      }
      if start > end {
        return;
      }
      if whole {
        PaintedBackwards(cells, 0, 0, perm);
      } else {
        PaintedTwice(old(cells), start0, start, end as int + 1, perm);
      }
      PaintTail(start, Wrap(end - start + 1), perm);
    }

    /** x86emu_set_perm: all 32-bit arithmetic of the source wraps. */
    method SetPerm(start0: u32, end: u32, perm: bv8)
      requires Valid()
      modifies Repr()
      ensures StillValid()
      ensures Abs() == Vm(SetPermFlat(old(cells), start0, end, perm), old(invalid))
    {
      hide Memory.TablesHoldEntries, Memory.EntriesHoldCells, Painted;
      var start := start0;
      if start > end {
        PaintedBackwards(cells, start, end as int + 1, perm);
        return;
      }
      if start % PAGE_SIZE != 0 {
        start := PaintHead(start, end, perm);
        if start == 0 || start > end {
          return;
        }
        PaintedTwice(old(cells), start0, start, end as int + 1, perm);
      }
      PaintPages(start, end, perm);
    }

    // ---- emu_mem_clone ------------------------------------------------------------------

    static method CopyPage(a: array<bv8>, d: array<byte>) returns (attr: array<bv8>, data: array<byte>)
      requires a.Length == d.Length == PAGE_SIZE
      ensures fresh(attr) && fresh(data) && attr as object != data
      ensures attr.Length == PAGE_SIZE && forall o | 0 <= o < PAGE_SIZE :: attr[o] == a[o]
      ensures data.Length == PAGE_SIZE && forall o | 0 <= o < PAGE_SIZE :: data[o] == d[o]
    {
      attr := new bv8[PAGE_SIZE](o requires 0 <= o < PAGE_SIZE reads a => a[o]);
      data := new byte[PAGE_SIZE](o requires 0 <= o < PAGE_SIZE reads d => d[o]);
    }

    /** Entry p of a clone becomes a copy of page, with arrays of its own. */
    method CopyEntry(table: array<Page>, p: nat, page: Page, ghost src: seq<Cell>)
      requires Valid() && p < PAGES == |entries| && entries[p].attr == null
      requires pdir != null && pdir.Length == 1024 && pdir[p / 1024] == table && table in tables
      requires page.attr != null ==> page.data != null && page.attr.Length == page.data.Length == PAGE_SIZE
      requires |src| == |cells| == SIZE && forall a: u32 :: a / PAGE_SIZE == p ==> src[a] == CellOf(page, a % PAGE_SIZE)
      modifies this`entries, this`cells, this`attrs, this`datas, this`attrOf, this`dataOf, table
      ensures Valid() && fresh(attrs - old(attrs)) && fresh(datas - old(datas))
      ensures old(attrs) <= attrs && old(datas) <= datas
      ensures |entries| == PAGES && entries == old(entries)[p := entries[p]]
      ensures cells == WithPage(old(cells), p, src)
    {
      hide Memory.TablesHoldEntries, Memory.EntriesHoldCells;
      if page.attr == null {
        ReplaceEntry(table, p, page.(data := null), src);
      } else {
        var attr, data := CopyPage(page.attr, page.data);
        assert forall o | 0 <= o < PAGE_SIZE :: CellOf(Page(attr, data, page.defAttr), o) == CellOf(page, o);
        ReplaceEntry(table, p, Page(attr, data, page.defAttr), src);
      }
    }

    /** A copy in progress: below page n it shows the cells of src, from there on nothing is written. */
    ghost predicate CopiedBelow(src: Memory, n: int)
      reads this, src
    {
      && 0 <= n <= PAGES && |cells| == |src.cells| == SIZE && |entries| == PAGES
      && (forall a: u32 :: cells[a] == if a / PAGE_SIZE < n then src.cells[a] else Cell(defAttr, 0))
      && (forall p | n <= p < PAGES :: entries[p] == Page(null, null, defAttr))
    }

    /** What the table entry of page p shows. */
    lemma EntryShows(p: nat)
      requires Valid() && p < PAGES && pdir != null
      ensures |cells| == SIZE && pdir.Length == 1024 && pdir in tables
      ensures var t := pdir[p / 1024];
              && (t != null ==> t in tables && t.Length == 1024)
              && var page := if t == null then Page(null, null, defAttr) else t[p % 1024];
              && (page.attr != null ==> page.data != null && page.attr.Length == page.data.Length == PAGE_SIZE)
              && (page.attr != null ==> page.attr in attrs && page.data in datas)
              && forall a: u32 :: a / PAGE_SIZE == p ==> cells[a] == CellOf(page, a % PAGE_SIZE)
    {
      assert TableOk(pdir[p / 1024], p / 1024);
      assert Entry(p) == entries[p] && PageOk(entries[p], p);
      forall a: u32 | a / PAGE_SIZE == p ensures cells[a] == CellOf(entries[p], a % PAGE_SIZE) {
        assert CellHeld(a);
      }
    }

    method StartTable(src: Memory, d: nat) returns (table: array<Page>)
      requires Valid() && src.Valid() && d < 1024 && Repr() !! src.Repr()
      requires CopiedBelow(src, d * 1024)
      modifies Repr()
      ensures StillValid() && invalid == old(invalid) && CopiedBelow(src, d * 1024)
      ensures pdir != null && pdir.Length == 1024 && pdir[d] == table && table in tables
    {
      hide Memory.TablesHoldEntries, Memory.EntriesHoldCells;
      table := GetTable(d);
      EntryShows(d * 1024);
    }

    /** One entry of emu_mem_clone. */
    method ClonePage(src: Memory, table: array<Page>, p: nat)
      requires Valid() && src.Valid() && p < PAGES && Repr() !! src.Repr()
      requires src.pdir != null && src.pdir.Length == 1024 && src.pdir[p / 1024] != null
      requires pdir != null && pdir.Length == 1024 && pdir[p / 1024] == table && table in tables
      requires CopiedBelow(src, p)
      modifies this`entries, this`cells, this`attrs, this`datas, this`attrOf, this`dataOf, table
      ensures Valid() && fresh(attrs - old(attrs)) && fresh(datas - old(datas))
      ensures old(attrs) <= attrs && old(datas) <= datas
      ensures CopiedBelow(src, p + 1)
    {
      hide Memory.TablesHoldEntries, Memory.EntriesHoldCells;
      src.EntryShows(p);
      CopyEntry(table, p, src.pdir[p / 1024][p % 1024], src.cells);
    }

    /** One table of emu_mem_clone. */
    method CloneTable(src: Memory, d: nat)
      requires Valid() && src.Valid() && d < 1024 && Repr() !! src.Repr()
      requires src.pdir != null && src.pdir.Length == 1024 && src.pdir[d] != null
      requires CopiedBelow(src, d * 1024)
      modifies Repr()
      ensures StillValid() && invalid == old(invalid) && CopiedBelow(src, (d + 1) * 1024)
    {
      hide Memory.TablesHoldEntries, Memory.EntriesHoldCells, Memory.CopiedBelow;
      src.EntryShows(d * 1024);
      var table := StartTable(src, d);
      for u := 0 to 1024
        invariant StillValid() && invalid == old(invalid)
        invariant pdir != null && pdir.Length == 1024 && pdir[d] == table && table in tables
        invariant src.pdir[d] != null && CopiedBelow(src, d * 1024 + u)
      {
        ClonePage(src, table, d * 1024 + u);
      }
    }

    lemma SkipTable(src: Memory, d: nat)
      requires src.Valid() && d < 1024 && src.pdir != null && src.pdir.Length == 1024 && src.pdir[d] == null
      requires CopiedBelow(src, d * 1024) && defAttr == src.defAttr
      ensures CopiedBelow(src, (d + 1) * 1024)
    {
      forall a: u32 | d * 1024 <= a / PAGE_SIZE < (d + 1) * 1024 ensures src.cells[a] == Cell(defAttr, 0) {
        src.EntryShows(a / PAGE_SIZE);
      }
    }

    lemma NoDirectory()
      requires Valid() && pdir == null
      ensures |cells| == SIZE && forall a: u32 :: cells[a] == Cell(defAttr, 0)
    {
      forall a: u32 ensures cells[a] == Cell(defAttr, 0) {
        assert CellHeld(a) && Entry(a / PAGE_SIZE) == entries[a / PAGE_SIZE];
      }
    }

    /** emu_mem_clone: the same abstract memory on storage of its own. */
    method Clone() returns (c: Memory)
      requires Valid()
      ensures c.Valid() && fresh(c.Repr()) && c.Abs() == Abs() && c.defAttr == defAttr
    {
      hide Memory.TablesHoldEntries, Memory.EntriesHoldCells;
      c := new Memory(defAttr);
      c.SetInvalid(invalid);
      if pdir == null {
        NoDirectory();
      } else {
        EntryShows(0);
        for d := 0 to 1024
          invariant c.Valid() && fresh(c.Repr()) && c.defAttr == defAttr && c.invalid == invalid
          invariant c.CopiedBelow(this, d * 1024)
        {
          if pdir[d] != null {
            c.CloneTable(this, d);
          } else {
            c.SkipTable(this, d);
          }
        }
      }
      assert c.cells == cells;
    }

    /** vm_memio without port accesses: clears the error flag, dispatches, and returns the flag. */
    method Memio(kind: Kind, bits: Bits, addr: u32, val0: u32) returns (val: u32, err: bool)
      requires Valid()
      modifies Repr()
      ensures StillValid()
      ensures (Abs(), val) == MemioFlat(old(Abs()), Access(kind, bits, addr, val0))
      ensures err == Abs().invalid
      ensures Performed(old(Abs()).(invalid := false), Abs(), kind, bits, addr, val0, val)
      ensures DwordResult(old(Abs()), Abs(), kind, bits, addr, val0, val, err)
    {
      hide Memory.TablesHoldEntries, Memory.EntriesHoldCells, Performed, DwordResult;
      hide ReadByte, ReadWord, ReadDword, WriteByte, WriteWord, WriteDword, Written;
      MemioPerforms(Abs(), Access(kind, bits, addr, val0));
      SetInvalid(false);
      val := val0;
      match (kind, bits) {
        case (R, B8) => val := RByte(addr);
        case (R, B16) => val := RWord(addr);
        case (R, B32) => val := RDword(addr);
        case (R, B8NoPerm) => val := RByteNoperm(addr);
        case (W, B8) => WByte(addr, val % 0x100);
        case (W, B16) => WWord(addr, val);
        case (W, B32) => WDword(addr, val);
        case (W, B8NoPerm) => WByteNoperm(addr, val % 0x100);
        case (X, B8) => val := XByte(addr);
        case (X, B16) => val := XWord(addr);
        case (X, B32) => val := XDword(addr);
        case (X, B8NoPerm) =>
      }
      err := invalid;
      Performs32(old(Abs()), Abs(), kind, bits, addr, val0, val);
    }

    /** Any sequence of accesses, each through the page table, is that sequence on the flat memory. */
    method RunAccesses(run: seq<Access>)
      requires Valid()
      modifies Repr()
      ensures StillValid()
      ensures Abs() == RunFlat(old(Abs()), run)
    {
      hide Memory.TablesHoldEntries, Memory.EntriesHoldCells, MemioFlat;
      for i := 0 to |run|
        invariant StillValid()
        invariant RunFlat(Abs(), run[i..]) == RunFlat(old(Abs()), run)
      {
        var a := run[i];
        assert run[i..][0] == a && run[i..][1..] == run[i + 1..];
        var val, err := Memio(a.kind, a.bits, a.addr, a.val);
      }
    }
  }

  /** A clone and its original run apart: each then is what its own accesses make of the memory that
      was cloned. */
  method CloneThenRun(m: Memory, run: seq<Access>, run': seq<Access>) returns (c: Memory)
    requires m.Valid()
    modifies m.Repr()
    ensures m.Valid() && c.Valid() && m.Repr() !! c.Repr() && fresh(c)
    ensures m.Abs() == RunFlat(old(m.Abs()), run) && c.Abs() == RunFlat(old(m.Abs()), run')
  {
    hide Memory.TablesHoldEntries, Memory.EntriesHoldCells, RunFlat;
    c := m.Clone();
    m.RunAccesses(run);
    c.RunAccesses(run');
  }

  // ---- what a run of accesses keeps -----------------------------------------------------

  /** Marks are only added: permissions stay as they are and an initialized byte stays so. */
  predicate AttrKept(was: bv8, now: bv8) {
    now & 0x07 == was & 0x07 && (was & PERM_VALID != 0 ==> now & PERM_VALID != 0)
  }

  /** A byte may change its data only by a store, and only with write permission or by a store that
      asks for none. */
  predicate CellKept(was: Cell, now: Cell, noperm: bool) {
    AttrKept(was.attr, now.attr) && (now.data != was.data ==> was.attr & PERM_W != 0 || noperm)
  }

  ghost predicate Kept(v: Flat, w: Flat, noperm: bool) {
    forall a: u32 :: CellKept(v.cells[a], w.cells[a], noperm)
  }

  lemma AttrKeptOr(was: bv8, m: bv8)
    requires m & 0x07 == 0
    ensures AttrKept(was, was | m)
  {
  }

  lemma CellKeptTrans(c1: Cell, c2: Cell, c3: Cell, noperm: bool)
    requires CellKept(c1, c2, noperm) && CellKept(c2, c3, noperm)
    ensures CellKept(c1, c3, noperm)
  {
    assert c2.attr & 0x07 == c1.attr & 0x07 ==> (c2.attr & PERM_W != 0 <==> c1.attr & PERM_W != 0);
  }

  lemma KeptTrans(u: Flat, v: Flat, w: Flat, noperm: bool)
    requires Kept(u, v, noperm) && Kept(v, w, noperm)
    ensures Kept(u, w, noperm)
  {
    hide CellKept;
    forall a: u32 ensures CellKept(u.cells[a], w.cells[a], noperm) {
      CellKeptTrans(u.cells[a], v.cells[a], w.cells[a], noperm);
    }
  }

  lemma ReadByteKeeps(v: Flat, a: u32, perm: bv8, acc: bv8, noperm: bool)
    requires acc == ACC_R || acc == ACC_X
    ensures Kept(v, ReadByte(v, a, perm, acc).0, noperm)
  {
    AttrKeptOr(v.cells[a].attr, acc);
    AttrKeptOr(v.cells[a].attr | acc, ACC_INVALID);
    CellKeptTrans(v.cells[a], Marked(v.cells[a], acc), Marked(Marked(v.cells[a], acc), ACC_INVALID), noperm);
    assert forall c: Cell :: AttrKept(c.attr, c.attr);
  }

  lemma WriteByteKeeps(v: Flat, a: u32, val: byte, noperm: bool)
    ensures Kept(v, WriteByte(v, a, val), noperm)
    ensures Kept(v, Written(v, a, val), true)
  {
    AttrKeptOr(v.cells[a].attr, ACC_INVALID);
    AttrKeptOr(v.cells[a].attr, PERM_VALID | ACC_W);
    MarkWritten(v.cells[a].attr);
    assert forall c: Cell :: AttrKept(c.attr, c.attr);
  }

  lemma ReadWordKeeps(v: Flat, a: u32, perm: bv8, acc: bv8, noperm: bool)
    requires acc == ACC_R || acc == ACC_X
    ensures Kept(v, ReadWord(v, a, perm, acc).0, noperm)
  {
    hide ReadByte, Kept;
    ReadByteKeeps(v, a, perm, acc, noperm);
    var v1 := ReadByte(v, a, perm, acc).0;
    ReadByteKeeps(v1, Wrap(a + 1), perm, acc, noperm);
    KeptTrans(v, v1, ReadByte(v1, Wrap(a + 1), perm, acc).0, noperm);
  }

  lemma WriteWordKeeps(v: Flat, a: u32, val: u32, noperm: bool)
    ensures Kept(v, WriteWord(v, a, val), noperm)
  {
    hide WriteByte, Kept;
    WriteByteKeeps(v, a, val % 0x100, noperm);
    var v1 := WriteByte(v, a, val % 0x100);
    WriteByteKeeps(v1, Wrap(a + 1), val / 0x100 % 0x100, noperm);
    KeptTrans(v, v1, WriteWord(v, a, val), noperm);
  }

  lemma ReadDwordKeeps(v: Flat, a: u32, perm: bv8, acc: bv8, noperm: bool)
    requires acc == ACC_R || acc == ACC_X
    ensures Kept(v, ReadDword(v, a, perm, acc).0, noperm)
  {
    hide ReadWord, Kept;
    ReadWordKeeps(v, a, perm, acc, noperm);
    var v1 := ReadWord(v, a, perm, acc).0;
    ReadWordKeeps(v1, Wrap(a + 2), perm, acc, noperm);
    KeptTrans(v, v1, ReadWord(v1, Wrap(a + 2), perm, acc).0, noperm);
  }

  lemma WriteDwordKeeps(v: Flat, a: u32, val: u32, noperm: bool)
    ensures Kept(v, WriteDword(v, a, val), noperm)
  {
    hide WriteWord, Kept;
    WriteWordKeeps(v, a, val, noperm);
    var v1 := WriteWord(v, a, val);
    WriteWordKeeps(v1, Wrap(a + 2), val / 0x1_0000, noperm);
    KeptTrans(v, v1, WriteDword(v, a, val), noperm);
  }

  lemma KeptRefl(v: Flat, w: Flat, noperm: bool)
    requires v.cells == w.cells
    ensures Kept(v, w, noperm)
  {
  }

  lemma MemioKeeps(v0: Flat, a: Access, noperm: bool)
    requires a.kind.W? && a.bits.B8NoPerm? ==> noperm
    ensures Kept(v0, MemioFlat(v0, a).0, noperm)
  {
    hide ReadByte, ReadWord, WriteByte, WriteWord, Written, Kept;
    var v := v0.(invalid := false);
    KeptRefl(v0, v, noperm);
    match (a.kind, a.bits) {
      case (R, B8) => ReadByteKeeps(v, a.addr, PERM_R, ACC_R, noperm);
      case (R, B16) => ReadWordKeeps(v, a.addr, PERM_R, ACC_R, noperm);
      case (R, B32) => ReadDwordKeeps(v, a.addr, PERM_R, ACC_R, noperm);
      case (R, B8NoPerm) => KeptRefl(v, v, noperm);
      case (W, B8) => WriteByteKeeps(v, a.addr, a.val % 0x100, noperm);
      case (W, B16) => WriteWordKeeps(v, a.addr, a.val, noperm);
      case (W, B32) => WriteDwordKeeps(v, a.addr, a.val, noperm);
      case (W, B8NoPerm) => WriteByteKeeps(v, a.addr, a.val % 0x100, noperm);
      case (X, B8) => ReadByteKeeps(v, a.addr, PERM_X, ACC_X, noperm);
      case (X, B16) => ReadWordKeeps(v, a.addr, PERM_X, ACC_X, noperm);
      case (X, B32) => ReadDwordKeeps(v, a.addr, PERM_X, ACC_X, noperm);
      case (X, B8NoPerm) => KeptRefl(v, v, noperm);
    }
    KeptTrans(v0, v, MemioFlat(v0, a).0, noperm);
  }

  predicate NoPermStores(run: seq<Access>) {
    exists i | 0 <= i < |run| :: run[i].kind.W? && run[i].bits.B8NoPerm?
  }

  lemma {:induction false} RunKeeps(v: Flat, run: seq<Access>, noperm: bool)
    requires NoPermStores(run) ==> noperm
    ensures Kept(v, RunFlat(v, run), noperm)
    decreases |run|
  {
    hide MemioFlat, Kept;
    if run == [] {
      KeptRefl(v, v, noperm);
    } else {
      MemioKeeps(v, run[0], noperm);
      var w := MemioFlat(v, run[0]).0;
      assert forall i | 0 <= i < |run| - 1 :: run[1..][i] == run[i + 1];
      RunKeeps(w, run[1..], noperm);
      KeptTrans(v, w, RunFlat(v, run), noperm);
    }
  }

  /** Over any run of accesses the read, write and execute permissions of every byte stay as they were,
      an initialized byte stays initialized, and a byte without write permission keeps its data unless
      the run has a store that asks for no permission. */
  lemma {:induction false} RunKeepsPermissions(v: Flat, run: seq<Access>)
    ensures Kept(v, RunFlat(v, run), NoPermStores(run))
    decreases |run|
  {
    RunKeeps(v, run, NoPermStores(run));
  }

  // ---- when an access fails, and what it reads and writes ---------------------------------

  /** One byte access: its effect on the error flag, the data and every other cell. */
  lemma ByteRead(v: Flat, a: u32, perm: bv8, acc: bv8)
    ensures var (w, b) := ReadByte(v, a, perm, acc);
            && (w.invalid <==> v.invalid || BadRead(v.cells[a], perm))
            && (v.cells[a].attr & perm != 0 ==> b == v.cells[a].data)
            && (forall x: u32 :: w.cells[x].data == v.cells[x].data && (x != a ==> w.cells[x] == v.cells[x]))
  {
  }

  lemma ByteWritten(v: Flat, a: u32, b: byte)
    ensures var w := WriteByte(v, a, b);
            && (w.invalid <==> v.invalid || !Writable(v, a))
            && (forall x: u32 :: x != a ==> w.cells[x] == v.cells[x])
            && w.cells[a].data == if Writable(v, a) then b else v.cells[a].data
  {
  }

  lemma WrapsApart(a: u32)
    ensures var a1, a2, a3 := Wrap(a + 1), Wrap(a + 2), Wrap(a + 3);
            a != a1 && a != a2 && a != a3 && a1 != a2 && a1 != a3 && a2 != a3
  {
  }

  /** A dword read changes no data, raises the error flag exactly when one of its four bytes is not
      readable or not initialized, and with read permission on all four returns the little-endian
      value, across pages and across the end of the address space. */
  lemma DwordRead(v: Flat, a: u32, perm: bv8, acc: bv8)
    ensures var (w, val) := ReadDword(v, a, perm, acc);
            && (w.invalid <==> v.invalid || SomeOf4(a, (x: u32) => BadRead(v.cells[x], perm)))
            && Data(w) == Data(v)
            && (AllOf4(a, (x: u32) => v.cells[x].attr & perm != 0) ==> val == Dword(Data(v), a))
  {
    hide ReadByte, BadRead, ReadDword;
    BytesMakeDword(v, a, perm, acc);
    WrapsApart(a);
    var a1, a2, a3 := Wrap(a + 1), Wrap(a + 2), Wrap(a + 3);
    var (v1, b0) := ReadByte(v, a, perm, acc);
    var (v2, b1) := ReadByte(v1, a1, perm, acc);
    var (v3, b2) := ReadByte(v2, a2, perm, acc);
    var (v4, b3) := ReadByte(v3, a3, perm, acc);
    ByteRead(v, a, perm, acc);
    ByteRead(v1, a1, perm, acc);
    ByteRead(v2, a2, perm, acc);
    ByteRead(v3, a3, perm, acc);
    DwordBytes(Data(v), a);
  }

  lemma DwordOffset(x: u32, a: u32)
    ensures Wrap(x - a) == 0 <==> x == a
    ensures Wrap(x - a) == 1 <==> x == Wrap(a + 1)
    ensures Wrap(x - a) == 2 <==> x == Wrap(a + 2)
    ensures Wrap(x - a) == 3 <==> x == Wrap(a + 3)
  {
  }

  lemma DwordBytesPut(m: Mem, a: u32, b0: byte, b1: byte, b2: byte, b3: byte)
    ensures m[a := b0][Wrap(a + 1) := b1][Wrap(a + 2) := b2][Wrap(a + 3) := b3] == Put(m, a, [b0, b1, b2, b3])
  {
    var l, r := m[a := b0][Wrap(a + 1) := b1][Wrap(a + 2) := b2][Wrap(a + 3) := b3], Put(m, a, [b0, b1, b2, b3]);
    WrapsApart(a);
    forall x: int | 0 <= x < SIZE ensures l[x] == r[x] {
      DwordOffset(x, a);
    }
  }

  lemma SameWritable(v: Flat, w: Flat, a: u32)
    requires v.cells[a] == w.cells[a]
    ensures Writable(v, a) == Writable(w, a)
  {
  }

  /** A dword write fails exactly when one of its four bytes is not writable; with all four writable it
      is the flat little-endian store. */
  lemma DwordWritten(v: Flat, a: u32, val: u32)
    ensures var w := WriteDword(v, a, val);
            && (w.invalid <==> v.invalid || SomeOf4(a, (x: u32) => !Writable(v, x)))
            && (AllOf4(a, (x: u32) => Writable(v, x)) ==> Data(w) == PutDword(Data(v), a, val))
  {
    hide WriteByte, Writable, WriteDword;
    DwordIsBytes(v, a, val);
    var b := LE4(val);
    WrapsApart(a);
    var a1, a2, a3 := Wrap(a + 1), Wrap(a + 2), Wrap(a + 3);
    var v1 := WriteByte(v, a, b[0]);
    var v2 := WriteByte(v1, a1, b[1]);
    var v3 := WriteByte(v2, a2, b[2]);
    var v4 := WriteByte(v3, a3, b[3]);
    ByteWritten(v, a, b[0]);
    ByteWritten(v1, a1, b[1]);
    ByteWritten(v2, a2, b[2]);
    ByteWritten(v3, a3, b[3]);
    SameWritable(v, v1, a1); SameWritable(v, v1, a2); SameWritable(v, v1, a3);
    SameWritable(v1, v2, a2); SameWritable(v1, v2, a3); SameWritable(v2, v3, a3);
    if AllOf4(a, (x: u32) => Writable(v, x)) {
      DwordBytesPut(Data(v), a, b[0], b[1], b[2], b[3]);
      assert Data(v4) == Data(v)[a := b[0]][a1 := b[1]][a2 := b[2]][a3 := b[3]];
    }
  }

  /** x86emu_set_perm meets its promise, the attribute of exactly start .. end, unless the range is a
      page or more at address 0 and goes beyond that page with some other attribute there. */
  lemma SetPermExact(cells: seq<Cell>, start: u32, end: u32, perm: bv8)
    requires |cells| == SIZE && start <= end
    ensures SetPermFlat(cells, start, end, perm) == Painted(cells, start, end as int + 1, perm) <==>
            start > 0 || end < PAGE_SIZE || forall a | PAGE_SIZE <= a <= end :: cells[a].attr == perm
  {
    var l, r := SetPermFlat(cells, start, end, perm), Painted(cells, start, end as int + 1, perm);
    if start == 0 && end >= PAGE_SIZE {
      if forall a | PAGE_SIZE <= a <= end :: cells[a].attr == perm {
        assert l == r;
      } else {
        var a :| PAGE_SIZE <= a <= end && cells[a].attr != perm;
        assert l[a] != r[a];
      }
    }
  }

  /** A new memory whose first two pages are to be made readable. A read of the first succeeds, one of
      the second does not: its attribute is not the one that was asked for. */
  method SetPermExample() returns (first: bool, second: bool)
    ensures !first && second
    ensures var cells := seq(SIZE, _ => Cell(0, 0));
      SetPermFlat(cells, 0, 0x1fff, PERM_R | PERM_VALID) != Painted(cells, 0, 0x2000, PERM_R | PERM_VALID)
  {
    hide Memory.TablesHoldEntries, Memory.EntriesHoldCells, Memory.Repr;
    ghost var cells := seq(SIZE, _ => Cell(0, 0));
    SetPermExact(cells, 0, 0x1fff, PERM_R | PERM_VALID);
    assert cells[PAGE_SIZE].attr != PERM_R | PERM_VALID;
    var val;
    var mem := new Memory(0);
    mem.SetPerm(0, 0x1fff, PERM_R | PERM_VALID);
    val, first := mem.Memio(R, B8, 0, 0);
    val, second := mem.Memio(R, B8, 0x1000, 0);
  }

  /** A new memory whose default attribute carries a read mark: resetting the marks leaves it there. */
  method ResetExample() returns (mem: Memory)
    ensures fresh(mem) && mem.Valid() && mem.Abs() == Vm(seq(SIZE, _ => Cell(PERM_R | ACC_R, 0)), false)
    ensures forall p | 0 <= p < PAGES :: !UnmarkedDefault(mem.entries[p])
  {
    mem := new Memory(PERM_R | ACC_R);
    mem.ResetAccessStats();
  }
}
