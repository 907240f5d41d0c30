/** The bump heap of x86utm.cpp and the two containers built on it: Allocate hands out consecutive
    blocks with an 8-byte header (capacity, then size in bytes), PushBack appends records to a block
    from below, StackPush pushes dwords from its upper end. */
module Heap {
  import opened FlatMemory

  /** What a block holds: the bytes of the records pushed back, or the dwords pushed on the stack. */
  datatype Content = Vector(bytes: seq<byte>) | Stack(words: seq<u32>)

  datatype Block = Block(data: int, capacity: nat, content: Content)

  function Used(c: Content): nat {
    match c
    case Vector(bytes) => |bytes|
    case Stack(words) => 4 * |words|
  }

  /** A stack in memory order: the latest push first. */
  function StackBytes(words: seq<u32>): (b: seq<byte>)
    ensures |b| == 4 * |words|
  {
    if words == [] then [] else LE4(words[|words| - 1]) + StackBytes(words[..|words| - 1])
  }

  function ContentAt(b: Block): int {
    match b.content
    case Vector(_) => b.data
    case Stack(_) => b.data + b.capacity - Used(b.content)
  }

  function ContentBytes(c: Content): (b: seq<byte>)
    ensures |b| == Used(c)
  {
    match c
    case Vector(bytes) => bytes
    case Stack(words) => StackBytes(words)
  }

  /** Memory holds the block: its header, and its content at the proper end. */
  ghost predicate Holds(m: Mem, b: Block) {
    && Dword(m, b.data - 8) == b.capacity
    && Dword(m, b.data - 4) == Used(b.content) <= b.capacity
    && Get(m, ContentAt(b), Used(b.content)) == ContentBytes(b.content)
  }

  function End(b: Block): int {
    b.data + b.capacity
  }

  /** Where the next block would start. */
  function Top(base: int, blocks: seq<Block>): int {
    if blocks == [] then base else End(blocks[|blocks| - 1])
  }

  ghost predicate StartsAt(base: int, blocks: seq<Block>, i: nat)
    requires i < |blocks|
  {
    blocks[i].data - 8 == Top(base, blocks[..i])
  }

  /** Each block's header starts where the block before it ends. */
  ghost predicate Chained(base: int, blocks: seq<Block>) {
    forall i :: 0 <= i < |blocks| ==> StartsAt(base, blocks, i)
  }

  /** The bytes handed out, headers included. */
  function Total(blocks: seq<Block>): nat {
    if blocks == [] then 0 else Total(blocks[..|blocks| - 1]) + blocks[|blocks| - 1].capacity + 8
  }

  lemma ChainedPrefix(base: int, blocks: seq<Block>, n: nat)
    requires Chained(base, blocks) && n <= |blocks|
    ensures Chained(base, blocks[..n])
  {
    forall i | 0 <= i < n ensures StartsAt(base, blocks[..n], i) {
      assert StartsAt(base, blocks, i);
      assert blocks[..n][..i] == blocks[..i];
    }
  }

  /** The heap pointer has advanced by the sum of all sizes and headers. */
  lemma {:induction false} TopIsTotal(base: int, blocks: seq<Block>)
    requires Chained(base, blocks)
    ensures Top(base, blocks) == base + Total(blocks)
    decreases |blocks|
  {
    if blocks != [] {
      var n := |blocks| - 1;
      assert StartsAt(base, blocks, n);
      ChainedPrefix(base, blocks, n);
      TopIsTotal(base, blocks[..n]);
    }
  }

  /** Blocks with their headers are in order and disjoint, and inside the heap. */
  lemma {:induction false} BlocksDisjoint(base: int, blocks: seq<Block>, i: nat, j: nat)
    requires Chained(base, blocks) && i < j < |blocks|
    ensures End(blocks[i]) <= blocks[j].data - 8
    decreases j
  {
    assert StartsAt(base, blocks, j);
    if i < j - 1 { BlocksDisjoint(base, blocks, i, j - 1); }
  }

  lemma {:induction false} BlockInside(base: int, blocks: seq<Block>, i: nat)
    requires Chained(base, blocks) && i < |blocks|
    ensures base <= blocks[i].data - 8 && End(blocks[i]) <= Top(base, blocks)
    decreases i
  {
    assert StartsAt(base, blocks, i);
    if i > 0 { BlockInside(base, blocks, i - 1); BlocksDisjoint(base, blocks, i - 1, i); }
    if i < |blocks| - 1 { BlocksDisjoint(base, blocks, i, |blocks| - 1); }
  }

  // ---- memory -----------------------------------------------------------------------------

  lemma PartKept(m: Mem, m': Mem, a: int, n: nat, k: nat, j: nat)
    requires Get(m, a, n) == Get(m', a, n) && k + j <= n
    ensures Get(m, a + k, j) == Get(m', a + k, j)
  {
    hide Get;
    GetSplit(m, a, n, k); GetSplit(m, a + k, n - k, j);
    GetSplit(m', a, n, k); GetSplit(m', a + k, n - k, j);
  }

  /** A block is held wherever its bytes, header included, are the same. */
  lemma HoldsFrame(m: Mem, m': Mem, b: Block)
    requires Holds(m, b) && Get(m, b.data - 8, b.capacity + 8) == Get(m', b.data - 8, b.capacity + 8)
    ensures Holds(m', b)
  {
    hide Get, Val4, ContentBytes;
    PartKept(m, m', b.data - 8, b.capacity + 8, 0, 4);
    PartKept(m, m', b.data - 8, b.capacity + 8, 4, 4);
    PartKept(m, m', b.data - 8, b.capacity + 8, ContentAt(b) - (b.data - 8), Used(b.content));
  }

  /** A write outside a block leaves it alone. */
  lemma OthersKept(m: Mem, a: int, bytes: seq<byte>, b: Block)
    requires Holds(m, b) && 8 <= b.data && End(b) <= SIZE
    requires 0 <= a && a + |bytes| <= SIZE && (a + |bytes| <= b.data - 8 || End(b) <= a)
    ensures Holds(Put(m, a, bytes), b)
  {
    hide Get, Put, Holds, Apart;
    LinearApart(a, |bytes|, b.data - 8, b.capacity + 8);
    GetPutApart(m, a, bytes, b.data - 8, b.capacity + 8);
    HoldsFrame(m, Put(m, a, bytes), b);
  }

  lemma DwordKept(m: Mem, a: int, bytes: seq<byte>, b: int)
    requires 0 <= b && b + 4 <= SIZE && 0 <= a && a + |bytes| <= SIZE && (a + |bytes| <= b || b + 4 <= a)
    ensures Dword(Put(m, a, bytes), b) == Dword(m, b)
  {
    hide Get, Put, Apart;
    LinearApart(a, |bytes|, b, 4);
    GetPutApart(m, a, bytes, b, 4);
  }

  // ---- events -----------------------------------------------------------------------------

  /** What has happened to the heap: a block handed out, a record pushed back, a dword pushed. */
  datatype Event = Allocated(size: nat) | PushedBack(i: nat, record: seq<byte>) | Pushed(i: nat, word: u32)

  function Bytes(c: Content): seq<byte> {
    if c.Vector? then c.bytes else []
  }

  function Words(c: Content): seq<u32> {
    if c.Stack? then c.words else []
  }

  /** A block is used as a vector or as a stack; an empty one can become either. */
  predicate Possible(blocks: seq<Block>, e: Event) {
    match e
    case Allocated(_) => true
    case PushedBack(i, record) =>
      i < |blocks| && (blocks[i].content.Vector? || Used(blocks[i].content) == 0)
    case Pushed(i, _) =>
      i < |blocks| && (blocks[i].content.Stack? || Used(blocks[i].content) == 0)
  }

  function AfterEvent(base: int, blocks: seq<Block>, e: Event): seq<Block>
    requires Possible(blocks, e)
  {
    match e
    case Allocated(size) => blocks + [Block(Top(base, blocks) + 8, size, Vector([]))]
    case PushedBack(i, record) => blocks[i := blocks[i].(content := Vector(Bytes(blocks[i].content) + record))]
    case Pushed(i, word) => blocks[i := blocks[i].(content := Stack(Words(blocks[i].content) + [word]))]
  }

  // ---- the heap in memory -----------------------------------------------------------------

  ghost predicate AllHeld(m: Mem, blocks: seq<Block>) {
    forall i :: 0 <= i < |blocks| ==> Holds(m, blocks[i])
  }

  /** The two heap variables lie below the heap, the heap pointer is at the end of the last block, and
      memory holds every block. */
  ghost predicate Layout(m: Mem, ptrVar: int, endVar: int, base: int, end: int, blocks: seq<Block>) {
    && 0 <= ptrVar && ptrVar + 4 <= base && 0 <= endVar && endVar + 4 <= base
    && (ptrVar + 4 <= endVar || endVar + 4 <= ptrVar)
    && Top(base, blocks) <= end < 0x8000_0000
    && Dword(m, ptrVar) as int == Top(base, blocks) && Dword(m, endVar) as int == end
    && Chained(base, blocks)
    && AllHeld(m, blocks)
  }

  /** Memory after a successful Allocate. */
  function AllocateMem(m: Mem, ptrVar: int, top: int, size: u32): Mem {
    PutDword(PutDword(PutDword(m, ptrVar, Wrap(top + size + 8)), top, size), top + 4, 0)
  }

  lemma NewBlockHeld(m: Mem, top: int, size: u32)
    requires 0 <= top && top + 8 <= SIZE
    ensures Holds(PutDword(PutDword(m, top, size), top + 4, 0), Block(top + 8, size, Vector([])))
  {
    hide Put, Get, Val4, LE4;
    DwordPutDword(m, top, size);
    DwordKept(PutDword(m, top, size), top + 4, LE4(0), top);
    DwordPutDword(PutDword(m, top, size), top + 4, 0);
  }

  lemma AppendChained(base: int, blocks: seq<Block>, b: Block)
    requires Chained(base, blocks) && b.data - 8 == Top(base, blocks)
    ensures Chained(base, blocks + [b])
  {
    forall i | 0 <= i <= |blocks| ensures StartsAt(base, blocks + [b], i) {
      if i < |blocks| {
        assert StartsAt(base, blocks, i);
        assert (blocks + [b])[..i] == blocks[..i];
      } else {
        assert (blocks + [b])[..i] == blocks;
      }
    }
  }

  /** Allocation appends an empty block at the old heap pointer. */
  lemma AllocateLayout(m: Mem, ptrVar: int, endVar: int, base: int, end: int, blocks: seq<Block>, size: u32)
    requires Layout(m, ptrVar, endVar, base, end, blocks)
    requires Top(base, blocks) + size + 8 <= end
    ensures var m' := AllocateMem(m, ptrVar, Top(base, blocks), size);
      Layout(m', ptrVar, endVar, base, end, AfterEvent(base, blocks, Allocated(size)))
  {
    hide Put, Get, Holds, Dword, LE4;
    var top := Top(base, blocks);
    var blocks' := AfterEvent(base, blocks, Allocated(size));
    TopIsTotal(base, blocks);
    var m1 := PutDword(m, ptrVar, Wrap(top + size + 8));
    var m2 := PutDword(m1, top, size);
    var m3 := PutDword(m2, top + 4, 0);
    DwordPutDword(m, ptrVar, Wrap(top + size + 8));
    DwordKept(m1, top, LE4(size), ptrVar); DwordKept(m2, top + 4, LE4(0), ptrVar);
    DwordKept(m, ptrVar, LE4(Wrap(top + size + 8)), endVar);
    DwordKept(m1, top, LE4(size), endVar); DwordKept(m2, top + 4, LE4(0), endVar);
    NewBlockHeld(m1, top, size);
    forall i | 0 <= i < |blocks'| ensures Holds(m3, blocks'[i]) {
      if i < |blocks| {
        BlockInside(base, blocks, i);
        OthersKept(m, ptrVar, LE4(Wrap(top + size + 8)), blocks[i]);
        OthersKept(m1, top, LE4(size), blocks[i]);
        OthersKept(m2, top + 4, LE4(0), blocks[i]);
      }
    }
    AppendChained(base, blocks, blocks'[|blocks|]);
  }

  /** The u32 sum in Allocate: an accepted block lies inside the heap exactly when the sum does not
      wrap around. */
  lemma AcceptedInside(top: u32, end: u32, size: u32)
    requires top <= end && Wrap(top + size + 8) <= end
    ensures top + size + 8 <= end <==> top + size + 8 < SIZE
  {
  }

  lemma LayoutVariables(m: Mem, ptrVar: int, endVar: int, base: int, end: int, blocks: seq<Block>)
    requires Layout(m, ptrVar, endVar, base, end, blocks)
    ensures Dword(m, ptrVar) as int == Top(base, blocks) <= end < 0x8000_0000 && Dword(m, endVar) as int == end
    ensures 0 <= base <= Top(base, blocks)
  {
    hide Dword;
    TopIsTotal(base, blocks);
  }

  lemma ReplaceChained(base: int, blocks: seq<Block>, i: nat, b: Block)
    requires Chained(base, blocks) && i < |blocks|
    requires b.data == blocks[i].data && b.capacity == blocks[i].capacity
    ensures Chained(base, blocks[i := b]) && Top(base, blocks[i := b]) == Top(base, blocks)
  {
    var blocks' := blocks[i := b];
    forall j | 0 <= j < |blocks'| ensures StartsAt(base, blocks', j) {
      assert StartsAt(base, blocks, j);
      if j > 0 {
        assert blocks'[..j][j - 1] == blocks'[j - 1];
      }
    }
  }

  /** Writing bytes into block i and its new size leaves everything else in place. */
  lemma ReplaceLayout(m: Mem, ptrVar: int, endVar: int, base: int, end: int, blocks: seq<Block>,
                      i: nat, b: Block, a: int, bytes: seq<byte>)
    requires Layout(m, ptrVar, endVar, base, end, blocks) && i < |blocks|
    requires b.data == blocks[i].data && b.capacity == blocks[i].capacity
    requires b.data <= a && a + |bytes| <= End(b)
    requires var m' := PutDword(Put(m, a, bytes), b.data - 4, Wrap(Used(b.content))); Holds(m', b)
    ensures var m' := PutDword(Put(m, a, bytes), b.data - 4, Wrap(Used(b.content)));
      Layout(m', ptrVar, endVar, base, end, blocks[i := b])
  {
    hide Put, Get, Holds, Dword, LE4, Used, Chained;
    var size := LE4(Wrap(Used(b.content)));
    var m1 := Put(m, a, bytes);
    var m' := Put(m1, b.data - 4, size);
    BlockInside(base, blocks, i);
    DwordKept(m, a, bytes, ptrVar); DwordKept(m1, b.data - 4, size, ptrVar);
    DwordKept(m, a, bytes, endVar); DwordKept(m1, b.data - 4, size, endVar);
    ReplaceChained(base, blocks, i, b);
    var blocks' := blocks[i := b];
    forall j | 0 <= j < |blocks'| ensures Holds(m', blocks'[j]) {
      if j != i {
        BlockInside(base, blocks, j);
        if j < i { BlocksDisjoint(base, blocks, j, i); } else { BlocksDisjoint(base, blocks, i, j); }
        OthersKept(m, a, bytes, blocks[j]);
        OthersKept(m1, b.data - 4, size, blocks[j]);
      }
    }
  }

  /** What the copying loop copies for a record of n bytes: whole dwords. */
  function RoundUp(n: nat): nat {
    (n + 3) / 4 * 4
  }

  /** Memory after the bytes, of which the first n count, have been appended to a vector block. */
  function PushBackMem(m: Mem, b: Block, bytes: seq<byte>, n: nat): Mem {
    PutDword(Put(m, b.data + Used(b.content), bytes), b.data - 4, Wrap(Used(b.content) + n))
  }

  lemma EmptyContent(m: Mem, b: Block)
    requires Holds(m, b) && (b.content.Vector? || Used(b.content) == 0)
    ensures |Bytes(b.content)| == Used(b.content) && Get(m, b.data, Used(b.content)) == Bytes(b.content)
  {
  }

  lemma PushBackHeld(m: Mem, b: Block, bytes: seq<byte>, n: nat)
    requires Holds(m, b) && (b.content.Vector? || Used(b.content) == 0) && n <= |bytes|
    requires 8 <= b.data && End(b) < 0x8000_0000 && Used(b.content) + |bytes| <= b.capacity
    ensures Holds(PushBackMem(m, b, bytes, n), b.(content := Vector(Bytes(b.content) + bytes[..n])))
  {
    hide Put, Get, LE4, Val4, Apart;
    var was := Bytes(b.content);
    var m1 := Put(m, b.data + |was|, bytes);
    var size := LE4(Wrap(|was| + n));
    DwordKept(m, b.data + |was|, bytes, b.data - 8);
    DwordKept(m1, b.data - 4, size, b.data - 8);
    DwordPutDword(m1, b.data - 4, Wrap(|was| + n));
    GetPutSame(m, b.data + |was|, bytes);
    GetSplit(m1, b.data + |was|, |bytes|, n);
    LinearApart(b.data + |was|, |bytes|, b.data, |was|);
    GetPutApart(m, b.data + |was|, bytes, b.data, |was|);
    GetSplit(m1, b.data, |was| + n, |was|);
    LinearApart(b.data - 4, 4, b.data, |was| + n);
    GetPutApart(m1, b.data - 4, size, b.data, |was| + n);
    EmptyContent(m, b);
  }

  lemma PushBackLayout(m: Mem, ptrVar: int, endVar: int, base: int, end: int, blocks: seq<Block>,
                       i: nat, bytes: seq<byte>, n: nat)
    requires Layout(m, ptrVar, endVar, base, end, blocks) && i < |blocks| && n <= |bytes|
    requires blocks[i].content.Vector? || Used(blocks[i].content) == 0
    requires Used(blocks[i].content) + |bytes| <= blocks[i].capacity
    ensures Layout(PushBackMem(m, blocks[i], bytes, n), ptrVar, endVar, base, end,
                   blocks[i := blocks[i].(content := Vector(Bytes(blocks[i].content) + bytes[..n]))])
  {
    hide Put, Get, LE4, Val4, Holds, Chained;
    var b := blocks[i];
    BlockInside(base, blocks, i);
    EmptyContent(m, b);
    PushBackHeld(m, b, bytes, n);
    ReplaceLayout(m, ptrVar, endVar, base, end, blocks, i, b.(content := Vector(Bytes(b.content) + bytes[..n])),
                  b.data + Used(b.content), bytes);
  }

  /** What the layout says of one block. */
  lemma LayoutBlock(m: Mem, ptrVar: int, endVar: int, base: int, end: int, blocks: seq<Block>, i: nat)
    requires Layout(m, ptrVar, endVar, base, end, blocks) && i < |blocks|
    ensures Holds(m, blocks[i]) && 8 <= blocks[i].data && End(blocks[i]) <= end < 0x8000_0000
    ensures S32(Dword(m, blocks[i].data - 8)) == blocks[i].capacity
    ensures S32(Dword(m, blocks[i].data - 4)) == Used(blocks[i].content) <= blocks[i].capacity
  {
    hide Dword, Get;
    BlockInside(base, blocks, i);
  }

  /** What is copied beyond the end of block i does no harm: there is nothing of it, no block follows,
      or it is what the capacity field of the next block starts with anyway. */
  predicate Harmless(blocks: seq<Block>, i: nat, copied: seq<byte>)
    requires i < |blocks|
  {
    var room := blocks[i].capacity - Used(blocks[i].content);
    || |copied| <= room
    || i == |blocks| - 1
    || (0 <= room && |copied| <= room + 4
        && copied[room..] == LE4(Wrap(blocks[i + 1].capacity))[..|copied| - room])
  }

  /** Right behind a block is the capacity of the next one. */
  lemma NextHeader(m: Mem, ptrVar: int, endVar: int, base: int, end: int, blocks: seq<Block>, i: nat)
    requires Layout(m, ptrVar, endVar, base, end, blocks) && i + 1 < |blocks|
    ensures Get(m, End(blocks[i]), 4) == LE4(Wrap(blocks[i + 1].capacity))
  {
    hide Get, Val4, LE4, Used;
    assert StartsAt(base, blocks, i + 1) && Holds(m, blocks[i + 1]);
    LE4Val4(Get(m, End(blocks[i]), 4));
    assert Wrap(blocks[i + 1].capacity) == blocks[i + 1].capacity;
  }

  lemma BehindLast(m: Mem, ptrVar: int, endVar: int, base: int, end: int, blocks: seq<Block>, bytes: seq<byte>)
    requires Layout(m, ptrVar, endVar, base, end, blocks) && blocks != [] && |bytes| <= 4
    ensures Layout(Put(m, Top(base, blocks), bytes), ptrVar, endVar, base, end, blocks)
  {
    hide Put, Get, Holds, Dword, LE4, Chained;
    var top := Top(base, blocks);
    TopIsTotal(base, blocks);
    DwordKept(m, top, bytes, ptrVar);
    DwordKept(m, top, bytes, endVar);
    forall j | 0 <= j < |blocks| ensures Holds(Put(m, top, bytes), blocks[j]) {
      BlockInside(base, blocks, j);
      OthersKept(m, top, bytes, blocks[j]);
    }
  }

  /** A harmless excess behind block i leaves the heap as it is. */
  lemma ExcessKept(m: Mem, ptrVar: int, endVar: int, base: int, end: int, blocks: seq<Block>, i: nat, bytes: seq<byte>)
    requires Layout(m, ptrVar, endVar, base, end, blocks) && i < |blocks| && |bytes| <= 4
    requires i == |blocks| - 1 || bytes == LE4(Wrap(blocks[i + 1].capacity))[..|bytes|]
    ensures Layout(Put(m, End(blocks[i]), bytes), ptrVar, endVar, base, end, blocks)
  {
    hide Put, Get, Layout, LE4;
    if i == |blocks| - 1 {
      BehindLast(m, ptrVar, endVar, base, end, blocks, bytes);
    } else {
      NextHeader(m, ptrVar, endVar, base, end, blocks, i);
      GetSplit(m, End(blocks[i]), 4, |bytes|);
      PutSame(m, End(blocks[i]), bytes);
    }
  }

  /** The bytes that a push back leaves behind the end of its block. */
  lemma ExcessWritten(m: Mem, b: Block, copied: seq<byte>, n: nat, room: nat)
    requires 8 <= b.data && End(b) < 0x8000_0000 && Used(b.content) + room == b.capacity
    requires room < |copied| <= room + 4
    ensures Get(PushBackMem(m, b, copied, n), End(b), |copied| - room) == copied[room..]
  {
    hide Put, Get, LE4, Apart;
    var a, excess := b.data + Used(b.content), copied[room..];
    var m1 := Put(m, a, copied[..room]);
    assert copied == copied[..room] + excess;
    PutPut(m, a, copied[..room], excess);
    GetPutSame(m1, End(b), excess);
    LinearApart(b.data - 4, 4, End(b), |excess|);
    GetPutApart(Put(m, a, copied), b.data - 4, LE4(Wrap(Used(b.content) + n)), End(b), |excess|);
  }

  /** A record that fits although its last dword does not: the heap stays one exactly when the excess
      is harmless. */
  lemma PushBackExcess(m: Mem, ptrVar: int, endVar: int, base: int, end: int, blocks: seq<Block>,
                       i: nat, copied: seq<byte>, n: nat, room: nat)
    requires Layout(m, ptrVar, endVar, base, end, blocks) && i < |blocks|
    requires blocks[i].content.Vector? || Used(blocks[i].content) == 0
    requires Used(blocks[i].content) + room == blocks[i].capacity && n <= room < |copied| <= room + 4
    ensures Layout(PushBackMem(m, blocks[i], copied, n), ptrVar, endVar, base, end,
                   blocks[i := blocks[i].(content := Vector(Bytes(blocks[i].content) + copied[..n]))])
       <==> Harmless(blocks, i, copied)
  {
    hide Put, Get, LE4, Layout, Used, Bytes;
    var b, excess := blocks[i], copied[room..];
    var blocks' := blocks[i := b.(content := Vector(Bytes(b.content) + copied[..n]))];
    var m' := PushBackMem(m, b, copied, n);
    LayoutBlock(m, ptrVar, endVar, base, end, blocks, i);
    if Harmless(blocks, i, copied) {
      ExcessKept(m, ptrVar, endVar, base, end, blocks, i, excess);
      PutBelow(m, b.data + Used(b.content), copied[..room], excess);
      assert copied == copied[..room] + excess && copied[..room][..n] == copied[..n];
      PushBackLayout(Put(m, End(b), excess), ptrVar, endVar, base, end, blocks, i, copied[..room], n);
    }
    if Layout(m', ptrVar, endVar, base, end, blocks') && i < |blocks| - 1 {
      NextHeader(m', ptrVar, endVar, base, end, blocks', i);
      ExcessWritten(m, b, copied, n, room);
      GetSplit(m', End(b), 4, |excess|);
    }
  }

  /** A record that fits, with what the loop copies for it. */
  lemma PushBackExact(m: Mem, ptrVar: int, endVar: int, base: int, end: int, blocks: seq<Block>,
                      i: nat, copied: seq<byte>, n: nat)
    requires Layout(m, ptrVar, endVar, base, end, blocks) && i < |blocks| && n <= |copied| <= n + 3
    requires blocks[i].content.Vector? || Used(blocks[i].content) == 0
    requires Used(blocks[i].content) + n <= blocks[i].capacity
    ensures Layout(PushBackMem(m, blocks[i], copied, n), ptrVar, endVar, base, end,
                   blocks[i := blocks[i].(content := Vector(Bytes(blocks[i].content) + copied[..n]))])
       <==> Harmless(blocks, i, copied)
  {
    hide Layout, PushBackMem, Used, Bytes, LE4;
    var room := blocks[i].capacity - Used(blocks[i].content);
    if |copied| <= room {
      PushBackLayout(m, ptrVar, endVar, base, end, blocks, i, copied, n);
    } else {
      PushBackExcess(m, ptrVar, endVar, base, end, blocks, i, copied, n, room);
    }
  }

  /** Memory after a dword has been pushed on a stack block. */
  function StackPushMem(m: Mem, b: Block, word: u32): Mem {
    PutDword(PutDword(m, End(b) - Used(b.content) - 4, word), b.data - 4, Wrap(Used(b.content) + 4))
  }

  lemma StackContent(m: Mem, b: Block)
    requires Holds(m, b) && (b.content.Stack? || Used(b.content) == 0)
    ensures 4 * |Words(b.content)| == Used(b.content)
    ensures Get(m, End(b) - Used(b.content), Used(b.content)) == StackBytes(Words(b.content))
  {
  }

  lemma StackBytesPush(words: seq<u32>, word: u32)
    ensures StackBytes(words + [word]) == LE4(word) + StackBytes(words)
  {
    assert (words + [word])[..|words|] == words;
  }

  lemma StackPushHeld(m: Mem, b: Block, word: u32)
    requires Holds(m, b) && (b.content.Stack? || Used(b.content) == 0)
    requires 8 <= b.data && End(b) < 0x8000_0000 && Used(b.content) + 4 <= b.capacity
    ensures Holds(StackPushMem(m, b, word), b.(content := Stack(Words(b.content) + [word])))
  {
    hide Put, Get, LE4, Val4, Apart, StackBytes;
    var was, n := Words(b.content), Used(b.content);
    var a := End(b) - n - 4;
    var m1 := PutDword(m, a, word);
    var m2 := StackPushMem(m, b, word);
    var size := LE4(Wrap(n + 4));
    StackContent(m, b);
    DwordKept(m, a, LE4(word), b.data - 8);
    DwordKept(m1, b.data - 4, size, b.data - 8);
    DwordPutDword(m1, b.data - 4, Wrap(n + 4));
    GetPutSame(m, a, LE4(word));
    LinearApart(a, 4, a + 4, n);
    GetPutApart(m, a, LE4(word), a + 4, n);
    GetSplit(m1, a, n + 4, 4);
    LinearApart(b.data - 4, 4, a, n + 4);
    GetPutApart(m1, b.data - 4, size, a, n + 4);
    StackBytesPush(was, word);
  }

  // ---- what a program sees in memory ------------------------------------------------------

  /** A block that has just been granted: its size, no content, and the heap pointer behind it. */
  predicate Granted(m: Mem, ptrVar: int, data: int, size: u32) {
    Dword(m, data - 8) == size && Dword(m, data - 4) == 0 && Dword(m, ptrVar) == data + size
  }

  /** The record is behind the content there was, which it leaves alone, and the size says so. */
  predicate Appended(m: Mem, m': Mem, vector: int, record: seq<byte>) {
    var capacity, size := Dword(m, vector - 8), Dword(m, vector - 4);
    && size + |record| <= capacity && Dword(m', vector - 8) == capacity && Dword(m', vector - 4) == size + |record|
    && Get(m', vector, size) == Get(m, vector, size) && Get(m', vector + size, |record|) == record
  }

  /** The dword is right below the content there was, which is at the end of the block. */
  predicate Stacked(m: Mem, m': Mem, stack: int, word: u32, top: int) {
    var capacity, size := Dword(m, stack - 8), Dword(m, stack - 4);
    && size + 4 <= capacity && Dword(m', stack - 8) == capacity && Dword(m', stack - 4) == size + 4
    && top == stack + capacity - size - 4 && Dword(m', top) == word
    && Get(m', top + 4, size) == Get(m, top + 4, size)
  }

  lemma AllocateSeen(m: Mem, ptrVar: int, top: int, size: u32)
    requires 0 <= ptrVar && ptrVar + 4 <= top && top + size + 8 < SIZE
    ensures Granted(AllocateMem(m, ptrVar, top, size), ptrVar, top + 8, size)
  {
    hide Put, Get, LE4, Val4, Dword;
    assert Wrap(top + size + 8) == top + size + 8;
    var m1 := PutDword(m, ptrVar, top + size + 8);
    var m2 := PutDword(m1, top, size);
    DwordPutDword(m, ptrVar, top + size + 8);
    DwordPutDword(m1, top, size);
    DwordPutDword(m2, top + 4, 0);
    DwordKept(m1, top, LE4(size), ptrVar); DwordKept(m2, top + 4, LE4(0), ptrVar);
    DwordKept(m2, top + 4, LE4(0), top);
  }

  lemma PushBackSeen(m: Mem, b: Block, copied: seq<byte>, n: nat)
    requires Holds(m, b) && 8 <= b.data && End(b) < 0x8000_0000 && n <= |copied| <= n + 3
    requires Used(b.content) + n <= b.capacity
    ensures Appended(m, PushBackMem(m, b, copied, n), b.data, copied[..n])
  {
    hide Put, Get, LE4, Val4, Apart, Used;
    var size := Used(b.content);
    var a := b.data + size;
    var m1 := Put(m, a, copied);
    var field := LE4(Wrap(size + n));
    assert Wrap(size + n) == size + n;
    DwordPutDword(m1, b.data - 4, Wrap(size + n));
    GetPutSame(m, a, copied);
    GetSplit(m1, a, |copied|, n);
    LinearApart(b.data - 4, 4, a, n);
    GetPutApart(m1, b.data - 4, field, a, n);
    LinearApart(a, |copied|, b.data, size);
    LinearApart(b.data - 4, 4, b.data, size);
    GetPutApart(m, a, copied, b.data, size);
    GetPutApart(m1, b.data - 4, field, b.data, size);
    DwordKept(m, a, copied, b.data - 8);
    DwordKept(m1, b.data - 4, field, b.data - 8);
  }

  lemma StackPushSeen(m: Mem, b: Block, word: u32)
    requires Holds(m, b) && 8 <= b.data && End(b) < 0x8000_0000 && Used(b.content) + 4 <= b.capacity
    ensures Stacked(m, StackPushMem(m, b, word), b.data, word, End(b) - Used(b.content) - 4)
  {
    hide Put, Get, LE4, Val4, Apart, Used;
    var size := Used(b.content);
    var top := End(b) - size - 4;
    var m1 := PutDword(m, top, word);
    var field := LE4(Wrap(size + 4));
    assert Wrap(size + 4) == size + 4;
    DwordPutDword(m, top, word);
    DwordPutDword(m1, b.data - 4, Wrap(size + 4));
    DwordKept(m1, b.data - 4, field, top);
    LinearApart(top, 4, top + 4, size);
    LinearApart(b.data - 4, 4, top + 4, size);
    GetPutApart(m, top, LE4(word), top + 4, size);
    GetPutApart(m1, b.data - 4, field, top + 4, size);
    DwordKept(m, top, LE4(word), b.data - 8);
    DwordKept(m1, b.data - 4, field, b.data - 8);
  }

  // ---- the operations ---------------------------------------------------------------------

  /** One turn of the copying loop, as long as source and target are apart. */
  lemma CopyStep(m: Mem, from: int, to: int, n: nat, k: nat)
    requires n < SIZE && k + 4 <= n && Apart(from, n, to, n)
    ensures var record := Get(m, from, n);
      var m' := Put(m, to, record[..k]);
      PutDword(m', to + k, Dword(m', from + k)) == Put(m, to, record[..k + 4])
  {
    hide Put, Get, Apart, LE4, Val4;
    var record := Get(m, from, n);
    var m' := Put(m, to, record[..k]);
    ApartSub(from, n, to, n, 0, n, 0, k);
    GetPutApart(m, to, record[..k], from, n);
    GetSplit(m', from, n, k);
    GetSplit(m', from + k, n - k, 4);
    LE4Val4(Get(m', from + k, 4));
    PutPut(m, to, record[..k], Get(m', from + k, 4));
    assert record[..k] + record[k..][..4] == record[..k + 4];
  }

  lemma UsedAfter(m: Mem, b: Block, record: seq<byte>)
    requires Holds(m, b) && (b.content.Vector? || Used(b.content) == 0)
    ensures Used(Vector(Bytes(b.content) + record)) == Used(b.content) + |record|
  {
  }

  lemma HeldHeader(m: Mem, b: Block)
    requires Holds(m, b) && b.capacity < 0x8000_0000
    ensures S32(Dword(m, b.data - 8)) == b.capacity && S32(Dword(m, b.data - 4)) == Used(b.content) <= b.capacity
  {
  }

  lemma LayoutPlaces(m: Mem, ptrVar: int, endVar: int, base: int, end: int, blocks: seq<Block>)
    requires Layout(m, ptrVar, endVar, base, end, blocks)
    ensures 0 <= ptrVar && ptrVar + 4 <= base && 0 <= endVar && endVar + 4 <= base
    ensures ptrVar + 4 <= endVar || endVar + 4 <= ptrVar
  {
    hide Dword;
  }

  class HeapMemory {
    const ptrVar: u32
    const endVar: u32
    ghost const base: int
    ghost const end: int
    var mem: Mem
    var eax: u32
    ghost var blocks: seq<Block>

    ghost predicate Valid()
      reads this
    {
      Layout(mem, ptrVar, endVar, base, end, blocks)
    }

    /** emu_run: the heap of so many bytes starts behind the object code. */
    constructor (mem: Mem, ptrVar: u32, endVar: u32, bytesRead: u32, heapSize: u32)
      requires ptrVar + 4 <= bytesRead && endVar + 4 <= bytesRead
      requires ptrVar + 4 <= endVar || endVar + 4 <= ptrVar
      requires bytesRead + heapSize < 0x8000_0000
      ensures Valid() && blocks == []
      ensures this.ptrVar == ptrVar && this.endVar == endVar && base == bytesRead && end == bytesRead + heapSize
      ensures this.mem == PutDword(PutDword(mem, ptrVar, bytesRead), endVar, bytesRead + heapSize)
    {
      hide Put, Get, LE4, Val4;
      var m := PutDword(mem, ptrVar, bytesRead);
      var m' := PutDword(m, endVar, bytesRead + heapSize);
      DwordPutDword(mem, ptrVar, bytesRead);
      DwordKept(m, endVar, LE4(bytesRead + heapSize), ptrVar);
      DwordPutDword(m, endVar, bytesRead + heapSize);
      this.mem := m';
      this.ptrVar, this.endVar, this.base, this.end := ptrVar, endVar, bytesRead, bytesRead + heapSize;
      eax, blocks := 0, [];
    }

    /** A new block behind all others, or 0. The test adds in u32: a sum that wraps around is accepted
        too, but then the heap is no longer one. */
    method Allocate(size: u32) returns (data: u32)
      modifies this
      ensures eax == data
      ensures var top := Dword(old(mem), ptrVar);
        if Wrap(top + size + 8) > Dword(old(mem), endVar)
        then data == 0 && mem == old(mem) && blocks == old(blocks)
        else data == Wrap(top + 8) && mem == AllocateMem(old(mem), ptrVar, top, size)
      ensures old(Valid()) && Top(base, old(blocks)) + size + 8 < SIZE ==>
        && Valid() && (data != 0 <==> Top(base, old(blocks)) + size + 8 <= end)
        && (data != 0 ==> blocks == AfterEvent(base, old(blocks), Allocated(size)))
        && (data != 0 ==> Granted(mem, ptrVar, data, size))
    {
      hide Put, Get, LE4, Val4, Layout, Granted;
      var top, limit := Dword(mem, ptrVar), Dword(mem, endVar);
      if Valid() { LayoutVariables(mem, ptrVar, endVar, base, end, blocks); }
      if Wrap(top + size + 8) > limit {
        eax := 0;
        return 0;
      }
      if Valid() && Top(base, blocks) + size + 8 < SIZE {
        AllocateLayout(mem, ptrVar, endVar, base, end, blocks, size);
        LayoutPlaces(mem, ptrVar, endVar, base, end, blocks);
        AllocateSeen(mem, ptrVar, top, size);
      }
      PutWrap(PutDword(PutDword(mem, ptrVar, Wrap(top + size + 8)), top, size), top + 4, LE4(0));
      mem := PutDword(mem, ptrVar, Wrap(top + size + 8));
      mem := PutDword(mem, top, size);
      top := Wrap(top + 4);
      mem := PutDword(mem, top, 0);
      WrapAgain(Dword(old(mem), ptrVar) + 4, 4);
      top := Wrap(top + 4);
      blocks := AfterEvent(base, blocks, Allocated(size));
      eax := top;
      return top;
    }

    /** Appends n bytes from dataPtr to the vector of block i; false when the program gives up because
        they do not fit. Whole dwords are copied, up to 3 bytes more than the record has: the heap stays
        one exactly when these do no harm. */
    method PushBack(vector: u32, dataPtr: u32, n: u32, ghost i: nat) returns (ok: bool)
      requires Valid() && i < |blocks| && vector as int == blocks[i].data
      requires Possible(blocks, PushedBack(i, Get(mem, dataPtr, n)))
      requires n < 0x8000_0000
      requires Apart(dataPtr, RoundUp(n), vector + Used(blocks[i].content), RoundUp(n))
      modifies this`mem, this`blocks
      ensures ok <==> Used(old(blocks)[i].content) + n <= old(blocks)[i].capacity
      ensures ok ==> blocks == AfterEvent(base, old(blocks), PushedBack(i, Get(old(mem), dataPtr, n)))
      ensures ok ==> mem == PushBackMem(old(mem), old(blocks)[i], Get(old(mem), dataPtr, RoundUp(n)), n)
      ensures ok ==> Appended(old(mem), mem, vector, Get(old(mem), dataPtr, n))
      ensures !ok ==> mem == old(mem) && blocks == old(blocks)
      ensures Valid() <==> !ok || Harmless(old(blocks), i, Get(old(mem), dataPtr, RoundUp(n)))
    {
      hide Put, Get, LE4, Val4, Apart, Holds, Layout, Dword, Harmless, Appended;
      LayoutBlock(mem, ptrVar, endVar, base, end, blocks, i);
      var capacity := S32(Dword(mem, vector - 8));
      var size := S32(Dword(mem, vector - 4));
      var maxSize := S32(Wrap(capacity - n));
      if size > maxSize {
        return false;
      }
      ghost var copied := Get(mem, dataPtr, RoundUp(n));
      var k := 0;
      PutNone(mem, vector + size);
      while k < n
        invariant 0 <= k <= RoundUp(n) && k % 4 == 0 && blocks == old(blocks)
        invariant mem == Put(old(mem), vector + size, copied[..k])
      {
        CopyStep(old(mem), dataPtr, vector + size, RoundUp(n), k);
        var data := Dword(mem, dataPtr + k);
        mem := PutDword(mem, vector + size + k, data);
        k := k + 4;
      }
      assert copied[..k] == copied;
      GetSplit(old(mem), dataPtr, RoundUp(n), n);
      ghost var b := blocks[i].(content := Vector(Bytes(blocks[i].content) + copied[..n]));
      UsedAfter(old(mem), blocks[i], copied[..n]);
      PushBackExact(old(mem), ptrVar, endVar, base, end, blocks, i, copied, n);
      PushBackSeen(old(mem), blocks[i], copied, n);
      mem := PutDword(mem, vector - 4, Wrap(size + n));
      blocks := blocks[i := b];
      return true;
    }

    /** Pushes a dword on the stack in block i and returns its address. */
    method StackPush(stack: u32, word: u32, ghost i: nat) returns (ok: bool, top: u32)
      requires Valid() && i < |blocks| && stack as int == blocks[i].data
      requires Possible(blocks, Pushed(i, word))
      modifies this`mem, this`blocks, this`eax
      ensures ok <==> Used(old(blocks)[i].content) + 4 <= old(blocks)[i].capacity
      ensures ok ==> blocks == AfterEvent(base, old(blocks), Pushed(i, word))
      ensures ok ==> mem == StackPushMem(old(mem), old(blocks)[i], word)
      ensures ok ==> eax == top && top as int == ContentAt(blocks[i])
      ensures ok ==> Stacked(old(mem), mem, stack, word, top)
      ensures !ok ==> mem == old(mem) && blocks == old(blocks)
      ensures Valid()
    {
      hide Put, Get, LE4, Val4, Holds, Chained, Stacked;
      BlockInside(base, blocks, i);
      HeldHeader(mem, blocks[i]);
      var capacity := S32(Dword(mem, stack - 8));
      var size := S32(Dword(mem, stack - 4));
      var maxSize := capacity - 4;
      if size > maxSize {
        return false, 0;
      }
      top := stack + (capacity - size);
      top := top - 4;
      StackPushHeld(mem, blocks[i], word);
      StackPushSeen(mem, blocks[i], word);
      ghost var b := blocks[i].(content := Stack(Words(blocks[i].content) + [word]));
      StackContent(mem, blocks[i]);
      ReplaceLayout(mem, ptrVar, endVar, base, end, blocks, i, b, top, LE4(word));
      mem := PutDword(mem, top, word);
      mem := PutDword(mem, stack - 4, Wrap(size + 4));
      blocks := blocks[i := b];
      eax := top;
      return true, top;
    }
  }

  // ---- whole runs -------------------------------------------------------------------------

  /** The blocks after a sequence of events. */
  ghost predicate AllPossible(base: int, blocks: seq<Block>, events: seq<Event>)
    decreases |events|
  {
    events == [] || (Possible(blocks, events[0]) && AllPossible(base, AfterEvent(base, blocks, events[0]), events[1..]))
  }

  ghost function After(base: int, blocks: seq<Block>, events: seq<Event>): seq<Block>
    requires AllPossible(base, blocks, events)
    decreases |events|
  {
    if events == [] then blocks else After(base, AfterEvent(base, blocks, events[0]), events[1..])
  }

  /** All records pushed back on block i, in order. */
  function Records(events: seq<Event>, i: nat): seq<byte> {
    if events == [] then []
    else (if events[0].PushedBack? && events[0].i == i then events[0].record else []) + Records(events[1..], i)
  }

  /** All dwords pushed on block i, in order. */
  function PushedWords(events: seq<Event>, i: nat): seq<u32> {
    if events == [] then []
    else (if events[0].Pushed? && events[0].i == i then [events[0].word] else []) + PushedWords(events[1..], i)
  }

  lemma EventContents(base: int, blocks: seq<Block>, e: Event, i: nat)
    requires Possible(blocks, e) && i < |blocks|
    ensures var blocks' := AfterEvent(base, blocks, e);
      && i < |blocks'| && blocks'[i].data == blocks[i].data && blocks'[i].capacity == blocks[i].capacity
      && Bytes(blocks'[i].content) == Bytes(blocks[i].content) + (if e.PushedBack? && e.i == i then e.record else [])
      && Words(blocks'[i].content) == Words(blocks[i].content) + (if e.Pushed? && e.i == i then [e.word] else [])
  {
  }

  /** Over any run a vector holds the concatenation of the records pushed on it, a stack the dwords
      pushed on it, in the place and with the capacity it was given. */
  lemma {:induction false} RunContents(base: int, blocks: seq<Block>, events: seq<Event>, i: nat)
    requires AllPossible(base, blocks, events) && i < |blocks|
    ensures var blocks' := After(base, blocks, events);
      && i < |blocks'| && blocks'[i].data == blocks[i].data && blocks'[i].capacity == blocks[i].capacity
      && Bytes(blocks'[i].content) == Bytes(blocks[i].content) + Records(events, i)
      && Words(blocks'[i].content) == Words(blocks[i].content) + PushedWords(events, i)
    decreases |events|
  {
    hide AfterEvent, Possible, Bytes, Words;
    if events != [] {
      EventContents(base, blocks, events[0], i);
      RunContents(base, AfterEvent(base, blocks, events[0]), events[1..], i);
    }
  }

  function Requested(events: seq<Event>): nat {
    if events == [] then 0
    else (if events[0].Allocated? then events[0].size + 8 else 0) + Requested(events[1..])
  }

  /** Over any run the heap pointer advances by the sizes handed out and their headers. */
  lemma {:induction false} RunTotal(base: int, blocks: seq<Block>, events: seq<Event>)
    requires AllPossible(base, blocks, events) && Chained(base, blocks)
    ensures Chained(base, After(base, blocks, events))
    ensures Top(base, After(base, blocks, events)) == Top(base, blocks) + Requested(events)
    decreases |events|
  {
    if events != [] {
      var e := events[0];
      var next := AfterEvent(base, blocks, e);
      if e.Allocated? {
        AppendChained(base, blocks, next[|blocks|]);
      } else {
        ReplaceChained(base, blocks, e.i, next[e.i]);
      }
      RunTotal(base, next, events[1..]);
    }
  }

  // ---- runs of the operations -------------------------------------------------------------

  /** A request to the heap; blocks are numbered in the order in which they were handed out. */
  datatype Request = Ask(size: u32) | Append(i: nat, from: u32, n: u32) | Push(i: nat, word: u32)

  /** The memory and the blocks in it. */
  datatype Store = Store(mem: Mem, blocks: seq<Block>)

  function EventOf(s: Store, q: Request): Event {
    match q
    case Ask(size) => Allocated(size)
    case Append(i, from, n) => PushedBack(i, Get(s.mem, from, n))
    case Push(i, word) => Pushed(i, word)
  }

  /** The request is within the limits of the operations: an allocation does not wrap around, and
      what is appended lies apart from where it goes and does no harm behind its block. */
  ghost predicate Suitable(base: int, s: Store, q: Request) {
    && Possible(s.blocks, EventOf(s, q))
    && match q
       case Ask(size) => Top(base, s.blocks) + size + 8 < SIZE
       case Append(i, from, n) =>
         && n < 0x8000_0000
         && Apart(from, RoundUp(n), s.blocks[i].data + Used(s.blocks[i].content), RoundUp(n))
         && (Used(s.blocks[i].content) + n <= s.blocks[i].capacity ==>
               Harmless(s.blocks, i, Get(s.mem, from, RoundUp(n))))
       case Push(_, _) => true
  }

  /** There is room for it. */
  predicate Fits(base: int, end: int, s: Store, q: Request)
    requires Possible(s.blocks, EventOf(s, q))
  {
    match q
    case Ask(size) => Top(base, s.blocks) + size + 8 <= end
    case Append(i, _, n) => Used(s.blocks[i].content) + n <= s.blocks[i].capacity
    case Push(i, _) => Used(s.blocks[i].content) + 4 <= s.blocks[i].capacity
  }

  function Served(ptrVar: int, base: int, s: Store, q: Request): Store
    requires Possible(s.blocks, EventOf(s, q))
  {
    var m := match q
      case Ask(size) => AllocateMem(s.mem, ptrVar, Top(base, s.blocks), size)
      case Append(i, from, n) => PushBackMem(s.mem, s.blocks[i], Get(s.mem, from, RoundUp(n)), n)
      case Push(i, word) => StackPushMem(s.mem, s.blocks[i], word);
    Store(m, AfterEvent(base, s.blocks, EventOf(s, q)))
  }

  /** Every request that the run comes to is suitable. A refused allocation is passed over; the first
      record or dword without room ends the program. */
  ghost predicate AllSuitable(ptrVar: int, base: int, end: int, s: Store, requests: seq<Request>)
    decreases |requests|
  {
    requests == [] ||
    (var q, rest := requests[0], requests[1..];
     && Suitable(base, s, q)
     && if Fits(base, end, s, q) then AllSuitable(ptrVar, base, end, Served(ptrVar, base, s, q), rest)
        else q.Ask? ==> AllSuitable(ptrVar, base, end, s, rest))
  }

  /** What happens to the heap in the run. */
  ghost function EventsOf(ptrVar: int, base: int, end: int, s: Store, requests: seq<Request>): (events: seq<Event>)
    requires AllSuitable(ptrVar, base, end, s, requests)
    ensures AllPossible(base, s.blocks, events)
    decreases |requests|
  {
    if requests == [] then []
    else
      var q, rest := requests[0], requests[1..];
      if Fits(base, end, s, q) then
        var events := EventsOf(ptrVar, base, end, Served(ptrVar, base, s, q), rest);
        assert ([EventOf(s, q)] + events)[1..] == events;
        [EventOf(s, q)] + events
      else if q.Ask? then EventsOf(ptrVar, base, end, s, rest)
      else []
  }

  /** The addresses that were handed out are those of the blocks. */
  ghost predicate Handles(handles: seq<u32>, blocks: seq<Block>) {
    |handles| == |blocks| && forall i :: 0 <= i < |handles| ==> handles[i] as int == blocks[i].data
  }

  /** One request, for a program that keeps the addresses it was given. */
  method Serve(h: HeapMemory, q: Request, handles: seq<u32>) returns (handles': seq<u32>, ok: bool)
    requires h.Valid() && Handles(handles, h.blocks) && Suitable(h.base, Store(h.mem, h.blocks), q)
    modifies h
    ensures h.Valid() && Handles(handles', h.blocks)
    ensures ok <==> Fits(h.base, h.end, Store(old(h.mem), old(h.blocks)), q)
    ensures Store(h.mem, h.blocks) ==
      if ok then Served(h.ptrVar, h.base, Store(old(h.mem), old(h.blocks)), q) else Store(old(h.mem), old(h.blocks))
  {
    hide Layout, Used, PushBackMem, StackPushMem, AllocateMem, Get, Apart, Dword;
    LayoutVariables(h.mem, h.ptrVar, h.endVar, h.base, h.end, h.blocks);
    match q
    case Ask(size) =>
      var data := h.Allocate(size);
      ok := data != 0;
      handles' := if ok then handles + [data] else handles;
    case Append(i, from, n) =>
      ok := h.PushBack(handles[i], from, n, i);
      handles' := handles;
    case Push(i, word) =>
      var top;
      ok, top := h.StackPush(handles[i], word, i);
      handles' := handles;
  }

  lemma AfterFirst(base: int, blocks: seq<Block>, events: seq<Event>)
    requires AllPossible(base, blocks, events)
    ensures events != [] ==>
      && AllPossible(base, AfterEvent(base, blocks, events[0]), events[1..])
      && After(base, blocks, events) == After(base, AfterEvent(base, blocks, events[0]), events[1..])
  {
    hide AfterEvent, Possible;
  }

  lemma ServedBlocks(ptrVar: int, base: int, s: Store, q: Request)
    requires Suitable(base, s, q)
    ensures Served(ptrVar, base, s, q).blocks == AfterEvent(base, s.blocks, EventOf(s, q))
  {
  }

  lemma AfterNone(base: int, blocks: seq<Block>)
    ensures After(base, blocks, []) == blocks
  {
  }

  lemma LayoutHeld(m: Mem, ptrVar: int, endVar: int, base: int, end: int, blocks: seq<Block>)
    requires Layout(m, ptrVar, endVar, base, end, blocks)
    ensures AllHeld(m, blocks)
  {
    hide Dword;
  }

  /** Any run of requests on any heap: it stays a heap, its blocks are those after the events of the
      run, and memory holds every one of them. */
  method Run(h: HeapMemory, requests: seq<Request>, given: seq<u32>) returns (handles: seq<u32>)
    requires h.Valid() && Handles(given, h.blocks)
    requires AllSuitable(h.ptrVar, h.base, h.end, Store(h.mem, h.blocks), requests)
    modifies h
    ensures h.Valid() && Handles(handles, h.blocks) && AllHeld(h.mem, h.blocks)
    ensures h.blocks == After(h.base, old(h.blocks),
      EventsOf(h.ptrVar, h.base, h.end, Store(old(h.mem), old(h.blocks)), requests))
  {
    hide Layout, Suitable, Fits, Served, After, Holds;
    handles := given;
    var k := 0;
    ghost var events := EventsOf(h.ptrVar, h.base, h.end, Store(h.mem, h.blocks), requests);
    ghost var rest := events;
    while k < |requests|
      invariant 0 <= k <= |requests|
      invariant h.Valid() && Handles(handles, h.blocks)
      invariant AllSuitable(h.ptrVar, h.base, h.end, Store(h.mem, h.blocks), requests[k..])
      invariant rest == EventsOf(h.ptrVar, h.base, h.end, Store(h.mem, h.blocks), requests[k..])
      invariant After(h.base, h.blocks, rest) == After(h.base, old(h.blocks), events)
    {
      ghost var s := Store(h.mem, h.blocks);
      var q := requests[k];
      assert requests[k..][0] == q && requests[k..][1..] == requests[k + 1..];
      var ok;
      handles, ok := Serve(h, q, handles);
      AfterFirst(h.base, s.blocks, rest);
      ServedBlocks(h.ptrVar, h.base, s, q);
      rest := if ok then rest[1..] else rest;
      if !ok && !q.Ask? {
        break;
      }
      k := k + 1;
    }
    AfterNone(h.base, h.blocks);
    LayoutHeld(h.mem, h.ptrVar, h.endVar, h.base, h.end, h.blocks);
  }

  lemma HugeAllocated(m: Mem, ptrVar: int, endVar: int, top: int)
    requires 0 <= ptrVar && ptrVar + 4 <= top && 0 <= endVar && endVar + 4 <= top < 0x8000_0000
    requires ptrVar + 4 <= endVar || endVar + 4 <= ptrVar
    ensures var m' := AllocateMem(m, ptrVar, top, 0xFFFF_FFF8);
      Dword(m', ptrVar) as int == top && Dword(m', endVar) == Dword(m, endVar)
  {
    hide Put, Get, LE4, Val4, Dword;
    assert Wrap(top + 0xFFFF_FFF8 + 8) == top;
    var m1 := PutDword(m, ptrVar, top);
    var m2 := PutDword(m1, top, 0xFFFF_FFF8);
    DwordPutDword(m, ptrVar, top);
    DwordKept(m1, top, LE4(0xFFFF_FFF8), ptrVar); DwordKept(m2, top + 4, LE4(0), ptrVar);
    DwordKept(m, ptrVar, LE4(top), endVar);
    DwordKept(m1, top, LE4(0xFFFF_FFF8), endVar); DwordKept(m2, top + 4, LE4(0), endVar);
  }

  /** A request of 2^32 - 8 bytes is granted and leaves the heap pointer where it was: the next block
      is handed out at the same address. */
  method SameBlockTwice(h: HeapMemory, size: u32) returns (first: u32, second: u32)
    requires h.Valid() && Wrap(Top(h.base, h.blocks) + size + 8) <= h.end
    modifies h
    ensures first == second && first as int == Top(h.base, old(h.blocks)) + 8
  {
    hide Layout, Put, Get, LE4, Val4;
    ghost var top := Top(h.base, h.blocks);
    LayoutVariables(h.mem, h.ptrVar, h.endVar, h.base, h.end, h.blocks);
    LayoutPlaces(h.mem, h.ptrVar, h.endVar, h.base, h.end, h.blocks);
    HugeAllocated(h.mem, h.ptrVar, h.endVar, top);
    first := h.Allocate(0xFFFF_FFF8);
    second := h.Allocate(size);
  }

  /** A heap of 4096 bytes behind 4096 bytes of object code: two blocks at 0x1008. */
  method OverlapExample(m: Mem) returns (first: u32, second: u32)
    ensures first == second == 0x1008
  {
    hide Layout, Put, Get, LE4, Val4;
    var h := new HeapMemory(m, 0, 4, 0x1000, 0x1000);
    first, second := SameBlockTwice(h, 16);
  }

  lemma AllocateKeeps(m: Mem, ptrVar: int, top: int, size: u32, a: int, n: nat)
    requires 0 <= ptrVar && ptrVar + 4 <= a && a + n <= top && top + 8 <= SIZE
    ensures Get(AllocateMem(m, ptrVar, top, size), a, n) == Get(m, a, n)
  {
    hide Put, Get, LE4, Apart;
    var m1 := PutDword(m, ptrVar, Wrap(top + size + 8));
    var m2 := PutDword(m1, top, size);
    LinearApart(ptrVar, 4, a, n);
    LinearApart(top, 4, a, n);
    LinearApart(top + 4, 4, a, n);
    GetPutApart(m, ptrVar, LE4(Wrap(top + size + 8)), a, n);
    GetPutApart(m1, top, LE4(size), a, n);
    GetPutApart(m2, top + 4, LE4(0), a, n);
  }

  const ONES: seq<byte> := [1, 1, 1, 1]

  lemma OnesHeld(m: Mem)
    ensures Get(PutDword(PutDword(Put(m, 8, ONES), 0, 0x1000), 4, 0x2000), 8, 4) == ONES
  {
    hide Put, Get, LE4, Apart;
    GetPutSame(m, 8, ONES);
    LinearApart(0, 4, 8, 4);
    LinearApart(4, 4, 8, 4);
    GetPutApart(Put(m, 8, ONES), 0, LE4(0x1000), 8, 4);
    GetPutApart(PutDword(Put(m, 8, ONES), 0, 0x1000), 4, LE4(0x2000), 8, 4);
  }

  lemma DamageDone(m: Mem)
    requires Get(m, 0x1009, 4) == LE4(8)
    ensures Dword(PushBackMem(m, Block(0x1008, 1, Vector([])), ONES, 1), 0x1009) == 0x01_0101
  {
    hide Put, Get, Apart;
    var b := Block(0x1008, 1, Vector([]));
    var m' := PushBackMem(m, b, ONES, 1);
    ExcessWritten(m, b, ONES, 1, 1);
    LinearApart(0x1008, 4, 0x100c, 1);
    LinearApart(0x1004, 4, 0x100c, 1);
    GetPutApart(m, 0x1008, ONES, 0x100c, 1);
    GetPutApart(Put(m, 0x1008, ONES), 0x1004, LE4(1), 0x100c, 1);
    GetSplit(m, 0x1009, 4, 3);
    GetSplit(m', 0x1009, 4, 3);
    assert Get(m', 0x1009, 4) == [1, 1, 1] + [0];
  }

  /** Blocks of 1 and 8 bytes in that heap. A record of one byte, taken from an address with four ones,
      is appended to the first: three of the ones end up in the capacity of the second. */
  method DamageExample(m: Mem) returns (ok: bool, capacity: u32)
    ensures ok && capacity == 0x01_0101
  {
    hide Layout, Put, Get, LE4, Val4, Apart, PushBackMem, AllocateMem, Dword;
    OnesHeld(m);
    var h := new HeapMemory(Put(m, 8, ONES), 0, 4, 0x1000, 0x1000);
    LayoutVariables(h.mem, 0, 4, 0x1000, 0x2000, h.blocks);
    AllocateKeeps(h.mem, 0, 0x1000, 1, 8, 4);
    var first := h.Allocate(1);
    LayoutVariables(h.mem, 0, 4, 0x1000, 0x2000, h.blocks);
    AllocateKeeps(h.mem, 0, 0x1009, 8, 8, 4);
    var second := h.Allocate(8);
    NextHeader(h.mem, 0, 4, 0x1000, 0x2000, h.blocks, 0);
    LinearApart(8, 4, 0x1008, 4);
    DamageDone(h.mem);
    ok := h.PushBack(first, 8, 1, 0);
    capacity := Dword(h.mem, second - 8);
  }
}
