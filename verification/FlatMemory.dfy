/** The flat, byte-addressed view of the emulated memory that every other part of the
    model shares. Addresses wrap at 2^32 the way the emulator's u32 arithmetic does, and
    multi-byte values are little-endian. The module PagedMemory proves that the two-level
    page table of mem.c is a refinement of this view. */
module FlatMemory {
  import Arithmetic

  const SIZE: int := 0x1_0000_0000

  type byte = x: int | 0 <= x < 0x100
  type u16 = x: int | 0 <= x < 0x1_0000
  type u32 = x: int | 0 <= x < SIZE

  type Mem = m: seq<byte> | |m| == SIZE ghost witness seq(SIZE, _ => 0)

  /** u32 wrap-around of an address computation. */
  function Wrap(a: int): u32 {
    a % SIZE
  }

  /** A u32 read as a signed number. */
  function S32(x: u32): int {
    if x < 0x8000_0000 then x else x - SIZE
  }

  /** x is one of the n addresses that start at a (wrapping at 2^32). */
  predicate In(x: int, a: int, n: int) {
    Wrap(x - a) < n
  }

  /** The two address ranges share no address. */
  ghost predicate Apart(a: int, n: int, b: int, k: int) {
    forall x: u32 :: !(In(x, a, n) && In(x, b, k))
  }

  function Get(m: Mem, a: int, n: nat): (r: seq<byte>)
    ensures |r| == n
  {
    seq(n, i requires 0 <= i < n => m[Wrap(a + i)])
  }

  function Put(m: Mem, a: int, b: seq<byte>): (r: Mem)
  {
    seq(SIZE, x requires 0 <= x < SIZE => if In(x, a, |b|) then b[Wrap(x - a)] else m[x])
  }

  lemma WrapShift(a: int, i: int)
    requires 0 <= i < SIZE
    ensures Wrap(Wrap(a + i) - a) == i
  {
    var q := (a + i) / SIZE;
    assert a + i == q * SIZE + Wrap(a + i);
    assert Wrap(a + i) - a == i + (-q) * SIZE;
  }

  lemma WrapAgain(a: int, b: int)
    ensures Wrap(Wrap(a) + b) == Wrap(a + b) && Wrap(b - Wrap(a)) == Wrap(b - a)
  {
    var q := a / SIZE;
    assert a == q * SIZE + Wrap(a);
  }

  /** An address and its wrapped form are the same place. */
  lemma GetWrap(m: Mem, a: int, n: nat)
    ensures Get(m, Wrap(a), n) == Get(m, a, n)
  {
    forall i | 0 <= i < n ensures Get(m, Wrap(a), n)[i] == Get(m, a, n)[i] {
      WrapAgain(a, i);
    }
  }

  lemma PutWrap(m: Mem, a: int, b: seq<byte>)
    ensures Put(m, Wrap(a), b) == Put(m, a, b)
  {
    var l, r := Put(m, Wrap(a), b), Put(m, a, b);
    forall x: int | 0 <= x < SIZE ensures l[x] == r[x] {
      WrapAgain(a, x);
    }
  }

  lemma GetPutSame(m: Mem, a: int, b: seq<byte>)
    requires |b| <= SIZE
    ensures Get(Put(m, a, b), a, |b|) == b
  {
    forall i | 0 <= i < |b| ensures Get(Put(m, a, b), a, |b|)[i] == b[i] {
      WrapShift(a, i);
    }
  }

  lemma GetPutApart(m: Mem, a: int, b: seq<byte>, c: int, n: nat)
    requires n <= SIZE
    requires Apart(a, |b|, c, n)
    ensures Get(Put(m, a, b), c, n) == Get(m, c, n)
  {
    forall i | 0 <= i < n ensures Get(Put(m, a, b), c, n)[i] == Get(m, c, n)[i] {
      WrapShift(c, i);
      var x: u32 := Wrap(c + i);
      assert In(x, c, n);
      assert !In(x, a, |b|);
    }
  }

  /** The distance from a later start. */
  lemma WrapFurther(x: int, a: int, n: nat)
    requires n <= SIZE
    ensures Wrap(x - (a + n)) == if Wrap(x - a) >= n then Wrap(x - a) - n else Wrap(x - a) - n + SIZE
  {
    var d, q := Wrap(x - a), (x - a) / SIZE;
    assert x - (a + n) == q * SIZE + (d - n) == (q - 1) * SIZE + (d - n + SIZE);
  }

  /** Two consecutive writes are one write of the concatenation. */
  lemma PutPut(m: Mem, a: int, b: seq<byte>, c: seq<byte>)
    requires |b| + |c| <= SIZE
    ensures Put(Put(m, a, b), a + |b|, c) == Put(m, a, b + c)
  {
    var l, r := Put(Put(m, a, b), a + |b|, c), Put(m, a, b + c);
    forall x: int | 0 <= x < SIZE ensures l[x] == r[x] {
      WrapFurther(x, a, |b|);
    }
  }

  lemma PutNone(m: Mem, a: int)
    ensures Put(m, a, []) == m
  {
  }

  /** Writing what is there already. */
  lemma PutSame(m: Mem, a: int, b: seq<byte>)
    requires Get(m, a, |b|) == b
    ensures Put(m, a, b) == m
  {
    forall x: int | 0 <= x < SIZE ensures Put(m, a, b)[x] == m[x] {
      if In(x, a, |b|) {
        WrapAgain(x - a, a);
        assert b[Wrap(x - a)] == m[Wrap(a + Wrap(x - a))];
      }
    }
  }

  /** A write directly below an earlier one. */
  lemma PutBelow(m: Mem, a: int, b: seq<byte>, c: seq<byte>)
    requires |b| + |c| <= SIZE
    ensures Put(Put(m, a + |b|, c), a, b) == Put(m, a, b + c)
  {
    var l, r := Put(Put(m, a + |b|, c), a, b), Put(m, a, b + c);
    forall x: int | 0 <= x < SIZE ensures l[x] == r[x] {
      WrapFurther(x, a, |b|);
    }
  }

  lemma GetSplit(m: Mem, a: int, n: nat, k: nat)
    requires k <= n
    ensures Get(m, a, n) == Get(m, a, k) + Get(m, a + k, n - k)
    ensures Get(m, a, n)[..k] == Get(m, a, k)
    ensures Get(m, a, n)[k..] == Get(m, a + k, n - k)
  {
    forall i | 0 <= i < n - k ensures Get(m, a, n)[k..][i] == Get(m, a + k, n - k)[i] {
      assert a + (k + i) == (a + k) + i;
    }
  }

  lemma InSub(x: int, a: int, n: int, i: int, n': int)
    requires 0 <= i && i + n' <= n <= SIZE
    requires In(x, a + i, n')
    ensures In(x, a, n)
  {
    var d := Wrap(x - (a + i));
    var q := (x - (a + i)) / SIZE;
    assert x - (a + i) == q * SIZE + d;
    assert x - a == q * SIZE + (d + i);
    assert Wrap(x - a) == d + i;
  }

  /** Subranges of ranges that are apart are apart. */
  lemma ApartSub(a: int, n: int, b: int, k: int, i: int, n': int, j: int, k': int)
    requires Apart(a, n, b, k)
    requires 0 <= i && 0 <= n' && i + n' <= n <= SIZE
    requires 0 <= j && 0 <= k' && j + k' <= k <= SIZE
    ensures Apart(a + i, n', b + j, k')
    ensures Apart(b + j, k', a + i, n')
  {
    var a', b' := a + i, b + j;
    forall x: u32 ensures !(In(x, a', n') && In(x, b', k')) {
      assert !(In(x, a, n) && In(x, b, k));
      if In(x, a', n') && In(x, b', k') {
        InSub(x, a, n, i, n');
        InSub(x, b, k, j, k');
      }
    }
  }

  /** Ranges without wrap-around, one below the other. */
  lemma LinearApart(a: int, n: nat, b: int, k: nat)
    requires 0 <= a && a + n <= SIZE && 0 <= b && b + k <= SIZE
    requires a + n <= b || b + k <= a
    ensures Apart(a, n, b, k)
  {
    forall x: u32 ensures !(In(x, a, n) && In(x, b, k)) {
      assert Wrap(x - a) == if x >= a then x - a else x - a + SIZE;
      assert Wrap(x - b) == if x >= b then x - b else x - b + SIZE;
    }
  }

  // ---- little-endian values ------------------------------------------------------------

  function LE2(v: u16): (r: seq<byte>)
    ensures |r| == 2
  {
    [v % 0x100, v / 0x100]
  }

  function LE4(v: u32): (r: seq<byte>)
    ensures |r| == 4
  {
    [v % 0x100, v / 0x100 % 0x100, v / 0x1_0000 % 0x100, v / 0x100_0000]
  }

  function Val2(b: seq<byte>): u16
    requires |b| == 2
  {
    b[0] as int + 0x100 * b[1] as int
  }

  function Val4(b: seq<byte>): u32
    requires |b| == 4
  {
    b[0] as int + 0x100 * b[1] as int + 0x1_0000 * b[2] as int + 0x100_0000 * b[3] as int
  }

  lemma Val4LE4(v: u32)
    ensures Val4(LE4(v)) == v
  {
    var a, b, c := v / 0x100, v / 0x1_0000, v / 0x100_0000;
    assert b == a / 0x100 && c == b / 0x100;
    assert v == v % 0x100 + 0x100 * a && a == a % 0x100 + 0x100 * b && b == b % 0x100 + 0x100 * c;
  }

  lemma LE4Val4(b: seq<byte>)
    requires |b| == 4
    ensures LE4(Val4(b)) == b
  {
    var v: int := Val4(b);
    var w: int := b[1] as int + 0x100 * b[2] as int + 0x1_0000 * b[3] as int;
    var x: int := b[2] as int + 0x100 * b[3] as int;
    Arithmetic.DivModUnique(v, 0x100, w, b[0]);
    Arithmetic.DivModUnique(w, 0x100, x, b[1]);
    Arithmetic.DivModUnique(x, 0x100, b[3], b[2]);
    Arithmetic.DivModUnique(v, 0x1_0000, x, b[0] as int + 0x100 * b[1] as int);
    Arithmetic.DivModUnique(v, 0x100_0000, b[3], v - 0x100_0000 * b[3] as int);
  }

  lemma Val2LE2(v: u16)
    ensures Val2(LE2(v)) == v
  {
  }

  function Dword(m: Mem, a: int): u32 {
    Val4(Get(m, a, 4))
  }

  function PutDword(m: Mem, a: int, v: u32): Mem {
    Put(m, a, LE4(v))
  }

  lemma DwordPutDword(m: Mem, a: int, v: u32)
    ensures Dword(PutDword(m, a, v), a) == v
  {
    GetPutSame(m, a, LE4(v));
    Val4LE4(v);
  }
}
