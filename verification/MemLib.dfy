/**
  The simulated heap of memlib.c: a fixed buffer of 4-byte words with a break that only moves up.
  An address is a word offset from the start of the buffer, so byte address 4 * a; C's NULL is 0,
  which no block and no tree node can have. A word carries the kind of value last stored in it, and
  reading a field demands that kind: no code verified here reads a stale word as something else.
 */
module MemLib {
  import opened RBTree

  type Byte = b: nat | b < 256

  datatype Word =
    | Ptr(addr: nat)
    | Bits(size: nat, alloc: bool, color: Color, nul: bool)
    | Num(n: nat)
    | Data(b0: Byte, b1: Byte, b2: Byte, b3: Byte)

  const NULL: nat := 0

  // ----- the bytes of a word, least significant first -----

  function Octet(n: nat, i: nat): Byte {
    if i == 0 then n % 256 else Octet(n / 256, i - 1)
  }

  function Flag(b: bool): nat {
    if b then 1 else 0
  }

  // The packed header word: 29 bits of size, then the alloc, color and null flags.
  function Packed(size: nat, alloc: bool, color: Color, nul: bool): nat {
    size + 0x2000_0000 * (Flag(alloc) + 2 * Flag(color.Red?) + 4 * Flag(nul))
  }

  function WordByte(w: Word, i: nat): Byte {
    match w
    case Ptr(a) => Octet(4 * a, i)
    case Bits(size, alloc, color, nul) => Octet(Packed(size, alloc, color, nul), i)
    case Num(n) => Octet(n, i)
    case Data(b0, b1, b2, b3) => if i == 0 then b0 else if i == 1 then b1 else if i == 2 then b2 else b3
  }

  // The byte at offset i of the heap; beyond the buffer there is nothing to read.
  function ByteAt(m: seq<Word>, i: int): Byte {
    if 0 <= i < 4 * |m| then WordByte(m[i / 4], i % 4) else 0
  }

  // Word w with its byte i replaced.
  function PutByte(w: Word, i: nat, b: Byte): Word {
    Data(if i == 0 then b else WordByte(w, 0), if i == 1 then b else WordByte(w, 1),
         if i == 2 then b else WordByte(w, 2), if i == 3 then b else WordByte(w, 3))
  }

  const MAX_HEAP: nat := 20 * 0x10_0000
  const MAX_WORDS: nat := MAX_HEAP / 4

  // The words a copy may read past the largest legal break.
  const SLACK: nat := 2

  class Heap {
    const mem: array<Word>
    var brk: nat

    ghost predicate Valid()
      reads this
    {
      mem.Length == MAX_WORDS + SLACK && brk <= MAX_WORDS
    }

    // mem_init
    constructor ()
      ensures Valid() && brk == 0 && fresh(mem)
    {
      mem := new Word[MAX_WORDS + SLACK](_ => Num(0));
      brk := 0;
    }

    // mem_sbrk, counted in words: the old break, or failure with the break unmoved.
    method Sbrk(incr: int) returns (ok: bool, old_brk: nat)
      requires Valid()
      modifies this`brk
      ensures Valid() && old_brk == old(brk)
      ensures ok == (0 <= incr && old(brk) + incr <= MAX_WORDS)
      ensures brk == if ok then old(brk) + incr else old(brk)
    {
      old_brk := brk;
      if incr < 0 || brk + incr > MAX_WORDS {
        return false, old_brk;
      }
      brk := brk + incr;
      ok := true;
    }

    // mem_reset_brk
    method ResetBrk()
      requires Valid()
      modifies this`brk
      ensures Valid() && brk == 0
    {
      brk := 0;
    }
  }

  // ----- byte loops -----

  // *((unsigned char *) at)
  method LoadByte(mem: array<Word>, at: nat) returns (b: Byte)
    requires at < 4 * mem.Length
    ensures b == ByteAt(mem[..], at)
  {
    b := WordByte(mem[at / 4], at % 4);
  }

  method StoreByte(mem: array<Word>, at: nat, b: Byte)
    requires at < 4 * mem.Length
    modifies mem
    ensures forall i {:trigger ByteAt(mem[..], i)} :: 0 <= i < 4 * mem.Length ==>
      ByteAt(mem[..], i) == if i == at then b else ByteAt(old(mem[..]), i)
    ensures forall w :: 0 <= w < mem.Length && !(4 * w <= at < 4 * w + 4) ==> mem[w] == old(mem[w])
  {
    ghost var m := mem[..];
    mem[at / 4] := PutByte(mem[at / 4], at % 4, b);
    forall i | 0 <= i < 4 * mem.Length
      ensures ByteAt(mem[..], i) == if i == at then b else ByteAt(m, i)
    {
      assert i / 4 == at / 4 && i % 4 == at % 4 ==> i == at;
    }
  }

  // Memory n is m with `count` bytes from dst set to c.
  ghost predicate BytesFilled(m: seq<Word>, n: seq<Word>, dst: nat, count: nat, c: Byte) {
    |n| == |m| && forall i {:trigger ByteAt(n, i)} :: 0 <= i < 4 * |m| ==>
      ByteAt(n, i) == if dst <= i < dst + count then c else ByteAt(m, i)
  }

  // Memory n is m with `count` bytes from src copied to dst.
  ghost predicate BytesCopied(m: seq<Word>, n: seq<Word>, dst: nat, src: nat, count: nat) {
    |n| == |m| && forall i {:trigger ByteAt(n, i)} :: 0 <= i < 4 * |m| ==>
      ByteAt(n, i) == if dst <= i < dst + count then ByteAt(m, src + (i - dst)) else ByteAt(m, i)
  }

  // Words of n that hold none of the `count` bytes from dst are those of m.
  ghost predicate WordsKept(m: seq<Word>, n: seq<Word>, dst: nat, count: nat) {
    |n| == |m| && forall w :: 0 <= w < |m| && (4 * w + 4 <= dst || dst + count <= 4 * w) ==> n[w] == m[w]
  }

  // The memset that the driver fills payloads with.
  method Memset(mem: array<Word>, dst: nat, c: Byte, n: nat)
    requires dst + n <= 4 * mem.Length
    modifies mem
    ensures BytesFilled(old(mem[..]), mem[..], dst, n, c)
    ensures WordsKept(old(mem[..]), mem[..], dst, n)
  {
    var i := 0;
    while i < n
      invariant 0 <= i <= n
      invariant BytesFilled(old(mem[..]), mem[..], dst, i, c)
      invariant WordsKept(old(mem[..]), mem[..], dst, n)
    {
      StoreByte(mem, dst + i, c);
      i := i + 1;
    }
  }

  // mm_memcpy: byte by byte, upwards, between ranges that do not overlap.
  method Memcpy(mem: array<Word>, dst: nat, src: nat, n: nat)
    requires dst + n <= 4 * mem.Length && src + n <= 4 * mem.Length
    requires dst + n <= src || src + n <= dst
    modifies mem
    ensures BytesCopied(old(mem[..]), mem[..], dst, src, n)
    ensures WordsKept(old(mem[..]), mem[..], dst, n)
  {
    ghost var m := mem[..];
    var i := 0;
    while i < n
      invariant 0 <= i <= n
      invariant BytesCopied(m, mem[..], dst, src, i)
      invariant WordsKept(m, mem[..], dst, n)
    {
      var b := LoadByte(mem, src + i);
      assert b == ByteAt(m, src + i);
      StoreByte(mem, dst + i, b);
      i := i + 1;
    }
  }
}
