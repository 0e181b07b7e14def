/** The growable byte buffer `buffer_t` of `src/crypto.h` and its users' result codes. */
module Buffers {
  import opened Bytes

  /** Allocated memory (its size is the capacity) and the number of bytes in use. */
  datatype Buf = Buf(mem: bytes, len: nat)

  ghost predicate ValidBuf(b: Buf)
  {
    b.len <= |b.mem|
  }

  function Data(b: Buf): (d: bytes)
    requires ValidBuf(b)
  {
    b.mem[..b.len]
  }

  lemma {:induction false} DataLength(b: Buf)
    requires ValidBuf(b)
    ensures |Data(b)| == b.len
  {
  }

  function Max(a: nat, b: nat): nat
  {
    if a > b then a else b
  }

  /** src/crypto.c:62-72; what the new memory holds is not specified. */
  method Realloc(b: Buf, len: nat, capacity: nat) returns (r: Buf)
    ensures r.len == b.len && b.mem <= r.mem
    ensures |r.mem| == Max(|b.mem|, Max(len, capacity))
  {
    var size := Max(len, capacity);
    r := b;
    if |b.mem| < size {
      r := b.(mem := b.mem + seq(size - |b.mem|, _ => 0));
    }
  }

  /** memcpy into the buffer: the target range has to lie inside the allocation. */
  function Write(b: Buf, off: nat, src: bytes): (r: Buf)
    requires off + |src| <= |b.mem|
    ensures |r.mem| == |b.mem| && r.len == b.len
  {
    b.(mem := b.mem[..off] + src + b.mem[off + |src|..])
  }

  lemma {:induction false} WriteAppends(b: Buf, off: nat, src: bytes)
    requires off + |src| <= |b.mem|
    ensures Write(b, off, src).mem[..off + |src|] == b.mem[..off] + src
    ensures Write(b, off, src).mem[off..off + |src|] == src
  {
  }

  method Front(b: Buf, n: nat) returns (d: bytes)
    requires ValidBuf(b) && n <= b.len
    ensures n <= |Data(b)| && d == Data(b)[..n]
  {
    d := b.mem[..n];
  }

  /** memmove to the front, src/aead.c:663-665. */
  method DropFront(b: Buf, n: nat) returns (r: Buf)
    requires ValidBuf(b) && n <= b.len
    ensures ValidBuf(r) && n <= |Data(b)| && Data(r) == Data(b)[n..] && r.len == b.len - n
  {
    WriteAppends(b, 0, b.mem[n..b.len]);
    r := Write(b, 0, b.mem[n..b.len]);
    r := r.(len := b.len - n);
  }

  datatype Code = OK | NEED_MORE | ERROR
}
