/** The stream cipher layer of `src/stream.c` for salsa20, chacha20 and chacha20-ietf: how one
    call masks its bytes, and what whole sessions of calls send and receive. */
module Stream {
  import opened Arithmetic
  import opened Bytes
  import opened Bitwise
  import opened Wrappers

  datatype Method = Salsa20 | Chacha20 | Chacha20Ietf

  /** `block` is the keystream block of a nonce at a block index, under the session's key. */
  datatype Cipher = Cipher(kind: Method, block: (bytes, nat) -> bytes)

  const BLOCK := 64
  const COUNTER: nat := 0x1_0000_0000_0000_0000

  ghost predicate ValidCipher(c: Cipher)
  {
    forall n, i :: |c.block(n, i)| == BLOCK
  }

  function NonceLen(m: Method): (n: nat)
  {
    if m == Chacha20Ietf then 12 else 8
  }

  /** The block counter passed on: chacha20-ietf truncates it to 32 bits. */
  function Ic(m: Method, index: nat): (ic: nat)
  {
    if m == Chacha20Ietf then index % 0x1_0000_0000 else index
  }

  /** How many bytes a session can carry before the counter passed on comes round again. */
  function Limit(m: Method): (n: nat)
  {
    if m == Chacha20Ietf then 64 * 0x1_0000_0000 else COUNTER
  }

  /** How many bytes of keystream a nonce has: the block counter of the cipher is 32 bits wide
      for chacha20-ietf (section 2.4 of RFC 8439) and 64 bits wide for the others. */
  function Reach(m: Method): (n: nat)
    ensures Limit(m) <= n
  {
    if m == Chacha20Ietf then 64 * 0x1_0000_0000 else 64 * COUNTER
  }

  /** The sizes as numbers: a session of chacha20-ietf carries 2^38 bytes, the others 2^64. */
  lemma {:induction false} Sizes(m: Method)
    ensures NonceLen(m) == match m case Salsa20 => 8 case Chacha20 => 8 case Chacha20Ietf => 12
    ensures Limit(m) == match m
                        case Chacha20Ietf => 0x40_0000_0000
                        case _ => 0x1_0000_0000_0000_0000
  {
  }

  // ---------- the keystream ----------

  function Keystream(c: Cipher, nonce: bytes, i: nat): (b: byte)
    requires ValidCipher(c)
  {
    c.block(nonce, i / BLOCK)[i % BLOCK]
  }

  /** The data XOR the keystream from byte offset `off` on. */
  ghost function Masked(c: Cipher, nonce: bytes, off: nat, data: bytes): (r: bytes)
    requires ValidCipher(c)
    ensures |r| == |data|
    ensures forall i :: 0 <= i < |data| ==> r[i] == Xor(data[i], Keystream(c, nonce, off + i))
  {
    seq(|data|, i requires 0 <= i < |data| => Xor(data[i], Keystream(c, nonce, off + i)))
  }

  lemma {:induction false} MaskedConcat(c: Cipher, nonce: bytes, off: nat, a: bytes, b: bytes)
    requires ValidCipher(c)
    ensures Masked(c, nonce, off, a + b) == Masked(c, nonce, off, a) + Masked(c, nonce, off + |a|, b)
  {
    hide Keystream, Xor;
    var l, r := Masked(c, nonce, off, a + b), Masked(c, nonce, off, a) + Masked(c, nonce, off + |a|, b);
    forall i | 0 <= i < |l| ensures l[i] == r[i] {
      if i >= |a| {
        assert off + |a| + (i - |a|) == off + i;
        assert r[i] == Masked(c, nonce, off + |a|, b)[i - |a|];
      }
    }
  }

  /** Masking twice at the same offset gives the data back. */
  lemma {:induction false} MaskedTwice(c: Cipher, nonce: bytes, off: nat, data: bytes)
    requires ValidCipher(c)
    ensures Masked(c, nonce, off, Masked(c, nonce, off, data)) == data
  {
    hide Keystream, Xor;
    forall i | 0 <= i < |data| ensures Masked(c, nonce, off, Masked(c, nonce, off, data))[i] == data[i] {
      XorTwice(data[i], Keystream(c, nonce, off + i));
    }
  }

  lemma {:induction false} MaskedSlice(c: Cipher, nonce: bytes, data: bytes, lo: nat, hi: nat)
    requires ValidCipher(c) && lo <= hi <= |data|
    ensures Masked(c, nonce, 0, data)[lo..hi] == Masked(c, nonce, lo, data[lo..hi])
  {
    hide Keystream, Xor;
    forall i | 0 <= i < hi - lo
      ensures Masked(c, nonce, 0, data)[lo..hi][i] == Masked(c, nonce, lo, data[lo..hi])[i]
    {
      assert data[lo..hi][i] == data[lo + i];
    }
  }

  // ---------- one call ----------

  /** crypto_stream_xor_ic: the blocks from index `ic` on. A call that needs a block past the
      last one has no result: the cipher library ends the program. */
  function XorIc(c: Cipher, nonce: bytes, ic: nat, m: bytes): (r: Option<bytes>)
    requires ValidCipher(c)
    ensures r == None <==> BLOCK * ic + |m| > Reach(c.kind)
    ensures r != None ==> |r.value| == |m|
  {
    if BLOCK * ic + |m| > Reach(c.kind) then None
    else Some(XorBlocks(c, nonce, ic, m))
  }

  function XorBlocks(c: Cipher, nonce: bytes, ic: nat, m: bytes): (r: bytes)
    requires ValidCipher(c)
    ensures |r| == |m|
    ensures forall i :: 0 <= i < |m| ==> r[i] == Xor(m[i], c.block(nonce, ic + i / BLOCK)[i % BLOCK])
  {
    seq(|m|, i requires 0 <= i < |m| => Xor(m[i], c.block(nonce, ic + i / BLOCK)[i % BLOCK]))
  }

  function Zeros(n: nat): (r: bytes)
    ensures |r| == n
  {
    seq(n, _ => 0)
  }

  /** What a call does with its data: pad to the block boundary, mask whole blocks, cut the
      padding off. */
  ghost function Call(c: Cipher, nonce: bytes, counter: nat, data: bytes): (r: Option<bytes>)
    requires ValidCipher(c)
    ensures r != None ==> |r.value| == |data|
  {
    var padding := counter % BLOCK;
    Unpad(XorIc(c, nonce, Ic(c.kind, counter / BLOCK), Zeros(padding) + data), padding)
  }

  function Unpad(r: Option<bytes>, padding: nat): (d: Option<bytes>)
    requires r != None ==> padding <= |r.value|
  {
    if r == None then None else Some(r.value[padding..])
  }

  /** Masking at an offset, as far as the keystream goes. */
  ghost function MaskedWithin(c: Cipher, nonce: bytes, off: nat, data: bytes): (r: Option<bytes>)
    requires ValidCipher(c)
  {
    if off + |data| > Reach(c.kind) then None else Some(Masked(c, nonce, off, data))
  }

  lemma {:induction false} Truncated(c: nat)
    ensures BLOCK * (c / BLOCK % 0x1_0000_0000) + c % BLOCK == c % (64 * 0x1_0000_0000)
  {
    var q, r := c / BLOCK / 0x1_0000_0000, c / BLOCK % 0x1_0000_0000;
    Quotient(c, 64 * 0x1_0000_0000, q, BLOCK * r + c % BLOCK);
  }

  lemma {:induction false} Divides(pos: nat)
    ensures pos % COUNTER % (64 * 0x1_0000_0000) == pos % (64 * 0x1_0000_0000)
  {
    var q, r := DivMod(pos % COUNTER, 64 * 0x1_0000_0000);
    Quotient(pos % COUNTER, 64 * 0x1_0000_0000, q, r);
    Quotient(pos, 64 * 0x1_0000_0000, pos / COUNTER * 0x400_0000 + q, r);
  }

  /** The counter's block index and padding together are the byte position, as far as the
      block counter reaches. */
  lemma {:induction false} Position(m: Method, pos: nat)
    ensures BLOCK * Ic(m, pos % COUNTER / BLOCK) + pos % COUNTER % BLOCK == pos % Limit(m)
  {
    if m == Chacha20Ietf {
      Truncated(pos % COUNTER);
      Divides(pos);
    }
  }

  /** The shift trick is masking at a byte offset: the call at stream position `pos` uses the
      keystream from `pos` modulo the limit on, and stops the program if that runs out. */
  lemma {:induction false} CallMasks(c: Cipher, nonce: bytes, pos: nat, data: bytes)
    requires ValidCipher(c)
    ensures Call(c, nonce, pos % COUNTER, data) == MaskedWithin(c, nonce, pos % Limit(c.kind), data)
  {
    hide Ic, Limit, MaskedWithin, XorIc, Zeros, Unpad;
    Position(c.kind, pos);
    var pad, ic := pos % COUNTER % BLOCK, Ic(c.kind, pos % COUNTER / BLOCK);
    Shift(c, nonce, ic, pad, data);
  }

  lemma {:induction false} Shift(c: Cipher, nonce: bytes, ic: nat, pad: nat, data: bytes)
    requires ValidCipher(c) && pad < BLOCK
    ensures Unpad(XorIc(c, nonce, ic, Zeros(pad) + data), pad) == MaskedWithin(c, nonce, BLOCK * ic + pad, data)
  {
    hide XorBlocks, Masked, Zeros, Reach;
    ShiftBlocks(c, nonce, ic, pad, data);
  }

  lemma {:induction false} ShiftBlocks(c: Cipher, nonce: bytes, ic: nat, pad: nat, data: bytes)
    requires ValidCipher(c) && pad < BLOCK
    ensures XorBlocks(c, nonce, ic, Zeros(pad) + data)[pad..] == Masked(c, nonce, BLOCK * ic + pad, data)
  {
    hide Xor, Keystream, XorBlocks, Masked;
    var l, r := XorBlocks(c, nonce, ic, Zeros(pad) + data)[pad..], Masked(c, nonce, BLOCK * ic + pad, data);
    forall i | 0 <= i < |data| ensures l[i] == r[i] {
      BlockAt(c, nonce, ic, pad + i);
      assert (Zeros(pad) + data)[pad + i] == data[i];
      assert BLOCK * ic + (pad + i) == BLOCK * ic + pad + i;
    }
  }

  lemma {:induction false} BlockAt(c: Cipher, nonce: bytes, ic: nat, j: nat)
    requires ValidCipher(c)
    ensures Keystream(c, nonce, BLOCK * ic + j) == c.block(nonce, ic + j / BLOCK)[j % BLOCK]
  {
    Index(ic, j);
  }

  lemma {:induction false} Index(ic: nat, i: nat)
    ensures (BLOCK * ic + i) / BLOCK == ic + i / BLOCK && (BLOCK * ic + i) % BLOCK == i % BLOCK
  {
  }
}
