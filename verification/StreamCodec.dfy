/** The stateful procedures of `src/stream.c`, with their buffers, proved against the functions
    of Stream and StreamSession. */
module StreamCodec {
  import opened Wrappers
  import opened Bytes
  import opened PingPong
  import opened Buffers
  import opened Stream
  import opened StreamSession

  /** The padding of src/stream.c:410-414: room is made and filled with zeros. */
  method Pad(src: Buf, padding: nat, capacity: nat) returns (r: Buf)
    requires ValidBuf(src)
    ensures r.len == src.len && padding + r.len <= |r.mem|
    ensures r.mem[..padding + r.len] == Zeros(padding) + Data(src)
  {
    hide Zeros;
    r := src;
    if padding != 0 {
      r := Realloc(src, src.len + padding, capacity);
      WriteAppends(r, padding, Data(src));
      r := Write(r, padding, Data(src));
      ghost var moved := r.mem;
      r := Write(r, 0, Zeros(padding));
      assert r.mem[padding..padding + r.len] == moved[padding..padding + r.len];
      assert r.mem[..padding + r.len] == Zeros(padding) + r.mem[padding..padding + r.len];
    } else {
      assert Zeros(0) + Data(src) == Data(src);
    }
  }

  /** The masking step shared by stream_encrypt and stream_decrypt, src/stream.c:408-425. It is
      not `ok` when the cipher library stops the program. */
  method Mask(c: Cipher, nonce: bytes, counter: nat, src: Buf, dst: Buf, at: nat, capacity: nat)
    returns (ok: bool, r: Buf)
    requires ValidCipher(c) && ValidBuf(src) && at + counter % BLOCK + src.len <= |dst.mem|
    ensures |r.mem| == |dst.mem| && r.len == dst.len
    ensures ok <==> Call(c, nonce, counter, Data(src)) != None
    ensures ok ==> r.mem[..at + src.len] == dst.mem[..at] + Call(c, nonce, counter, Data(src)).value
  {
    hide Ic, XorIc, Zeros;
    var padding := counter % BLOCK;
    var padded := Pad(src, padding, capacity);
    var masked := XorIc(c, nonce, Ic(c.kind, counter / BLOCK), padded.mem[..src.len + padding]);
    r := dst;
    if masked == None {
      return false, r;
    }
    r := Unshift(dst, at, masked.value, padding);
    ok := true;
  }

  /** The masked blocks are stored and moved over the padding, src/stream.c:415-425. */
  method Unshift(dst: Buf, at: nat, masked: bytes, padding: nat) returns (r: Buf)
    requires padding <= |masked| && at + |masked| <= |dst.mem|
    ensures |r.mem| == |dst.mem| && r.len == dst.len
    ensures r.mem[..at + |masked| - padding] == dst.mem[..at] + masked[padding..]
  {
    var n := |masked| - padding;
    WriteAppends(dst, at, masked);
    r := Write(dst, at, masked);
    assert r.mem[at + padding..at + padding + n] == masked[padding..];
    if padding != 0 {
      WriteAppends(r, at, r.mem[at + padding..at + padding + n]);
      assert r.mem[..at] == dst.mem[..at];
      r := Write(r, at, r.mem[at + padding..at + padding + n]);
    }
  }

  /** The sending half of cipher_ctx_t. */
  class SenderCtx {
    const c: Cipher
    const nonce: bytes
    var init: bool
    var counter: nat

    ghost predicate Valid()
    {
      ValidCipher(c) && |nonce| == NonceLen(c.kind)
    }

    ghost function View(): (st: Sender)
      reads this
    {
      Sender(init, counter)
    }

    /** stream_ctx_init with fresh random bytes as nonce. */
    constructor (c: Cipher, nonce: bytes)
      requires ValidCipher(c) && |nonce| == NonceLen(c.kind)
      ensures Valid() && View() == UNUSED && this.c == c && this.nonce == nonce
    {
      this.c, this.nonce, init, counter := c, nonce, false, 0;
    }

    /** stream_encrypt, src/stream.c:377-446; `kept` is the static buffer with what earlier calls
        left. It is not `ok` when the cipher library stops the program. */
    method Encrypt(plaintext: Buf, kept: Buf, capacity: nat) returns (ok: bool, r: Buf)
      requires Valid() && ValidBuf(plaintext)
      modifies this
      ensures ValidBuf(r)
      ensures var s := StreamSession.Encrypt(c, nonce, old(View()), Data(plaintext));
              View() == s.st && ok == s.ok && (ok ==> Data(r) == s.out)
    {
      hide ValidCipher, Call;
      var nonceLen := if init then 0 else NonceLen(c.kind);
      var tmp := Realloc(kept, nonceLen + plaintext.len, capacity);
      if !init {
        WriteAppends(tmp, 0, nonce);
        tmp := Write(tmp, 0, nonce);
        counter := 0;
        init := true;
      }
      assert tmp.mem[..nonceLen] == if old(init) then [] else nonce;
      var padding := counter % BLOCK;
      ghost var head := tmp.mem[..nonceLen];
      tmp := Realloc(tmp, nonceLen + (padding + plaintext.len) * 2, capacity);
      assert tmp.mem[..nonceLen] == head;
      ok, tmp := Mask(c, nonce, counter, plaintext, tmp, nonceLen, capacity);
      r := plaintext;
      if !ok {
        return;
      }
      counter := (counter + plaintext.len) % COUNTER;
      r := Realloc(plaintext, nonceLen + plaintext.len, capacity);
      WriteAppends(r, 0, tmp.mem[..nonceLen + plaintext.len]);
      r := Write(r, 0, tmp.mem[..nonceLen + plaintext.len]);
      r := r.(len := nonceLen + plaintext.len);
    }
  }

  /** The receiving half of cipher_ctx_t. */
  class ReceiverCtx {
    const c: Cipher
    var init: nat
    var chunk: Option<Buf>
    var nonce: bytes
    var counter: nat

    ghost predicate Valid()
      reads this
    {
      && ValidCipher(c)
      && (chunk.Some? ==>
            ValidBuf(chunk.value) && chunk.value.len <= NonceLen(c.kind) <= |chunk.value.mem|)
    }

    ghost function View(): (st: Receiver)
      requires Valid()
      reads this
      ensures |st.chunk| <= NonceLen(c.kind)
    {
      Receiver(init, if chunk.Some? then Data(chunk.value) else [], nonce, counter)
    }

    constructor (c: Cipher)
      requires ValidCipher(c)
      ensures Valid() && View() == IDLE && this.c == c
    {
      this.c, init, chunk, nonce, counter := c, 0, None, [], 0;
    }

    /** The nonce bytes of the event are moved to the chunk, src/stream.c:521-540. */
    method Take(ciphertext: Buf) returns (r: Buf)
      requires Valid() && ValidBuf(ciphertext) && init == 0
      modifies this`chunk
      ensures Valid() && ValidBuf(r) && chunk.Some?
      ensures var room := NonceLen(c.kind) - |old(View()).chunk|;
              var n := if room < ciphertext.len then room else ciphertext.len;
              && View() == old(View()).(chunk := old(View()).chunk + Data(ciphertext)[..n])
              && Data(r) == Data(ciphertext)[n..]
    {
      hide ValidCipher;
      var b := if chunk.Some? then chunk.value else Buf(Zeros(NonceLen(c.kind)), 0);
      assert Data(b) == old(View()).chunk;
      var room := NonceLen(c.kind) - b.len;
      var n := if room < ciphertext.len then room else ciphertext.len;
      var front := Front(ciphertext, n);
      WriteAppends(b, b.len, front);
      b := Write(b, b.len, front);
      r := DropFront(ciphertext, n);
      chunk := Some(b.(len := b.len + n));
    }

    /** stream_decrypt from the masked bytes on, src/stream.c:559-612. */
    method Finish(ciphertext: Buf, plaintext: Buf, capacity: nat, memory: Memory) returns (code: Option<Code>, r: Buf)
      requires Valid() && ValidBuf(ciphertext) && memory.Valid()
      modifies this, memory, memory.count, memory.ping.bf, memory.pong.bf
      ensures Valid() && memory.Valid() && ValidBuf(r)
      ensures var o := Unmask(c, memory.p, old(memory.hist), old(View()), Data(ciphertext));
              && View() == o.st && memory.hist == o.hist && code == o.code
              && (code == Some(OK) ==> Data(r) == o.out)
    {
      hide ValidCipher, Call, Seen;
      r := ciphertext;
      if ciphertext.len <= 0 {
        return Some(NEED_MORE), r;
      }
      var padding := counter % BLOCK;
      var plain := Realloc(plaintext, (ciphertext.len + padding) * 2, capacity);
      var ok;
      ok, plain := Mask(c, nonce, counter, ciphertext, plain, 0, capacity);
      if !ok {
        return None, r;
      }
      assert plain.mem[..ciphertext.len] == Call(c, nonce, counter, Data(ciphertext)).value;
      counter := (counter + ciphertext.len) % COUNTER;
      var bad := Record(memory);
      if bad {
        return Some(ERROR), r;
      }
      WriteAppends(r, 0, plain.mem[..ciphertext.len]);
      r := Write(r, 0, plain.mem[..ciphertext.len]);
      code := Some(OK);
    }

    /** The second check of the nonce and its recording, src/stream.c:597-606. */
    method Record(memory: Memory) returns (bad: bool)
      requires Valid() && memory.Valid()
      modifies this`init, memory, memory.count, memory.ping.bf, memory.pong.bf
      ensures Valid() && memory.Valid()
      ensures bad <==> old(init) == 1 && Seen(memory.p, old(memory.hist), nonce)
      ensures init == if old(init) == 1 && !bad then 2 else old(init)
      ensures memory.hist == if old(init) == 1 && !bad then Added(memory.p, old(memory.hist), nonce)
                             else old(memory.hist)
    {
      hide ValidCipher, Seen;
      bad := false;
      if init == 1 {
        var found := memory.Check(nonce);
        if found == 1 {
          return true;
        }
        var _ := memory.Add(nonce);
        init := 2;
      }
    }

    /** stream_decrypt, src/stream.c:506-613. */
    method Decrypt(ciphertext: Buf, kept: Buf, capacity: nat, memory: Memory) returns (code: Option<Code>, r: Buf)
      requires Valid() && ValidBuf(ciphertext) && memory.Valid()
      modifies this, memory, memory.count, memory.ping.bf, memory.pong.bf
      ensures Valid() && memory.Valid() && ValidBuf(r)
      ensures var o := StreamSession.Decrypt(c, memory.p, old(memory.hist), old(View()), Data(ciphertext));
              && View() == o.st && memory.hist == o.hist && code == o.code
              && (code == Some(OK) ==> Data(r) == o.out)
    {
      hide ValidCipher, Unmask, Seen;
      var tmp := Realloc(kept, ciphertext.len, capacity);
      r := ciphertext;
      if init == 0 {
        r := Take(ciphertext);
        if chunk.value.len < NonceLen(c.kind) {
          return Some(NEED_MORE), r;
        }
        nonce := chunk.value.mem[..NonceLen(c.kind)];
        counter, init := 0, 1;
        var found := memory.Check(nonce);
        if found == 1 {
          return Some(ERROR), r;
        }
      }
      code, r := Finish(r, tmp, capacity, memory);
    }
  }

  // ---------- packets ----------

  /** stream_encrypt_all, src/stream.c:327-375; `nonce` is the random one of a new context. */
  method EncryptAll(c: Cipher, nonce: bytes, plaintext: Buf, kept: Buf, capacity: nat) returns (ok: bool, r: Buf)
    requires ValidCipher(c) && |nonce| == NonceLen(c.kind) && ValidBuf(plaintext)
    ensures ValidBuf(r)
    ensures ok <==> Packet(c, nonce, Data(plaintext)) != None
    ensures ok ==> Data(r) == Packet(c, nonce, Data(plaintext)).value
    ensures ok ==> OnTheWire(c, nonce, Data(plaintext), Data(r))
  {
    hide XorIc;
    var nonceLen := NonceLen(c.kind);
    var tmp := Realloc(kept, nonceLen + plaintext.len, capacity);
    WriteAppends(tmp, 0, nonce);
    tmp := Write(tmp, 0, nonce);
    assert tmp.mem[..nonceLen] == nonce;
    var masked := XorIc(c, nonce, 0, plaintext.mem[..plaintext.len]);
    r := plaintext;
    if masked == None {
      return false, r;
    }
    XorIcLength(c, nonce, 0, Data(plaintext));
    WriteAppends(tmp, nonceLen, masked.value);
    tmp := Write(tmp, nonceLen, masked.value);
    r := Realloc(plaintext, nonceLen + plaintext.len, capacity);
    WriteAppends(r, 0, tmp.mem[..nonceLen + plaintext.len]);
    r := Write(r, 0, tmp.mem[..nonceLen + plaintext.len]);
    r := r.(len := nonceLen + plaintext.len);
    ok := true;
    assert Data(r) == Packet(c, nonce, Data(plaintext)).value;
    hide OnTheWire;
    PacketOnTheWire(c, nonce, Data(plaintext));
  }

  lemma {:induction false} XorIcLength(c: Cipher, nonce: bytes, ic: nat, m: bytes)
    requires ValidCipher(c)
    ensures XorIc(c, nonce, ic, m) != None ==> |XorIc(c, nonce, ic, m).value| == |m|
  {
  }

  /** stream_decrypt_all, src/stream.c:448-504. */
  method DecryptAll(c: Cipher, ciphertext: Buf, kept: Buf, capacity: nat, memory: Memory)
    returns (code: Option<Code>, r: Buf)
    requires ValidCipher(c) && ValidBuf(ciphertext) && memory.Valid()
    modifies memory, memory.count, memory.ping.bf, memory.pong.bf
    ensures memory.Valid() && ValidBuf(r)
    ensures var (result, out, hist) := OpenPacket(c, memory.p, old(memory.hist), Data(ciphertext));
            memory.hist == hist && code == result && (code == Some(OK) ==> Data(r) == out)
  {
    hide XorIc, Seen, ValidCipher;
    var nonceLen := NonceLen(c.kind);
    r := ciphertext;
    if ciphertext.len <= nonceLen {
      return Some(ERROR), r;
    }
    ghost var e := Data(ciphertext);
    var n := ciphertext.len - nonceLen;
    var nonce, body := ciphertext.mem[..nonceLen], ciphertext.mem[nonceLen..ciphertext.len];
    assert nonce == e[..nonceLen] && body == e[nonceLen..];
    var found := memory.Check(nonce);
    if found == 1 {
      return Some(ERROR), r;
    }
    var plain := Realloc(kept, ciphertext.len, capacity);
    var masked := XorIc(c, nonce, 0, body);
    if masked == None {
      return None, r;
    }
    XorIcLength(c, nonce, 0, body);
    WriteAppends(plain, 0, masked.value);
    plain := Write(plain, 0, masked.value);
    var _ := memory.Add(nonce);
    r := Realloc(ciphertext, n, capacity);
    WriteAppends(r, 0, plain.mem[..n]);
    r := Write(r, 0, plain.mem[..n]);
    r := r.(len := n);
    code := Some(OK);
  }
}
