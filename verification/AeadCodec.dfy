/** The stateful procedures of `src/aead.c` and the receiving side of `src/local_uv.cpp`,
    proved against the functions of Aead and AeadStream. */
module AeadCodec {
  import opened Wrappers
  import opened Bytes
  import opened Sequences
  import opened Slicing
  import opened PingPong
  import opened Buffers
  import opened Aead
  import opened AeadStream

  // ---------- the receiving context ----------

  /** What was drained before, followed by `d`. */
  ghost function Prefixed(head: bytes, d: Drained): (r: Drained)
  {
    d.(out := head + d.out)
  }

  lemma {:induction false} PrefixedEmpty(d: Drained)
    ensures Prefixed([], d) == d
  {
  }

  lemma {:induction false} DrainNothing(s: Suite, key: bytes, n: nat, head: bytes)
    requires ValidSuite(s)
    ensures Prefixed(head, Drain(s, key, n, [])) == Drained(head, [], n, false)
  {
  }

  lemma {:induction false} DrainOnce(s: Suite, key: bytes, n: nat, c: bytes, head: bytes)
    requires ValidSuite(s) && c != []
    ensures var d := Prefixed(head, Drain(s, key, n, c));
            match OpenChunk(s, key, n, c)
            case NeedMore => d == Drained(head, c, n, false)
            case Bad(n') => d == Drained(head, c, n', true)
            case Payload(m, used) => d == Prefixed(head + m, Drain(s, key, Inc(s, Inc(s, n)), c[used..]))
  {
    hide OpenChunk, ValidSuite;
    var o := OpenChunk(s, key, n, c);
    if o.Payload? {
      Associative(head, o.m, Drain(s, key, Inc(s, Inc(s, n)), c[o.used..]).out);
    }
  }

  lemma {:induction false} OpenedBounds(s: Suite, key: bytes, n: nat, c: bytes)
    requires ValidSuite(s)
    ensures var o := OpenChunk(s, key, n, c);
            o.Payload? ==> o.used == ChunkLen(s, o.m) <= |c| && |o.m| <= |c|
  {
  }

  /** One turn of the loop of aead_decrypt, at offsets `cidx` and `plen`. */
  lemma {:induction false} DrainAt(s: Suite, key: bytes, n: nat, c: Buf, cidx: nat, plain: Buf, plen: nat, d0: Drained)
    requires ValidSuite(s) && c.len > 0 && cidx + c.len <= |c.mem| && plen + c.len <= |plain.mem|
    requires d0 == Prefixed(plain.mem[..plen], Drain(s, key, n, c.mem[cidx..cidx + c.len]))
    ensures var cc := c.mem[cidx..cidx + c.len];
            match OpenChunk(s, key, n, cc)
            case NeedMore => d0 == Drained(plain.mem[..plen], cc, n, false)
            case Bad(n') => d0 == Drained(plain.mem[..plen], cc, n', true)
            case Payload(m, used) =>
              && used <= c.len && plen + |m| <= |plain.mem|
              && d0 == Prefixed(Write(plain, plen, m).mem[..plen + |m|],
                                Drain(s, key, Inc(s, Inc(s, n)), c.mem[cidx + used..cidx + c.len]))
  {
    hide OpenChunk, ValidSuite, Inc, Drain, Write, Prefixed;
    var cc := c.mem[cidx..cidx + c.len];
    var o := OpenChunk(s, key, n, cc);
    OpenedBounds(s, key, n, cc);
    DrainOnce(s, key, n, cc, plain.mem[..plen]);
    if o.Payload? {
      SubSlice(c.mem, cidx, cidx + c.len, o.used, |cc|);
      assert cc[o.used..] == cc[o.used..|cc|];
      WriteAppends(plain, plen, o.m);
    }
  }

  /** The receiving half of cipher_ctx_t. */
  class DecoderCtx {
    const s: Suite
    var init: nat
    var salt: bytes
    var skey: bytes
    var nonce: nat
    var chunk: Option<Buf>

    ghost predicate Valid()
      reads this
    {
      ValidSuite(s) && (chunk.Some? ==> ValidBuf(chunk.value))
    }

    ghost function View(): (st: Decoder)
      requires Valid()
      reads this
    {
      Decoder(init, salt, skey, nonce, if chunk.Some? then Data(chunk.value) else [])
    }

    /** aead_ctx_init, src/aead.c:369-379. */
    constructor (s: Suite)
      requires ValidSuite(s)
      ensures Valid() && View() == FRESH && this.s == s
    {
      this.s := s;
      init, salt, skey, nonce, chunk := 0, [], [], 0, None;
    }

    /** aead_chunk_decrypt, src/aead.c:581-624, on `clen` bytes at offset `cidx`; the payload
        goes to `plain` at offset `plen`. */
    method ChunkDecrypt(plain: Buf, plen: nat, c: Buf, cidx: nat, clen: nat)
      returns (code: Code, plain': Buf, chunkPlen: nat, clen': nat)
      requires ValidSuite(s) && cidx + clen <= |c.mem| && plen + clen <= |plain.mem|
      modifies this`nonce
      ensures match OpenChunk(s, skey, old(nonce), c.mem[cidx..cidx + clen])
              case NeedMore => code == NEED_MORE && nonce == old(nonce) && clen' == clen && plain' == plain
              case Bad(n) => code == ERROR && nonce == n && clen' == clen && plain' == plain
              case Payload(m, used) =>
                && code == OK && nonce == Inc(s, Inc(s, old(nonce)))
                && clen' == clen - used && chunkPlen == |m| && plain' == Write(plain, plen, m)
    {
      hide ValidSuite, Inc, LoadLen, Write;
      var tlen := s.tagLen;
      plain', chunkPlen, clen' := plain, 0, clen;
      if clen <= 2 * tlen + LEN_SIZE {
        return NEED_MORE, plain', chunkPlen, clen';
      }
      SubSlice(c.mem, cidx, cidx + clen, 0, LEN_SIZE + tlen);
      var lb := s.open(skey, nonce, c.mem[cidx..cidx + LEN_SIZE + tlen]);
      if lb.None? {
        return ERROR, plain', chunkPlen, clen';
      }
      OpenedLength(s, skey, nonce, c.mem[cidx..cidx + LEN_SIZE + tlen]);
      var mlen := LoadLen(lb.value);
      if mlen == 0 {
        return ERROR, plain', chunkPlen, clen';
      }
      var chunkLen := 2 * tlen + LEN_SIZE + mlen;
      if clen < chunkLen {
        return NEED_MORE, plain', chunkPlen, clen';
      }
      nonce := Inc(s, nonce);
      var at := cidx + LEN_SIZE + tlen;
      SubSlice(c.mem, cidx, cidx + clen, LEN_SIZE + tlen, LEN_SIZE + tlen + mlen + tlen);
      var m := s.open(skey, nonce, c.mem[at..at + mlen + tlen]);
      if m.None? {
        return ERROR, plain', chunkPlen, clen';
      }
      OpenedLength(s, skey, nonce, c.mem[at..at + mlen + tlen]);
      plain' := Write(plain, plen, m.value);
      chunkPlen := |m.value|;
      nonce := Inc(s, nonce);
      clen' := clen - chunkLen;
      return OK, plain', chunkPlen, clen';
    }

    /** The loop of aead_decrypt, src/aead.c:670-694, over the bytes of `c`. */
    method DrainLoop(c0: Buf, plain0: Buf) returns (code: Code, c: Buf, plain: Buf)
      requires ValidSuite(s) && ValidBuf(c0) && c0.len <= |plain0.mem|
      modifies this`nonce
      ensures var d := Drain(s, skey, old(nonce), Data(c0));
              && ValidBuf(c) && ValidBuf(plain)
              && (d.bad ==> code == ERROR)
              && (!d.bad && d.out == [] && d.rest != [] ==> code == NEED_MORE)
              && (!d.bad && (d.out != [] || d.rest == []) ==> code == OK && Data(plain) == d.out)
              && nonce == d.nonce && |d.rest| <= |Data(c0)|
              && Data(c) == if d.bad then Data(c0)[..|d.rest|] else d.rest
    {
      hide OpenChunk, ValidSuite, Inc, Drain, Write, Prefixed;
      ghost var d0 := Drain(s, skey, nonce, Data(c0));
      c, plain, code := c0, plain0, OK;
      var plen: nat, cidx: nat := 0, 0;
      assert Data(c0) == c.mem[cidx..cidx + c.len] && plain.mem[..plen] == [];
      PrefixedEmpty(d0);
      while c.len > 0
        invariant cidx + c.len == c0.len && c.mem == c0.mem
        invariant plen + c.len <= |plain.mem| && plen <= cidx && (plen == 0 <==> cidx == 0)
        invariant d0 == Prefixed(plain.mem[..plen], Drain(s, skey, nonce, c.mem[cidx..cidx + c.len]))
        decreases c.len
      {
        ghost var cc := c.mem[cidx..cidx + c.len];
        ghost var n := nonce;
        DrainAt(s, skey, n, c, cidx, plain, plen, d0);
        var r, plain', chunkPlen, clen := ChunkDecrypt(plain, plen, c, cidx, c.len);
        if r == ERROR {
          assert Data(c) == Data(c0)[..c.len];
          plain := plain.(len := 0);
          return ERROR, c, plain;
        } else if r == NEED_MORE {
          plain := plain.(len := plen);
          if plen == 0 {
            assert c.mem[..c.len] == cc;
            return NEED_MORE, c, plain;
          }
          WriteAppends(c, 0, cc);
          assert c.mem[..0] + cc == cc;
          c := Write(c, 0, c.mem[cidx..cidx + clen]);
          return OK, c, plain;
        }
        plain := plain';
        c := c.(len := clen);
        cidx := cidx + s.tagLen * 2 + LEN_SIZE + chunkPlen;
        plen := plen + chunkPlen;
      }
      assert c.mem[cidx..cidx + c.len] == [] && Data(c) == [];
      DrainNothing(s, skey, nonce, plain.mem[..plen]);
      plain := plain.(len := plen);
    }

    /** aead_decrypt, src/aead.c:626-711. */
    method Decrypt(ciphertext: Buf, capacity: nat, memory: Memory) returns (code: Code, plaintext: Buf)
      requires Valid() && ValidBuf(ciphertext) && memory.Valid()
      modifies this, memory, memory.count, memory.ping.bf, memory.pong.bf
      ensures memory.Valid() && Valid() && ValidBuf(plaintext)
      ensures var r := Aead.Decrypt(s, memory.p, old(memory.hist), old(View()), Data(ciphertext));
              && memory.hist == r.hist
              && (code == ERROR <==> r.result.Error?) && (code == NEED_MORE <==> r.result.More?)
              && (code == OK ==> Data(plaintext) == r.result.out)
              && View() == r.st
    {
      hide ValidSuite, Drain, Seen, Deliver, Data, ValidBuf;
      plaintext := ciphertext;
      Append(ciphertext, capacity);
      var tmp := Realloc(Buf([], 0), chunk.value.len, capacity);
      if init == 0 {
        if chunk.value.len <= s.saltLen {
          return NEED_MORE, plaintext;
        }
        var repeated := TakeSalt(memory);
        if repeated {
          return ERROR, plaintext;
        }
      }
      code, plaintext := Finish(chunk.value, tmp, capacity, memory);
    }

    /** The salt is complete: checked, then the session key is set, src/aead.c:654-667. */
    method TakeSalt(memory: Memory) returns (repeated: bool)
      requires Valid() && memory.Valid() && chunk.Some? && s.saltLen < chunk.value.len
      modifies this, memory.ping.bf, memory.pong.bf
      ensures memory.Valid() && memory.hist == old(memory.hist) && Valid() && chunk.Some?
      ensures chunk.value.len <= old(chunk).value.len
      ensures var buf := old(View()).chunk;
              && s.saltLen < |buf| && (repeated <==> Seen(memory.p, memory.hist, buf[..s.saltLen]))
              && View() == if repeated then old(View()).(salt := buf[..s.saltLen])
                           else Decoder(1, buf[..s.saltLen], s.derive(buf[..s.saltLen]), 0, buf[s.saltLen..])
    {
      hide ValidSuite, Seen;
      hide Data, ValidBuf;
      DataLength(chunk.value);
      salt := Front(chunk.value, s.saltLen);
      var found := memory.Check(salt);
      if found == 1 {
        return true;
      }
      var c := DropFront(chunk.value, s.saltLen);
      skey, nonce, chunk, init := s.derive(salt), 0, Some(c), 1;
      return false;
    }

    /** The new bytes join the reassembly buffer, src/aead.c:635-645. */
    method Append(ciphertext: Buf, capacity: nat)
      requires Valid() && ValidBuf(ciphertext)
      modifies this`chunk
      ensures Valid() && chunk.Some?
      ensures Data(chunk.value) == old(View()).chunk + Data(ciphertext)
      ensures |Data(chunk.value)| == chunk.value.len
    {
      hide ValidSuite;
      var c := if chunk.Some? then chunk.value else Buf([], 0);
      if chunk.None? {
        c := Realloc(c, 0, capacity);
      }
      c := Realloc(c, c.len + ciphertext.len, capacity);
      WriteAppends(c, c.len, Data(ciphertext));
      c := Write(c, c.len, Data(ciphertext));
      chunk := Some(c.(len := c.len + ciphertext.len));
    }

    /** aead_decrypt from the loop on, src/aead.c:670-710. */
    method Finish(c: Buf, tmp: Buf, capacity: nat, memory: Memory) returns (code: Code, plaintext: Buf)
      requires Valid() && memory.Valid() && chunk == Some(c) && c.len <= |tmp.mem|
      modifies this, memory, memory.count, memory.ping.bf, memory.pong.bf
      ensures memory.Valid() && Valid() && ValidBuf(plaintext)
      ensures var r := Deliver(s, memory.p, old(memory.hist), old(View()));
              && memory.hist == r.hist
              && (code == ERROR <==> r.result.Error?) && (code == NEED_MORE <==> r.result.More?)
              && (code == OK ==> Data(plaintext) == r.result.out)
              && View() == r.st
    {
      hide ValidSuite, Drain, Seen;
      var c', plain;
      code, c', plain := DrainLoop(c, tmp);
      chunk := Some(c');
      plaintext := plain;
      if code != OK {
        return;
      }
      if init == 1 {
        var repeated := memory.Check(salt);
        if repeated == 1 {
          return ERROR, plaintext;
        }
        var _ := memory.Add(salt);
        init := 2;
      }
    }
  }

  // ---------- the sending context ----------

  /** The sending half of cipher_ctx_t; `ps` are the payloads sent so far. */
  class EncoderCtx {
    const s: Suite
    const salt: bytes
    var init: bool
    var skey: bytes
    var nonce: nat
    ghost var ps: seq<bytes>

    ghost predicate Valid()
      reads this
    {
      && ValidSuite(s) && |salt| == s.saltLen && Sendable(ps)
      && (init <==> ps != [])
      && (init ==> skey == s.derive(salt) && nonce == Nonce(s, 2 * |ps|))
    }

    /** aead_ctx_init with fresh random bytes as salt, src/aead.c:369-379. */
    constructor (s: Suite, salt: bytes)
      requires ValidSuite(s) && |salt| == s.saltLen
      ensures Valid() && ps == [] && this.s == s && this.salt == salt
    {
      this.s, this.salt := s, salt;
      init, skey, nonce, ps := false, [], 0, [];
    }

    /** aead_chunk_encrypt, src/aead.c:493-529, writing to `c` at `off`. */
    method ChunkEncrypt(p: bytes, c: Buf, off: nat, ghost ops: nat) returns (r: Buf)
      requires ValidSuite(s) && |p| <= LEN_MASK && off + ChunkLen(s, p) <= |c.mem| && nonce == Nonce(s, ops)
      modifies this`nonce
      ensures nonce == Nonce(s, ops + 2) && |r.mem| == |c.mem|
      ensures r.mem[..off + ChunkLen(s, p)] == c.mem[..off] + Chunk(s, skey, ops, p)
    {
      var tlen := s.tagLen;
      var field := s.seal(skey, nonce, Store16(|p|));
      r := Write(c, off, field);
      WriteAppends(c, off, field);
      nonce := Inc(s, nonce);
      var body := s.seal(skey, nonce, p);
      WriteAppends(r, off + LEN_SIZE + tlen, body);
      Associative(c.mem[..off], field, body);
      r := Write(r, off + LEN_SIZE + tlen, body);
      nonce := Inc(s, nonce);
    }

    /** The first call of a session, src/aead.c:559-565: the salt goes out and is remembered. */
    method Start(tmp: Buf, memory: Memory) returns (r: Buf)
      requires |salt| == s.saltLen <= |tmp.mem| && memory.Valid()
      modifies this`skey, this`nonce, this`init, memory, memory.count, memory.ping.bf, memory.pong.bf
      ensures init && skey == s.derive(salt) && nonce == Nonce(s, 0)
      ensures |r.mem| == |tmp.mem| && r.mem[..s.saltLen] == salt
      ensures memory.Valid() && memory.hist == Added(memory.p, old(memory.hist), salt)
    {
      WriteAppends(tmp, 0, salt);
      r := Write(tmp, 0, salt);
      skey, nonce, init := s.derive(salt), 0, true;
      var _ := memory.Add(salt);
    }

    /** aead_encrypt from the size computation on, src/aead.c:545-578: one sealed chunk, behind the
        salt in the first call. */
    method Seal(plaintext: bytes, capacity: nat, memory: Memory) returns (ciphertext: bytes)
      requires Valid() && memory.Valid() && |plaintext| <= LEN_MASK
      modifies this`skey, this`nonce, this`init, memory, memory.count, memory.ping.bf, memory.pong.bf
      ensures memory.Valid() && init && skey == s.derive(salt) && nonce == Nonce(s, 2 * |ps| + 2)
      ensures ciphertext == (if ps == [] then salt else []) + Chunk(s, s.derive(salt), 2 * |ps|, plaintext)
      ensures memory.hist == if ps == [] then Added(memory.p, old(memory.hist), salt) else old(memory.hist)
    {
      hide ValidSuite, Nonce, Chunk, Sendable;
      var saltOfst := if init then 0 else s.saltLen;
      var outLen := saltOfst + 2 * s.tagLen + |plaintext| + LEN_SIZE;
      var tmp := Realloc(Buf([], 0), outLen, capacity);
      if !init {
        tmp := Start(tmp, memory);
      }
      var out := ChunkEncrypt(plaintext, tmp, saltOfst, 2 * |ps|);
      ciphertext := out.mem[..outLen];
    }

    /** aead_encrypt, src/aead.c:531-579. The assert on the chunk size is a precondition. */
    method Encrypt(plaintext: bytes, capacity: nat, memory: Memory) returns (ciphertext: bytes)
      requires Valid() && memory.Valid() && |plaintext| <= LEN_MASK
      modifies this, memory, memory.count, memory.ping.bf, memory.pong.bf
      ensures Valid() && memory.Valid()
      ensures ps == old(ps) + Payloads([plaintext])
      ensures Wire(s, salt, ps) == Wire(s, salt, old(ps)) + ciphertext
      ensures memory.hist == if old(ps) == [] && ps != [] then Added(memory.p, old(memory.hist), salt)
                             else old(memory.hist)
    {
      hide ValidSuite, Wire, Nonce, Chunk, Payloads;
      OnePayload(plaintext);
      if plaintext == [] {
        return [];
      }
      ciphertext := Seal(plaintext, capacity, memory);
      WireSnoc(s, salt, ps, plaintext);
      ps := ps + [plaintext];
    }
  }

  lemma {:induction false} OnePayload(m: bytes)
    ensures Payloads([m]) == if m == [] then [] else [m]
  {
    assert [m][1..] == [];
  }

  lemma {:induction false} WireSnoc(s: Suite, salt: bytes, ps: seq<bytes>, m: bytes)
    requires Sendable(ps) && 0 < |m| <= LEN_MASK
    ensures Sendable(ps + [m])
    ensures Wire(s, salt, ps + [m])
         == Wire(s, salt, ps) + ((if ps == [] then salt else []) + Chunk(s, s.derive(salt), 2 * |ps|, m))
  {
    hide Body, Chunk;
    BodySnoc(s, s.derive(salt), 0, ps, m);
    var c := Chunk(s, s.derive(salt), 2 * |ps|, m);
    if ps == [] {
      BodyNone(s, s.derive(salt));
      assert ps + [m] == [m];
    } else {
      Associative(salt, Body(s, s.derive(salt), 0, ps), c);
    }
  }

  lemma {:induction false} BodyNone(s: Suite, key: bytes)
    ensures Body(s, key, 0, []) == []
  {
  }

  // ---------- UDP ----------

  /** aead_encrypt_all, src/aead.c:402-441. */
  method EncryptAll(s: Suite, salt: bytes, plaintext: bytes, memory: Memory) returns (ciphertext: bytes)
    requires ValidSuite(s) && |salt| == s.saltLen && memory.Valid()
    modifies memory, memory.count, memory.ping.bf, memory.pong.bf
    ensures memory.Valid() && memory.hist == Added(memory.p, old(memory.hist), salt)
    ensures ciphertext == Packet(s, salt, plaintext) == salt + s.seal(s.derive(salt), 0, plaintext)
  {
    var tmp := Realloc(Buf([], 0), s.saltLen + s.tagLen + |plaintext|, 0);
    WriteAppends(tmp, 0, salt);
    tmp := Write(tmp, 0, salt);
    assert tmp.mem[..s.saltLen] == salt;
    var _ := memory.Add(salt);
    var sealed := s.seal(s.derive(salt), 0, plaintext);
    WriteAppends(tmp, s.saltLen, sealed);
    tmp := Write(tmp, s.saltLen, sealed);
    ciphertext := tmp.mem[..s.saltLen + s.tagLen + |plaintext|];
  }

  /** aead_decrypt_all, src/aead.c:443-491. */
  method DecryptAll(s: Suite, ciphertext: bytes, memory: Memory) returns (code: Code, plaintext: bytes)
    requires ValidSuite(s) && memory.Valid()
    modifies memory, memory.count, memory.ping.bf, memory.pong.bf
    ensures memory.Valid()
    ensures var (r, hist) := OpenPacket(s, memory.p, old(memory.hist), ciphertext);
            && memory.hist == hist
            && (code == OK ==> r == Ok(plaintext)) && (code != OK ==> code == ERROR && r == Error)
  {
    hide Seen;
    plaintext := [];
    if |ciphertext| <= s.saltLen + s.tagLen {
      return ERROR, plaintext;
    }
    var salt := ciphertext[..s.saltLen];
    var repeated := memory.Check(salt);
    if repeated == 1 {
      return ERROR, plaintext;
    }
    var m := s.open(s.derive(salt), 0, ciphertext[s.saltLen..]);
    if m.None? {
      return ERROR, plaintext;
    }
    var _ := memory.Add(salt);
    return OK, m.value;
  }

  // ---------- remoteRecv ----------

  /** The remote side of a connection: the receiving context and what was written to the client. */
  class Relay {
    const ctx: DecoderCtx
    const memory: Memory
    var client: bytes
    var closed: bool

    ghost predicate Valid()
      reads this, ctx, memory, memory.count, memory.ping, memory.ping.bf, memory.pong, memory.pong.bf
    {
      ctx.Valid() && memory.Valid()
    }

    constructor (s: Suite, memory: Memory)
      requires ValidSuite(s) && memory.Valid()
      ensures Valid() && ctx.View() == FRESH && client == [] && !closed && this.memory == memory && fresh(ctx)
      ensures ctx.s == s
    {
      ctx := new DecoderCtx(s);
      this.memory := memory;
      client, closed := [], false;
    }

    /** src/local_uv.cpp:290-315: one event, in slices of the buffer capacity. */
    method RemoteRecv(event: bytes)
      requires Valid() && !closed
      modifies this, ctx, memory, memory.count, memory.ping.bf, memory.pong.bf
      ensures Valid()
      ensures var r := Run(ctx.s, memory.p, old(memory.hist), old(ctx.View()), Slices(event));
              && client == old(client) + r.out && memory.hist == r.hist
              && (closed <==> !r.ok) && ctx.View() == r.st
    {
      hide ValidSuite, Run, Aead.Decrypt, Slices, Left;
      ghost var whole := Run(ctx.s, memory.p, memory.hist, ctx.View(), Slices(event));
      var i := 0;
      LeftBounds(event);
      while i < |event|
        invariant Valid() && !closed
        invariant Continues(whole, old(client), client,
                            Run(ctx.s, memory.p, memory.hist, ctx.View(), Slices(Left(event, i))))
        decreases |event| - i
      {
        ghost var left := Left(event, i);
        SliceOff(left);
        RunUnfold(ctx.s, memory.p, memory.hist, ctx.View(), Slices(left));
        var remain := |event| - i;
        var len := if remain > BUF_CAPACITY then BUF_CAPACITY else remain;
        LeftNext(event, i, len);
        var piece := event[i..i + len];
        ghost var d := Aead.Decrypt(ctx.s, memory.p, memory.hist, ctx.View(), piece);
        assert Data(Buf(piece, len)) == piece;
        var code, buf := ctx.Decrypt(Buf(piece, len), BUF_CAPACITY, memory);
        if code == ERROR {
          closed := true;
          return;
        }
        if code == OK {
          client := client + Data(buf);
        }
        i := i + BUF_CAPACITY;
      }
      SliceOff([]);
      RunUnfold(ctx.s, memory.p, memory.hist, ctx.View(), []);
    }
  }

  /** `rest` completes the run `whole`, of which `client` already holds the output so far. */
  ghost predicate Continues(whole: Ran, before: bytes, client: bytes, rest: Ran)
  {
    && before + whole.out == client + rest.out && whole.hist == rest.hist
    && whole.ok == rest.ok && whole.st == rest.st
  }
}
