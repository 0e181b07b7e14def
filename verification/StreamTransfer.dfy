/** A sender and a receiver of the stream cipher layer put together: whole sessions of the
    stateful procedures, with the receiving side of `src/local_uv.cpp`. */
module StreamTransfer {
  import opened Wrappers
  import opened Bytes
  import opened Sequences
  import opened Slicing
  import opened PingPong
  import opened Buffers
  import opened Stream
  import opened StreamSession
  import opened StreamCodec

  /** All writes through a fresh context; not `ok` when the cipher library stops the program. */
  method SendAll(sender: SenderCtx, writes: seq<bytes>, capacity: nat) returns (ok: bool, wire: bytes)
    requires sender.Valid() && sender.View() == UNUSED
    modifies sender
    ensures var r := EncryptRun(sender.c, sender.nonce, writes);
            ok == r.ok && wire == r.out && (ok ==> sender.View() == r.st)
    ensures writes != [] && Within(sender.c.kind, writes) ==>
              ok && OnTheWire(sender.c, sender.nonce, Flatten(writes), wire)
  {
    hide EncryptRun, StreamSession.Encrypt, ValidCipher, OnTheWire, Within;
    ok, wire := true, [];
    NothingYet(sender.c, sender.nonce);
    assert writes[..0] == [];
    for k := 0 to |writes|
      invariant var r := EncryptRun(sender.c, sender.nonce, writes[..k]);
                ok == r.ok && wire == r.out && (ok ==> sender.View() == r.st)
    {
      assert writes[..k + 1] == writes[..k] + [writes[k]];
      RunStep(sender.c, sender.nonce, writes[..k], writes[k]);
      if ok {
        var w := writes[k];
        assert Data(Buf(w, |w|)) == w;
        var out;
        ok, out := sender.Encrypt(Buf(w, |w|), Buf([], 0), capacity);
        StoppedEmpty(sender.c, sender.nonce, EncryptRun(sender.c, sender.nonce, writes[..k]).st, w);
        if ok {
          wire := wire + Data(out);
        }
      }
    }
    assert writes[..|writes|] == writes;
    if writes != [] && Within(sender.c.kind, writes) {
      SentOnTheWire(sender.c, sender.nonce, writes);
    }
  }

  lemma {:induction false} StoppedEmpty(c: Cipher, nonce: bytes, st: Sender, d: bytes)
    requires ValidCipher(c)
    ensures !StreamSession.Encrypt(c, nonce, st, d).ok ==> StreamSession.Encrypt(c, nonce, st, d).out == []
  {
  }

  /** `rest` completes the run `whole`, of which `client` already holds the output so far. */
  ghost predicate Continues(whole: Received, before: bytes, client: bytes, rest: Received)
  {
    && before + whole.out == client + rest.out && whole.hist == rest.hist
    && whole.ok == rest.ok && whole.st == rest.st
  }

  /** The remote side of a connection: the receiving context and what was written to the client. */
  class Relay {
    const ctx: ReceiverCtx
    const memory: Memory
    var client: bytes
    var closed: bool

    ghost predicate Valid()
      reads this, ctx, memory, memory.count, memory.ping, memory.ping.bf, memory.pong, memory.pong.bf
    {
      ctx.Valid() && memory.Valid()
    }

    constructor (c: Cipher, memory: Memory)
      requires ValidCipher(c) && memory.Valid()
      ensures Valid() && ctx.View() == IDLE && client == [] && !closed && this.memory == memory && fresh(ctx)
      ensures ctx.c == c
    {
      ctx := new ReceiverCtx(c);
      this.memory := memory;
      client, closed := [], false;
    }

    /** src/local_uv.cpp:290-315: one event, in slices of the buffer capacity. The connection is also
        gone when the cipher library stops the program. */
    method RemoteRecv(event: bytes)
      requires Valid() && !closed
      modifies this, ctx, memory, memory.count, memory.ping.bf, memory.pong.bf
      ensures Valid()
      ensures var r := DecryptRun(ctx.c, memory.p, old(memory.hist), old(ctx.View()), Slices(event));
              && client == old(client) + r.out && memory.hist == r.hist
              && (closed <==> !r.ok) && ctx.View() == r.st
    {
      hide ValidCipher, DecryptRun, StreamSession.Decrypt, Slices, Left, Flatten;
      ghost var whole := DecryptRun(ctx.c, memory.p, memory.hist, ctx.View(), Slices(event));
      var i := 0;
      LeftBounds(event);
      while i < |event|
        invariant Valid() && !closed
        invariant Continues(whole, old(client), client,
                            DecryptRun(ctx.c, memory.p, memory.hist, ctx.View(), Slices(Left(event, i))))
        decreases |event| - i
      {
        ghost var left := Left(event, i);
        SliceOff(left);
        RunUnfold(ctx.c, memory.p, memory.hist, ctx.View(), Slices(left));
        var remain := |event| - i;
        var len := if remain > BUF_CAPACITY then BUF_CAPACITY else remain;
        LeftNext(event, i, len);
        var piece := event[i..i + len];
        assert Data(Buf(piece, len)) == piece;
        SilentUnlessOk(ctx.c, memory.p, memory.hist, ctx.View(), piece);
        var code, buf := ctx.Decrypt(Buf(piece, len), Buf([], 0), BUF_CAPACITY, memory);
        if code == None || code == Some(ERROR) {
          closed := true;
          return;
        }
        if code == Some(OK) {
          client := client + Data(buf);
        }
        i := i + BUF_CAPACITY;
      }
      SliceOff([]);
      RunUnfold(ctx.c, memory.p, memory.hist, ctx.View(), []);
    }
  }

  lemma {:induction false} SilentUnlessOk(c: Cipher, p: Params, hist: seq<bytes>, st: Receiver, e: bytes)
    requires ValidCipher(c) && ValidParams(p) && |st.chunk| <= NonceLen(c.kind)
    ensures var o := StreamSession.Decrypt(c, p, hist, st, e);
            (o.code != Some(OK) ==> o.out == []) && |o.st.chunk| <= NonceLen(c.kind)
  {
    hide Seen, Call;
  }

  /** What the relay has taken in is the run over the events so far. */
  ghost predicate Taken(relay: Relay, hist: seq<bytes>, events: seq<bytes>)
    requires relay.Valid()
    reads relay, relay.ctx, relay.memory, relay.memory.count, relay.memory.ping, relay.memory.ping.bf,
          relay.memory.pong, relay.memory.pong.bf
  {
    DecryptRun(relay.ctx.c, relay.memory.p, hist, IDLE, AllSlices(events))
    == Received(relay.ctx.View(), relay.memory.hist, relay.client, true)
  }

  /** One more event of an honest stream. */
  method Receive(relay: Relay, event: bytes, ghost hist: seq<bytes>, ghost nonce: bytes, ghost writes: seq<bytes>,
                 ghost events: seq<bytes>)
    requires relay.Valid() && !relay.closed && Taken(relay, hist, events)
    requires |nonce| == NonceLen(relay.ctx.c.kind) && !Seen(relay.memory.p, hist, nonce)
    requires writes != [] && |Flatten(writes)| <= Limit(relay.ctx.c.kind)
    requires Flatten(events + [event]) <= EncryptRun(relay.ctx.c, nonce, writes).out
    modifies relay, relay.ctx, relay.memory, relay.memory.count, relay.memory.ping.bf, relay.memory.pong.bf
    ensures relay.Valid() && !relay.closed && Taken(relay, hist, events + [event])
  {
    hide ValidCipher, Seen, DecryptRun, EncryptRun, Slices, AllSlices, Flatten, Limit, Text, Recorded;
    AllSlicesSnoc(events, event);
    RunConcat(relay.ctx.c, relay.memory.p, hist, IDLE, AllSlices(events), Slices(event));
    AllSlicesCover(events + [event]);
    Session(relay.ctx.c, relay.memory.p, hist, nonce, writes, AllSlices(events + [event]));
    relay.RemoteRecv(event);
  }

  /** The stream arrives in events of the given sizes, as far as they go. */
  method DeliverAll(relay: Relay, wire: bytes, sizes: seq<nat>, ghost nonce: bytes, ghost writes: seq<bytes>)
    returns (n: nat)
    requires relay.Valid() && !relay.closed && relay.client == [] && relay.ctx.View() == IDLE
    requires |nonce| == NonceLen(relay.ctx.c.kind) && !Seen(relay.memory.p, relay.memory.hist, nonce)
    requires writes != [] && |Flatten(writes)| <= Limit(relay.ctx.c.kind)
    requires wire == EncryptRun(relay.ctx.c, nonce, writes).out
    modifies relay, relay.ctx, relay.memory, relay.memory.count, relay.memory.ping.bf, relay.memory.pong.bf
    ensures relay.Valid() && !relay.closed && n == Carried(sizes, |wire|) <= |nonce| + |Flatten(writes)|
    ensures relay.client == Text(nonce, Flatten(writes), n)
    ensures relay.memory.hist == Recorded(relay.memory.p, old(relay.memory.hist), nonce, n)
  {
    hide ValidCipher, Seen, DecryptRun, EncryptRun, Slices, Limit, Text, Recorded;
    ghost var hist, events := relay.memory.hist, [];
    n := 0;
    NothingTaken(relay);
    assert sizes[0..] == sizes;
    for i := 0 to |sizes|
      invariant relay.Valid() && !relay.closed && Taken(relay, hist, events)
      invariant n <= |wire| && Flatten(events) == wire[..n]
      invariant n + Carried(sizes[i..], |wire| - n) == Carried(sizes, |wire|)
    {
      var k := if sizes[i] < |wire| - n then sizes[i] else |wire| - n;
      assert sizes[i..][1..] == sizes[i + 1..];
      var event := wire[n..n + k];
      Grown(events, event, wire, n);
      Receive(relay, event, hist, nonce, writes, events);
      n, events := n + k, events + [event];
    }
    assert sizes[|sizes|..] == [];
    AllSlicesCover(events);
    Session(relay.ctx.c, relay.memory.p, hist, nonce, writes, AllSlices(events));
  }

  lemma {:induction false} NothingTaken(relay: Relay)
    requires relay.Valid() && relay.client == [] && relay.ctx.View() == IDLE
    ensures Taken(relay, relay.memory.hist, []) && Flatten<byte>([]) == []
  {
  }

  /** A session from one process to another, up to the limit of the counter: any writes, sent
      through one context, arrive in events of any sizes at a fresh relay. The client has been
      written exactly the plaintext of the bytes received. */
  method Transfer(c: Cipher, nonce: bytes, writes: seq<bytes>, sizes: seq<nat>, capacity: nat, memory: Memory)
    returns (relay: Relay, wire: bytes, n: nat)
    requires ValidCipher(c) && |nonce| == NonceLen(c.kind) && memory.Valid()
    requires !Seen(memory.p, memory.hist, nonce) && writes != [] && |Flatten(writes)| <= Limit(c.kind)
    modifies memory, memory.count, memory.ping.bf, memory.pong.bf
    ensures relay.Valid() && !relay.closed && OnTheWire(c, nonce, Flatten(writes), wire)
    ensures n == Carried(sizes, |wire|) <= |nonce| + |Flatten(writes)|
    ensures relay.client == Text(nonce, Flatten(writes), n)
    ensures memory.hist == Recorded(memory.p, old(memory.hist), nonce, n)
    ensures n == |wire| ==> relay.client == Flatten(writes)
  {
    hide ValidCipher, Seen, EncryptRun, Flatten, Limit, Text, Recorded, OnTheWire, Within;
    var sender := new SenderCtx(c, nonce);
    relay := new Relay(c, memory);
    var ok;
    ok, wire := SendAll(sender, writes, capacity);
    WithinLimit(c.kind, writes);
    SentOnTheWire(c, nonce, writes);
    SentLength(c, nonce, writes);
    n := DeliverAll(relay, wire, sizes, nonce, writes);
    WholeText(nonce, Flatten(writes));
  }
}
