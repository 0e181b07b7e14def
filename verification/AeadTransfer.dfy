/** A sender and a receiver of the AEAD record layer put together: whole sessions of the
    stateful procedures. */
module AeadTransfer {
  import opened Bytes
  import opened Sequences
  import opened Slicing
  import opened PingPong
  import opened Aead
  import opened AeadStream
  import opened AeadCodec

  /** Once the salt is in, each nonce equals twice the chunks its side has completed, modulo
      256^nonce_len; with everything received the two are equal. */
  lemma {:induction false} NonceLockstep(enc: EncoderCtx, dec: DecoderCtx, n: nat)
    requires enc.Valid() && enc.ps != [] && dec.Valid() && n > enc.s.saltLen
    requires Honest(enc.s, enc.salt, enc.ps, dec.View(), n)
    ensures enc.nonce == (2 * |enc.ps|) % Pow256(enc.s.nonceLen)
    ensures dec.nonce == (2 * Received(enc.s, enc.ps, n)) % Pow256(enc.s.nonceLen)
    ensures n == |Wire(enc.s, enc.salt, enc.ps)| ==> enc.nonce == dec.nonce
  {
    hide ValidSuite, Nonce, Received, Whole, Offset, Body, Pow256;
    NonceIsCount(enc.s, 2 * |enc.ps|);
    NonceIsCount(enc.s, 2 * Received(enc.s, enc.ps, n));
    StreamEnd(enc.s, enc.salt, enc.ps);
  }

  /** All writes through a fresh context: the outputs concatenate to the stream. */
  method SendAll(enc: EncoderCtx, writes: seq<bytes>, capacity: nat, memory: Memory) returns (wire: bytes)
    requires enc.Valid() && enc.ps == [] && memory.Valid() && Writable(writes)
    modifies enc, memory, memory.count, memory.ping.bf, memory.pong.bf
    ensures enc.Valid() && memory.Valid() && enc.ps == Payloads(writes)
    ensures wire == Wire(enc.s, enc.salt, enc.ps)
    ensures OnTheWire(enc.s, enc.salt, Payloads(writes), wire)
    ensures forall a, b :: 0 <= a < b < 2 * |Payloads(writes)| <= Pow256(enc.s.nonceLen) ==>
              a % Pow256(enc.s.nonceLen) != b % Pow256(enc.s.nonceLen)
  {
    hide ValidSuite, Nonce, Body, Payloads, OnTheWire, Pow256;
    wire := [];
    NothingToSend(enc.s, enc.salt);
    assert writes[..0] == [];
    for k := 0 to |writes|
      invariant enc.Valid() && memory.Valid() && enc.ps == Payloads(writes[..k])
      invariant wire == Wire(enc.s, enc.salt, enc.ps)
    {
      assert writes[..k + 1] == writes[..k] + [writes[k]];
      PayloadsSnoc(writes[..k], writes[k]);
      var out := enc.Encrypt(writes[k], capacity, memory);
      wire := wire + out;
    }
    assert writes[..|writes|] == writes;
    WireOnTheWire(enc.s, enc.salt, enc.ps);
    forall a, b | 0 <= a < b < 2 * |enc.ps| <= Pow256(enc.s.nonceLen)
      ensures a % Pow256(enc.s.nonceLen) != b % Pow256(enc.s.nonceLen)
    {
      SealsDiffer(enc.s, enc.ps, a, b);
    }
  }

  lemma {:induction false} NothingToSend(s: Suite, salt: bytes)
    ensures Payloads([]) == [] && Wire(s, salt, []) == []
  {
  }

  /** What the relay has taken in is the run over the events so far. */
  ghost predicate Taken(relay: Relay, hist: seq<bytes>, events: seq<bytes>)
    requires relay.Valid()
    reads relay, relay.ctx, relay.memory, relay.memory.count, relay.memory.ping, relay.memory.ping.bf,
          relay.memory.pong, relay.memory.pong.bf
  {
    Run(relay.ctx.s, relay.memory.p, hist, FRESH, AllSlices(events))
    == Ran(relay.client, relay.ctx.View(), relay.memory.hist, true)
  }

  /** One more event of an honest stream. */
  method Receive(relay: Relay, event: bytes, ghost hist: seq<bytes>, ghost salt: bytes, ghost writes: seq<bytes>,
                 ghost events: seq<bytes>)
    requires relay.Valid() && !relay.closed && Taken(relay, hist, events)
    requires |salt| == relay.ctx.s.saltLen && !Seen(relay.memory.p, hist, salt) && Writable(writes)
    requires Sendable(Payloads(writes))
    requires Flatten(events + [event]) <= Wire(relay.ctx.s, salt, Payloads(writes))
    modifies relay, relay.ctx, relay.memory, relay.memory.count, relay.memory.ping.bf, relay.memory.pong.bf
    ensures relay.Valid() && !relay.closed && Taken(relay, hist, events + [event])
  {
    hide ValidSuite, Seen, Run, Slices, AllSlices, Payloads, Wire, Honest, Received, Flatten;
    AllSlicesSnoc(events, event);
    RunConcat(relay.ctx.s, relay.memory.p, hist, FRESH, AllSlices(events), Slices(event));
    Session(relay.ctx.s, relay.memory.p, hist, salt, writes, events + [event]);
    relay.RemoteRecv(event);
  }

  /** The stream arrives in events of the given sizes, as far as they go. */
  method DeliverAll(relay: Relay, wire: bytes, sizes: seq<nat>, ghost salt: bytes, ghost writes: seq<bytes>)
    returns (n: nat)
    requires relay.Valid() && !relay.closed && relay.client == [] && relay.ctx.View() == FRESH
    requires |salt| == relay.ctx.s.saltLen && !Seen(relay.memory.p, relay.memory.hist, salt)
    requires Writable(writes) && Sendable(Payloads(writes))
    requires wire == Wire(relay.ctx.s, salt, Payloads(writes))
    modifies relay, relay.ctx, relay.memory, relay.memory.count, relay.memory.ping.bf, relay.memory.pong.bf
    ensures relay.Valid() && !relay.closed && n == Carried(sizes, |wire|)
    ensures var ps := Payloads(writes);
            && relay.client == Flatten(ps[..Received(relay.ctx.s, ps, n)])
            && (n == |wire| ==> relay.client == Flatten(writes))
            && Honest(relay.ctx.s, salt, ps, relay.ctx.View(), n)
  {
    hide ValidSuite, Seen, Run, Slices, Payloads, Wire, Honest, Received;
    ghost var hist, events := relay.memory.hist, [];
    n := 0;
    NothingTaken(relay);
    assert sizes[0..] == sizes;
    for i := 0 to |sizes|
      invariant relay.Valid() && !relay.closed && Taken(relay, hist, events)
      invariant n <= |wire| && Flatten(events) == wire[..n]
      invariant n + Carried(sizes[i..], |wire| - n) == Carried(sizes, |wire|)
    {
      var k := if sizes[i] < |wire| - n then sizes[i] else |wire| - n;
      assert sizes[i..][1..] == sizes[i + 1..];
      var event := wire[n..n + k];
      Grown(events, event, wire, n);
      Receive(relay, event, hist, salt, writes, events);
      n, events := n + k, events + [event];
    }
    assert sizes[|sizes|..] == [];
    Session(relay.ctx.s, relay.memory.p, hist, salt, writes, events);
    assert n == |wire| ==> wire[..n] == wire;
  }

  lemma {:induction false} NothingTaken(relay: Relay)
    requires relay.Valid() && relay.client == [] && relay.ctx.View() == FRESH
    ensures Taken(relay, relay.memory.hist, []) && Flatten<byte>([]) == []
  {
    hide ValidSuite;
  }

  /** A session from one process to another: any writes, sent through one context, arrive in
      events of any sizes at a fresh relay. The client has been written exactly the payloads of
      the chunks received whole. */
  method Transfer(s: Suite, salt: bytes, writes: seq<bytes>, sizes: seq<nat>, capacity: nat,
                  there: Memory, here: Memory) returns (enc: EncoderCtx, relay: Relay, wire: bytes, n: nat)
    requires ValidSuite(s) && |salt| == s.saltLen && Writable(writes)
    requires there.Valid() && here.Valid() && there.Repr() !! here.Repr() && !Seen(here.p, here.hist, salt)
    modifies there, there.count, there.ping.bf, there.pong.bf, here, here.count, here.ping.bf, here.pong.bf
    ensures Sendable(Payloads(writes)) && enc.Valid() && relay.Valid() && enc.ps == Payloads(writes)
    ensures OnTheWire(s, salt, Payloads(writes), wire) && n == Carried(sizes, |wire|)
    ensures !relay.closed && relay.client == Flatten(Payloads(writes)[..Received(s, Payloads(writes), n)])
    ensures n == |wire| ==> relay.client == Flatten(writes)
    ensures n == |wire| && wire != [] ==> enc.nonce == relay.ctx.nonce
  {
    hide ValidSuite, Seen, Payloads, Honest, Received, Sendable, OnTheWire, Pow256;
    PayloadsSendable(writes);
    enc := new EncoderCtx(s, salt);
    relay := new Relay(s, here);
    wire := SendAll(enc, writes, capacity, there);
    n := DeliverAll(relay, wire, sizes, salt, writes);
    if n == |wire| && wire != [] {
      LongerThanSalt(s, salt, Payloads(writes));
      NonceLockstep(enc, relay.ctx, n);
    }
  }

  lemma {:induction false} LongerThanSalt(s: Suite, salt: bytes, ps: seq<bytes>)
    requires ValidSuite(s) && Sendable(ps) && Wire(s, salt, ps) != [] && |salt| == s.saltLen
    ensures ps != [] && |Wire(s, salt, ps)| > s.saltLen
  {
    BodyPrefix(s, s.derive(salt), 0, ps);
  }
}
