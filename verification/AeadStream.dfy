/** Every segmentation of every prefix of an honest session: the deframer never fails and
    delivers exactly the chunks received whole. */
module AeadStream {
  import opened Bytes
  import opened Sequences
  import opened Slicing
  import opened PingPong
  import opened Aead

  // ---------- arithmetic of chunk boundaries ----------

  lemma {:induction false} WholeMono(s: Suite, ps: seq<bytes>, b: int, b': int)
    requires b <= b'
    ensures Whole(s, ps, b) <= Whole(s, ps, b')
    decreases |ps|
  {
    if ps != [] && b >= ChunkLen(s, ps[0]) {
      WholeMono(s, ps[1..], b - ChunkLen(s, ps[0]), b' - ChunkLen(s, ps[0]));
    }
  }

  lemma {:induction false} WholeFits(s: Suite, ps: seq<bytes>, b: nat)
    ensures Offset(s, ps, Whole(s, ps, b)) <= b
    decreases |ps|
  {
    if ps != [] && b >= ChunkLen(s, ps[0]) {
      WholeFits(s, ps[1..], b - ChunkLen(s, ps[0]));
    }
  }

  lemma {:induction false} WholeRest(s: Suite, ps: seq<bytes>, j: nat, b: int)
    requires j <= Whole(s, ps, b)
    ensures Whole(s, ps, b) == j + Whole(s, ps[j..], b - Offset(s, ps, j))
    decreases j
  {
    if j == 0 {
      assert ps[0..] == ps;
    } else {
      WholeRest(s, ps[1..], j - 1, b - ChunkLen(s, ps[0]));
      assert ps[1..][j - 1..] == ps[j..];
    }
  }

  lemma {:induction false} WholeSplit(s: Suite, ps: seq<bytes>, b: nat, b': nat)
    requires b <= b'
    ensures var j := Whole(s, ps, b);
            && j <= Whole(s, ps, b') && Offset(s, ps, j) <= b
            && Whole(s, ps, b') == j + Whole(s, ps[j..], b' - Offset(s, ps, j))
  {
    hide Whole, Offset;
    WholeMono(s, ps, b, b');
    WholeFits(s, ps, b);
    WholeRest(s, ps, Whole(s, ps, b), b');
  }

  lemma {:induction false} OffsetSplit(s: Suite, ps: seq<bytes>, j: nat, i: nat)
    requires j + i <= |ps|
    ensures Offset(s, ps, j + i) == Offset(s, ps, j) + Offset(s, ps[j..], i)
  {
    if j == 0 {
      assert ps[0..] == ps;
    } else {
      OffsetSplit(s, ps[1..], j - 1, i);
      assert ps[1..][j - 1..] == ps[j..];
    }
  }

  lemma {:induction false} BodySuffix(s: Suite, key: bytes, ops: nat, ps: seq<bytes>, j: nat)
    requires ValidSuite(s) && Sendable(ps) && j <= |ps|
    ensures Offset(s, ps, j) <= |Body(s, key, ops, ps)|
    ensures Body(s, key, ops, ps)[Offset(s, ps, j)..] == Body(s, key, ops + 2 * j, ps[j..])
    decreases j
  {
    hide ValidSuite, Chunk;
    if j == 0 {
      assert ps[0..] == ps;
    } else {
      BodyPrefix(s, key, ops, ps);
      BodySuffix(s, key, ops + 2, ps[1..], j - 1);
      assert ps[1..][j - 1..] == ps[j..];
      var b, o := Body(s, key, ops + 2, ps[1..]), Offset(s, ps[1..], j - 1);
      SliceRight(Chunk(s, key, ops, ps[0]), b, o, |b|);
    }
  }

  // ---------- one event ----------

  /** The session's bytes: a salt of the right size and the chunks of `ps`. */
  function Stream(s: Suite, salt: bytes, ps: seq<bytes>): (r: bytes)
    requires Sendable(ps)
  {
    salt + Body(s, s.derive(salt), 0, ps)
  }

  /** Chunks received whole once `n` bytes of the stream have arrived. */
  function Received(s: Suite, ps: seq<bytes>, n: nat): (j: nat)
    ensures j <= |ps|
  {
    if n <= s.saltLen then 0 else Whole(s, ps, n - s.saltLen)
  }

  /** The deframer's state after the first `n` bytes of the stream, however they were cut:
      the nonce has advanced by two per whole chunk, the buffer holds the bytes of
      the incomplete one, and the salt is accepted exactly from the first whole chunk on. */
  ghost predicate Honest(s: Suite, salt: bytes, ps: seq<bytes>, st: Decoder, n: nat)
    requires ValidSuite(s) && Sendable(ps)
  {
    var w, j := Stream(s, salt, ps), Received(s, ps, n);
    && |salt| == s.saltLen && n <= |w|
    && if n <= s.saltLen then st.init == 0 && st.chunk == w[..n]
       else
         && st.init == (if j == 0 then 1 else 2)
         && st.salt == salt && st.key == s.derive(salt) && st.nonce == Nonce(s, 2 * j)
         && Offset(s, ps, j) <= n - s.saltLen
         && st.chunk == w[s.saltLen + Offset(s, ps, j)..n]
  }

  function Out(r: Outcome): (b: bytes)
  {
    if r.Ok? then r.out else []
  }

  /** Draining the bytes from chunk `j` up to body offset `b`. */
  lemma {:induction false} DrainHonest(s: Suite, key: bytes, ps: seq<bytes>, j: nat, b: nat)
    requires ValidSuite(s) && Sendable(ps) && b <= |Body(s, key, 0, ps)|
    requires j <= |ps| && Offset(s, ps, j) <= b
    requires Whole(s, ps, b) == j + Whole(s, ps[j..], b - Offset(s, ps, j))
    ensures var k := Whole(s, ps, b);
            && Offset(s, ps, k) <= b
            && Drain(s, key, Nonce(s, 2 * j), Body(s, key, 0, ps)[Offset(s, ps, j)..b])
               == Drained(Flatten(ps[j..k]), Body(s, key, 0, ps)[Offset(s, ps, k)..b], Nonce(s, 2 * k), false)
  {
    hide ValidSuite, Drain, Body, Whole, Offset, Nonce, Flatten;
    var body, o := Body(s, key, 0, ps), Offset(s, ps, j);
    var c := body[o..b];
    BodySuffix(s, key, 0, ps, j);
    assert c == body[o..][..b - o];
    DrainPrefix(s, key, 2 * j, ps[j..], c);
    var i := Whole(s, ps[j..], |c|);
    assert ps[j..][..i] == ps[j..j + i];
    OffsetSplit(s, ps, j, i);
    assert c[Offset(s, ps[j..], i)..] == body[Offset(s, ps, j + i)..b];
  }

  /** From a state with `j` chunks done and the bytes up to body offset `b` buffered. */
  lemma {:induction false} DeliverHonest(s: Suite, p: Params, hist: seq<bytes>, salt: bytes, ps: seq<bytes>,
                                         st: Decoder, j: nat, b: nat)
    requires ValidSuite(s) && ValidParams(p) && Sendable(ps) && |salt| == s.saltLen
    requires b <= |Body(s, s.derive(salt), 0, ps)| && j <= |ps| && Offset(s, ps, j) < b
    requires Whole(s, ps, b) == j + Whole(s, ps[j..], b - Offset(s, ps, j))
    requires st.init == (if j == 0 then 1 else 2) && st.salt == salt && st.key == s.derive(salt)
    requires st.nonce == Nonce(s, 2 * j)
    requires st.chunk == Body(s, s.derive(salt), 0, ps)[Offset(s, ps, j)..b]
    requires st.init != 2 ==> !Seen(p, hist, salt)
    ensures var r := Deliver(s, p, hist, st);
            && !r.result.Error? && Honest(s, salt, ps, r.st, s.saltLen + b)
            && Out(r.result) == Flatten(ps[j..Whole(s, ps, b)])
            && r.hist == if st.init != 2 && r.st.init == 2 then Added(p, hist, salt) else hist
  {
    hide ValidSuite, Drain, Seen, Body, Whole, Offset, Nonce, Flatten;
    var body, k := Body(s, s.derive(salt), 0, ps), Whole(s, ps, b);
    DrainHonest(s, s.derive(salt), ps, j, b);
    FlattenEmpty(ps[j..k]);
    SliceRight(salt, body, Offset(s, ps, k), b);
  }

  lemma {:induction false} FlattenEmpty(ps: seq<bytes>)
    requires Sendable(ps)
    ensures Flatten(ps) == [] <==> ps == []
  {
  }

  /** One event of a session, whatever else the replay memory has recorded meanwhile,
      as long as the session's salt is not seen before it is accepted. */
  lemma {:induction false} EventHonest(s: Suite, p: Params, hist: seq<bytes>, salt: bytes, ps: seq<bytes>,
                                       st: Decoder, n: nat, e: bytes)
    requires ValidSuite(s) && ValidParams(p) && Sendable(ps)
    requires Honest(s, salt, ps, st, n) && e != []
    requires n + |e| <= |Stream(s, salt, ps)| && e == Stream(s, salt, ps)[n..n + |e|]
    requires st.init != 2 ==> !Seen(p, hist, salt)
    ensures var r, m := Decrypt(s, p, hist, st, e), n + |e|;
            && !r.result.Error? && Honest(s, salt, ps, r.st, m)
            && Received(s, ps, n) <= Received(s, ps, m)
            && Out(r.result) == Flatten(ps[Received(s, ps, n)..Received(s, ps, m)])
            && r.hist == (if st.init != 2 && r.st.init == 2 then Added(p, hist, salt) else hist)
            && (st.init == 2 ==> r.st.init == 2)
  {
    hide ValidSuite, Seen, Deliver, Body, Whole, Offset, Nonce, Flatten, Honest;
    HonestStart(s, salt, ps, st, n);
    if n + |e| <= s.saltLen {
      EventSalt(s, salt, ps, st, n, e);
      FlattenEmpty(ps[0..0]);
    } else if n <= s.saltLen {
      EventFirst(s, p, hist, salt, ps, st, n, e);
    } else {
      EventLater(s, p, hist, salt, ps, st, n, e);
    }
  }

  lemma {:induction false} HonestStart(s: Suite, salt: bytes, ps: seq<bytes>, st: Decoder, n: nat)
    requires ValidSuite(s) && Sendable(ps) && Honest(s, salt, ps, st, n)
    ensures n <= s.saltLen ==> st.init == 0
    ensures st.init == 0 || st.init == 1 || st.init == 2
  {
    hide ValidSuite, Stream, Whole, Offset, Nonce;
  }

  /** Still inside the salt. */
  lemma {:induction false} EventSalt(s: Suite, salt: bytes, ps: seq<bytes>, st: Decoder, n: nat, e: bytes)
    requires ValidSuite(s) && Sendable(ps) && Honest(s, salt, ps, st, n)
    requires n + |e| <= |Stream(s, salt, ps)| && e == Stream(s, salt, ps)[n..n + |e|] && n + |e| <= s.saltLen
    ensures st.init == 0 && |st.chunk + e| <= s.saltLen
    ensures Honest(s, salt, ps, st.(chunk := st.chunk + e), n + |e|)
  {
    hide ValidSuite, Body, Whole, Offset, Nonce;
    assert st.chunk + e == Stream(s, salt, ps)[..n + |e|];
  }

  /** The salt is complete with this event. */
  lemma {:induction false} EventFirst(s: Suite, p: Params, hist: seq<bytes>, salt: bytes, ps: seq<bytes>,
                                      st: Decoder, n: nat, e: bytes)
    requires ValidSuite(s) && ValidParams(p) && Sendable(ps) && Honest(s, salt, ps, st, n)
    requires n + |e| <= |Stream(s, salt, ps)| && e == Stream(s, salt, ps)[n..n + |e|]
    requires n <= s.saltLen < n + |e| && !Seen(p, hist, salt)
    ensures var r, b := Decrypt(s, p, hist, st, e), n + |e| - s.saltLen;
            && st.init == 0 && !r.result.Error? && Honest(s, salt, ps, r.st, s.saltLen + b)
            && Out(r.result) == Flatten(ps[0..Whole(s, ps, b)])
            && r.hist == if r.st.init == 2 then Added(p, hist, salt) else hist
  {
    hide ValidSuite, Seen, Deliver, Body, Whole, Offset, Nonce, Flatten;
    var m, body := n + |e|, Body(s, s.derive(salt), 0, ps);
    var buf := st.chunk + e;
    assert buf == (salt + body)[..m];
    assert buf[..s.saltLen] == salt && buf[s.saltLen..] == body[0..m - s.saltLen];
    StartOffset(s, ps, m - s.saltLen);
    var st1 := Decoder(1, salt, s.derive(salt), 0, buf[s.saltLen..]);
    DeliverHonest(s, p, hist, salt, ps, st1, 0, m - s.saltLen);
  }

  /** The salt was complete before. */
  lemma {:induction false} DecryptLater(s: Suite, p: Params, hist: seq<bytes>, st: Decoder, e: bytes)
    requires ValidSuite(s) && ValidParams(p) && st.init != 0
    ensures Decrypt(s, p, hist, st, e) == Deliver(s, p, hist, st.(chunk := st.chunk + e))
  {
    hide ValidSuite, Deliver, Seen;
  }

  /** The buffer with the new bytes is the stretch of the body not yet delivered. */
  lemma {:induction false} Buffered(s: Suite, salt: bytes, ps: seq<bytes>, st: Decoder, n: nat, e: bytes)
    requires ValidSuite(s) && Sendable(ps) && Honest(s, salt, ps, st, n) && n > s.saltLen
    requires n + |e| <= |Stream(s, salt, ps)| && e == Stream(s, salt, ps)[n..n + |e|]
    ensures var body, b := Body(s, s.derive(salt), 0, ps), n + |e| - s.saltLen;
            var lo := Offset(s, ps, Whole(s, ps, n - s.saltLen));
            lo <= b <= |body| && st.chunk + e == body[lo..b]
  {
    hide ValidSuite, Body, Whole, Offset, Nonce;
    var body, b := Body(s, s.derive(salt), 0, ps), n + |e| - s.saltLen;
    var lo := Offset(s, ps, Whole(s, ps, n - s.saltLen));
    SliceRight(salt, body, lo, b);
    assert st.chunk + e == (salt + body)[s.saltLen + lo..n + |e|];
  }

  lemma {:induction false} EventLater(s: Suite, p: Params, hist: seq<bytes>, salt: bytes, ps: seq<bytes>,
                                      st: Decoder, n: nat, e: bytes)
    requires ValidSuite(s) && ValidParams(p) && Sendable(ps) && Honest(s, salt, ps, st, n) && e != []
    requires n + |e| <= |Stream(s, salt, ps)| && e == Stream(s, salt, ps)[n..n + |e|]
    requires n > s.saltLen && (st.init != 2 ==> !Seen(p, hist, salt))
    ensures var r, a, b := Decrypt(s, p, hist, st, e), n - s.saltLen, n + |e| - s.saltLen;
            && !r.result.Error? && Honest(s, salt, ps, r.st, s.saltLen + b)
            && Whole(s, ps, a) <= Whole(s, ps, b)
            && Out(r.result) == Flatten(ps[Whole(s, ps, a)..Whole(s, ps, b)])
            && r.hist == (if st.init != 2 && r.st.init == 2 then Added(p, hist, salt) else hist)
            && (st.init == 2 ==> r.st.init == 2)
  {
    hide ValidSuite, Seen, Deliver, Body, Whole, Offset, Nonce, Flatten, Decrypt;
    var m, j, buf := n + |e|, Whole(s, ps, n - s.saltLen), st.chunk + e;
    WholeSplit(s, ps, n - s.saltLen, m - s.saltLen);
    Buffered(s, salt, ps, st, n, e);
    DecryptLater(s, p, hist, st, e);
    DeliverHonest(s, p, hist, salt, ps, st.(chunk := buf), j, m - s.saltLen);
  }

  lemma {:induction false} StartOffset(s: Suite, ps: seq<bytes>, b: nat)
    ensures Offset(s, ps, 0) == 0 && Nonce(s, 0) == 0
    ensures Whole(s, ps, b) == 0 + Whole(s, ps[0..], b - 0)
  {
    assert ps[0..] == ps;
  }

  // ---------- runs ----------

  /** What a run of events delivers, or that it failed. */
  datatype Ran = Ran(out: bytes, st: Decoder, hist: seq<bytes>, ok: bool)

  ghost function Run(s: Suite, p: Params, hist: seq<bytes>, st: Decoder, events: seq<bytes>): (r: Ran)
    requires ValidSuite(s) && ValidParams(p)
    decreases |events|
  {
    if events == [] then Ran([], st, hist, true)
    else
      var d := Decrypt(s, p, hist, st, events[0]);
      if d.result.Error? then Ran([], d.st, d.hist, false)
      else
        var r := Run(s, p, d.hist, d.st, events[1..]);
        r.(out := Out(d.result) + r.out)
  }

  lemma {:induction false} RunUnfold(s: Suite, p: Params, hist: seq<bytes>, st: Decoder, events: seq<bytes>)
    requires ValidSuite(s) && ValidParams(p)
    ensures events == [] ==> Run(s, p, hist, st, events) == Ran([], st, hist, true) && |Flatten(events)| == 0
    ensures events != [] ==>
              var d := Decrypt(s, p, hist, st, events[0]);
              Run(s, p, hist, st, events)
              == if d.result.Error? then Ran([], d.st, d.hist, false)
                 else var r := Run(s, p, d.hist, d.st, events[1..]); r.(out := Out(d.result) + r.out)
    ensures Flatten<byte>([]) == []
  {
    hide ValidSuite, Decrypt;
  }

  /** A run of more events goes on where the first ones stopped. */
  lemma {:induction false} RunConcat(s: Suite, p: Params, hist: seq<bytes>, st: Decoder,
                                     a: seq<bytes>, b: seq<bytes>)
    requires ValidSuite(s) && ValidParams(p)
    ensures var r := Run(s, p, hist, st, a);
            Run(s, p, hist, st, a + b)
            == if !r.ok then r else var t := Run(s, p, r.hist, r.st, b); t.(out := r.out + t.out)
    decreases |a|
  {
    hide ValidSuite, Decrypt, Run;
    RunUnfold(s, p, hist, st, a);
    RunUnfold(s, p, hist, st, a + b);
    if a == [] {
      assert a + b == b;
    } else {
      var d := Decrypt(s, p, hist, st, a[0]);
      assert (a + b)[1..] == a[1..] + b;
      RunConcat(s, p, d.hist, d.st, a[1..], b);
      var r := Run(s, p, d.hist, d.st, a[1..]);
      Associative(Out(d.result), r.out, Run(s, p, r.hist, r.st, b).out);
    }
  }

  lemma {:induction false} RunHonest(s: Suite, p: Params, hist: seq<bytes>, salt: bytes, ps: seq<bytes>,
                                     st: Decoder, n: nat, events: seq<bytes>)
    requires ValidSuite(s) && ValidParams(p) && Sendable(ps)
    requires Honest(s, salt, ps, st, n) && NonEmpty(events)
    requires n + |Flatten(events)| <= |Stream(s, salt, ps)|
    requires Flatten(events) == Stream(s, salt, ps)[n..n + |Flatten(events)|]
    requires st.init != 2 ==> !Seen(p, hist, salt)
    ensures var r, m := Run(s, p, hist, st, events), n + |Flatten(events)|;
            && r.ok && Honest(s, salt, ps, r.st, m)
            && Received(s, ps, n) <= Received(s, ps, m)
            && r.out == Flatten(ps[Received(s, ps, n)..Received(s, ps, m)])
            && r.hist == (if st.init != 2 && r.st.init == 2 then Added(p, hist, salt) else hist)
            && (st.init == 2 ==> r.st.init == 2)
    decreases |events|
  {
    hide ValidSuite, Seen, Decrypt, Honest, Stream, Received, Run, Flatten;
    var i := Received(s, ps, n);
    RunUnfold(s, p, hist, st, events);
    if events == [] {
      assert ps[i..i] == [];
    } else {
      var e, w := events[0], Stream(s, salt, ps);
      var k := n + |e|;
      CutFirst(events, w, n);
      EventHonest(s, p, hist, salt, ps, st, n, e);
      var d := Decrypt(s, p, hist, st, e);
      RunHonest(s, p, d.hist, salt, ps, d.st, k, events[1..]);
      var j, l := Received(s, ps, k), Received(s, ps, n + |Flatten(events)|);
      FlattenSplit(ps[i..j], ps[j..l]);
      assert ps[i..j] + ps[j..l] == ps[i..l];
    }
  }

  // ---------- whole sessions ----------

  /** The writes that produce a chunk. */
  function Payloads(writes: seq<bytes>): (ps: seq<bytes>)
    decreases |writes|
  {
    if writes == [] then []
    else if writes[0] == [] then Payloads(writes[1..])
    else [writes[0]] + Payloads(writes[1..])
  }

  lemma {:induction false} PayloadsSnoc(writes: seq<bytes>, w: bytes)
    ensures Payloads(writes + [w]) == Payloads(writes) + Payloads([w])
    decreases |writes|
  {
    if writes == [] {
      assert writes + [w] == [w];
    } else {
      PayloadsSnoc(writes[1..], w);
      assert (writes + [w])[1..] == writes[1..] + [w];
      var rest, last := Payloads(writes[1..]), Payloads([w]);
      assert [writes[0]] + (rest + last) == [writes[0]] + rest + last;
    }
  }

  ghost predicate Writable(writes: seq<bytes>)
  {
    forall i :: 0 <= i < |writes| ==> |writes[i]| <= LEN_MASK
  }

  lemma {:induction false} PayloadsSendable(writes: seq<bytes>)
    requires Writable(writes)
    ensures Sendable(Payloads(writes)) && Flatten(Payloads(writes)) == Flatten(writes)
    decreases |writes|
  {
    if writes != [] {
      PayloadsSendable(writes[1..]);
      if writes[0] != [] {
        var r := Payloads(writes[1..]);
        assert ([writes[0]] + r)[1..] == r;
      }
    }
  }

  /** For every list of writes, every cut of a prefix of what they send into events, and
      the slicing of each event, a fresh deframer does not fail and has delivered
      exactly the payloads of the chunks received whole. */
  lemma {:induction false} Session(s: Suite, p: Params, hist: seq<bytes>, salt: bytes,
                                   writes: seq<bytes>, events: seq<bytes>)
    requires ValidSuite(s) && ValidParams(p) && |salt| == s.saltLen && !Seen(p, hist, salt)
    requires Writable(writes) && Sendable(Payloads(writes))
    requires Flatten(events) <= Wire(s, salt, Payloads(writes))
    ensures var r, ps := Run(s, p, hist, FRESH, AllSlices(events)), Payloads(writes);
            && r.ok
            && r.out == Flatten(ps[..Received(s, ps, |Flatten(events)|)])
            && r.out <= Flatten(writes)
            && r.hist == (if r.out == [] then hist else Added(p, hist, salt))
            && (Flatten(events) == Wire(s, salt, ps) ==> r.out == Flatten(writes))
            && Honest(s, salt, ps, r.st, |Flatten(events)|)
  {
    hide ValidSuite, Seen, Run, Received, Honest, Body, AllSlices;
    var ps, n := Payloads(writes), |Flatten(events)|;
    PayloadsSendable(writes);
    AllSlicesCover(events);
    assert ps == [] ==> Flatten(events) == [] && Payloads(writes) == [];
    StreamStart(s, salt, ps);
    var w := Stream(s, salt, ps);
    assert Flatten(events) <= w && Flatten(events) == w[0..n];
    RunHonest(s, p, hist, salt, ps, FRESH, 0, AllSlices(events));
    var k := Received(s, ps, n);
    StreamEnd(s, salt, ps);
    assert ps == ps[..k] + ps[k..];
    FlattenSplit(ps[..k], ps[k..]);
    assert ps[0..k] == ps[..k];
    assert n == |w| ==> ps[..k] == ps;
    FlattenEmpty(ps[..k]);
    HonestAccepted(s, salt, ps, Run(s, p, hist, FRESH, AllSlices(events)).st, n);
  }

  lemma {:induction false} HonestAccepted(s: Suite, salt: bytes, ps: seq<bytes>, st: Decoder, n: nat)
    requires ValidSuite(s) && Sendable(ps) && Honest(s, salt, ps, st, n)
    ensures st.init == 2 <==> Received(s, ps, n) > 0
  {
    hide ValidSuite, Stream, Whole, Offset, Nonce;
  }

  lemma {:induction false} StreamStart(s: Suite, salt: bytes, ps: seq<bytes>)
    requires ValidSuite(s) && Sendable(ps) && |salt| == s.saltLen
    ensures Honest(s, salt, ps, FRESH, 0) && Received(s, ps, 0) == 0
  {
    assert Stream(s, salt, ps)[..0] == [];
  }

  lemma {:induction false} StreamEnd(s: Suite, salt: bytes, ps: seq<bytes>)
    requires ValidSuite(s) && Sendable(ps) && |salt| == s.saltLen
    ensures Received(s, ps, |Stream(s, salt, ps)|) == |ps|
  {
    hide ValidSuite;
    WholeAll(s, s.derive(salt), 0, ps);
  }

  lemma {:induction false} WholeAll(s: Suite, key: bytes, ops: nat, ps: seq<bytes>)
    requires ValidSuite(s) && Sendable(ps)
    ensures Whole(s, ps, |Body(s, key, ops, ps)|) == |ps|
    decreases |ps|
  {
    hide ValidSuite, Chunk;
    if ps != [] {
      BodyPrefix(s, key, ops, ps);
      WholeAll(s, key, ops + 2, ps[1..]);
    }
  }
}
