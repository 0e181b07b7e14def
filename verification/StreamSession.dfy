/** Whole sessions of the stream cipher layer: any split of the plaintext into calls is sent as
    the nonce and the masked text, and any split of that is received as the plaintext, exactly
    as far as the block counter reaches. */
module StreamSession {
  import opened Wrappers
  import opened Arithmetic
  import opened Bytes
  import opened Sequences
  import opened Bitwise
  import opened PingPong
  import opened Buffers
  import opened Stream

  // ---------- sending ----------

  /** `init` and `counter` of the sending context. */
  datatype Sender = Sender(init: bool, counter: nat)

  /** `ok` is false once the cipher library has stopped the program. */
  datatype Sent = Sent(st: Sender, out: bytes, ok: bool)

  /** stream_encrypt: the first call puts the nonce in front. */
  ghost function Encrypt(c: Cipher, nonce: bytes, st: Sender, data: bytes): (r: Sent)
    requires ValidCipher(c)
  {
    var counter := if st.init then st.counter else 0;
    match Call(c, nonce, counter, data)
    case None => Sent(Sender(true, counter), [], false)
    case Some(d) =>
      Sent(Sender(true, (counter + |data|) % COUNTER), (if st.init then [] else nonce) + d, true)
  }

  const UNUSED := Sender(false, 0)

  ghost function EncryptRun(c: Cipher, nonce: bytes, writes: seq<bytes>): (r: Sent)
    requires ValidCipher(c)
  {
    if writes == [] then Sent(UNUSED, [], true)
    else
      var before := EncryptRun(c, nonce, writes[..|writes| - 1]);
      if !before.ok then before
      else
        var now := Encrypt(c, nonce, before.st, writes[|writes| - 1]);
        Sent(now.st, before.out + now.out, now.ok)
  }

  function Start(writes: seq<bytes>, i: nat): (n: nat)
    requires i <= |writes|
  {
    |Flatten(writes[..i])|
  }

  /** Every write that carries bytes starts below the limit of the counter, and the last ends
      where the keystream does, at the latest. */
  ghost predicate Within(m: Method, writes: seq<bytes>)
  {
    && |Flatten(writes)| <= Reach(m)
    && forall i :: 0 <= i < |writes| && writes[i] != [] ==> Start(writes, i) < Limit(m)
  }

  /** All writes are sent, as the nonce and the text XOR keystream. */
  ghost predicate Faithful(c: Cipher, nonce: bytes, writes: seq<bytes>)
    requires ValidCipher(c)
  {
    var r := EncryptRun(c, nonce, writes);
    r.ok && r.out == nonce + Masked(c, nonce, 0, Flatten(writes))
  }

  lemma {:induction false} CounterStep(n: nat, k: nat)
    ensures (n % COUNTER + k) % COUNTER == (n + k) % COUNTER
  {
    var q, r := DivMod(n % COUNTER + k, COUNTER);
    Quotient(n % COUNTER + k, COUNTER, q, r);
    Quotient(n + k, COUNTER, n / COUNTER + q, r);
  }

  lemma {:induction false} RunStep(c: Cipher, nonce: bytes, w: seq<bytes>, d: bytes)
    requires ValidCipher(c)
    ensures var before := EncryptRun(c, nonce, w);
            var now := Encrypt(c, nonce, before.st, d);
            EncryptRun(c, nonce, w + [d]) ==
              if before.ok then Sent(now.st, before.out + now.out, now.ok) else before
  {
    hide Encrypt;
    assert (w + [d])[..|w|] == w;
  }

  /** The counter is the number of bytes sent, modulo 2^64. */
  lemma {:induction false} RunCounter(c: Cipher, nonce: bytes, writes: seq<bytes>)
    requires ValidCipher(c) && EncryptRun(c, nonce, writes).ok
    ensures EncryptRun(c, nonce, writes).st == Sender(writes != [], |Flatten(writes)| % COUNTER)
  {
    hide EncryptRun, Call, Flatten;
    NothingYet(c, nonce);
    if writes != [] {
      var w, d := writes[..|writes| - 1], writes[|writes| - 1];
      assert writes == w + [d];
      RunStep(c, nonce, w, d);
      RunCounter(c, nonce, w);
      FlattenLast(writes);
      CounterStep(|Flatten(w)|, |d|);
    }
  }

  /** The next write masks its bytes at its position modulo the limit, if the keystream lasts. */
  lemma {:induction false} NextWrite(c: Cipher, nonce: bytes, w: seq<bytes>, d: bytes)
    requires ValidCipher(c) && EncryptRun(c, nonce, w).ok
    ensures var at := |Flatten(w)| % Limit(c.kind);
            var r := EncryptRun(c, nonce, w + [d]);
            && (r.ok <==> at + |d| <= Reach(c.kind))
            && (r.ok ==> r.out == EncryptRun(c, nonce, w).out + (if w == [] then nonce else [])
                                    + Masked(c, nonce, at, d))
  {
    hide EncryptRun, Call, Masked, Reach;
    RunStep(c, nonce, w, d);
    RunCounter(c, nonce, w);
    CallMasks(c, nonce, |Flatten(w)|, d);
    Associative(EncryptRun(c, nonce, w).out, if w == [] then nonce else [],
                Masked(c, nonce, |Flatten(w)| % Limit(c.kind), d));
  }

  lemma {:induction false} EmptyMasked(c: Cipher, nonce: bytes, off: nat, off': nat, d: bytes)
    requires ValidCipher(c) && (d == [] || off == off')
    ensures Masked(c, nonce, off, d) == Masked(c, nonce, off', d)
    ensures d == [] ==> Masked(c, nonce, off, d) == []
  {
  }

  lemma {:induction false} WithinPrefix(m: Method, writes: seq<bytes>, k: nat)
    requires k <= |writes| && |Flatten(writes)| <= Reach(m)
    requires forall i :: 0 <= i < k && writes[i] != [] ==> Start(writes, i) < Limit(m)
    ensures Within(m, writes[..k])
  {
    hide Limit, Reach, Flatten;
    forall i | 0 <= i < k ensures writes[..k][..i] == writes[..i] {
    }
    assert writes == writes[..k] + writes[k..];
    FlattenSplit(writes[..k], writes[k..]);
  }

  /** Every split of the text into writes sends the nonce and then the masked text. */
  lemma {:induction false} EncryptAnySplit(c: Cipher, nonce: bytes, writes: seq<bytes>)
    requires ValidCipher(c) && writes != [] && Within(c.kind, writes)
    ensures Faithful(c, nonce, writes)
  {
    hide EncryptRun, Masked, Keystream, Flatten, Reach;
    var k := |writes| - 1;
    var w, d := writes[..k], writes[k];
    assert writes == w + [d];
    FlattenLast(writes);
    NothingYet(c, nonce);
    if w != [] {
      WithinPrefix(c.kind, writes, k);
      EncryptAnySplit(c, nonce, w);
      Associative(nonce, Masked(c, nonce, 0, Flatten(w)), Masked(c, nonce, |Flatten(w)|, d));
    }
    NextWrite(c, nonce, w, d);
    Fits(c.kind, |Flatten(w)|, |d|);
    MaskedConcat(c, nonce, 0, Flatten(w), d);
    assert d != [] ==> Start(writes, k) < Limit(c.kind);
    EmptyMasked(c, nonce, |Flatten(w)| % Limit(c.kind), |Flatten(w)|, d);
  }

  lemma {:induction false} Fits(m: Method, pos: nat, n: nat)
    ensures n == 0 ==> pos % Limit(m) + n <= Reach(m)
    ensures pos < Limit(m) ==> pos % Limit(m) == pos
  {
  }

  lemma {:induction false} NothingYet(c: Cipher, nonce: bytes)
    requires ValidCipher(c)
    ensures EncryptRun(c, nonce, []) == Sent(UNUSED, [], true)
    ensures Flatten<byte>([]) == [] && Masked(c, nonce, 0, []) == []
  {
  }

  /** In particular when the text is no longer than the limit; for chacha20-ietf, whose
      keystream ends there, this is the whole condition. */
  lemma {:induction false} WithinLimit(m: Method, writes: seq<bytes>)
    ensures |Flatten(writes)| <= Limit(m) ==> Within(m, writes)
    ensures m == Chacha20Ietf ==> (Within(m, writes) <==> |Flatten(writes)| <= Limit(m))
  {
    hide Flatten;
    if |Flatten(writes)| <= Limit(m) {
      forall i | 0 <= i < |writes| && writes[i] != [] ensures Start(writes, i) < Limit(m) {
        assert writes == writes[..i] + [writes[i]] + writes[i + 1..];
        FlattenSplit(writes[..i] + [writes[i]], writes[i + 1..]);
        assert (writes[..i] + [writes[i]])[..i] == writes[..i];
        FlattenLast(writes[..i] + [writes[i]]);
      }
    }
  }

  // ---------- what stands on the wire ----------

  /** The nonce, and then every byte of the text, with exactly those bits turned that are set in
      the byte of the cipher's block at its position; blocks have 64 bytes. */
  ghost predicate OnTheWire(c: Cipher, nonce: bytes, text: bytes, w: bytes)
    requires ValidCipher(c)
  {
    && |w| == |nonce| + |text| && w[..|nonce|] == nonce
    && forall i :: 0 <= i < |text| ==> Differs(w[|nonce| + i], text[i], c.block(nonce, i / 64)[i % 64])
  }

  lemma {:induction false} StreamOnTheWire(c: Cipher, nonce: bytes, text: bytes)
    requires ValidCipher(c)
    ensures OnTheWire(c, nonce, text, nonce + Masked(c, nonce, 0, text))
  {
    hide Xor, Differs;
    var m := Masked(c, nonce, 0, text);
    assert (nonce + m)[..|nonce|] == nonce;
    forall i | 0 <= i < |text| ensures Differs((nonce + m)[|nonce| + i], text[i], c.block(nonce, i / 64)[i % 64]) {
      XorDiffering(text[i], c.block(nonce, i / 64)[i % 64]);
      assert m[i] == Xor(text[i], Keystream(c, nonce, 0 + i));
    }
  }

  /** Whatever the split, this is what the calls send. */
  lemma {:induction false} SentOnTheWire(c: Cipher, nonce: bytes, writes: seq<bytes>)
    requires ValidCipher(c) && writes != [] && Within(c.kind, writes)
    ensures EncryptRun(c, nonce, writes).ok
    ensures OnTheWire(c, nonce, Flatten(writes), EncryptRun(c, nonce, writes).out)
  {
    hide EncryptRun, Masked, OnTheWire, Flatten;
    EncryptAnySplit(c, nonce, writes);
    StreamOnTheWire(c, nonce, Flatten(writes));
  }

  /** Under a keystream of zeros the text itself is sent. */
  lemma {:induction false} ZeroKeystream(c: Cipher, nonce: bytes, writes: seq<bytes>)
    requires ValidCipher(c) && writes != [] && Within(c.kind, writes)
    requires forall n, i :: c.block(n, i) == seq(64, _ => 0)
    ensures EncryptRun(c, nonce, writes).out == nonce + Flatten(writes)
  {
    hide EncryptRun, Flatten, Xor;
    EncryptAnySplit(c, nonce, writes);
    var text := Flatten(writes);
    forall i | 0 <= i < |text| ensures Masked(c, nonce, 0, text)[i] == text[i] {
      assert Keystream(c, nonce, 0 + i) == 0;
      XorZero(text[i]);
    }
    assert Masked(c, nonce, 0, text) == text;
  }

  // ---------- past the limit ----------

  /** A cipher whose keystream is nonzero in one block only. */
  function Marked(m: Method, at: nat): (c: Cipher)
  {
    Cipher(m, (n, i) => if i == at then seq(BLOCK, _ => 1) else seq(BLOCK, _ => 0))
  }

  lemma {:induction false} MarkedStream(m: Method, at: nat, nonce: bytes, i: nat)
    ensures ValidCipher(Marked(m, at))
    ensures Keystream(Marked(m, at), nonce, i) == if i / BLOCK == at then 1 else 0
  {
  }

  lemma {:induction false} WrapsApart(m: Method, pos: nat)
    requires pos >= Limit(m)
    ensures pos % Limit(m) / BLOCK != pos / BLOCK
  {
  }

  lemma {:induction false} Cancel(a: bytes, b: bytes, c: bytes)
    requires a + b == a + c
    ensures b == c
  {
    assert b == (a + b)[|a|..] && c == (a + c)[|a|..];
  }

  lemma {:induction false} SameLength(a: bytes, b: bytes, a': bytes, b': bytes)
    requires a + b == a' + b' && |a| == |a'|
    ensures a == a' && b == b'
  {
    assert a == (a + b)[..|a|] && a' == (a' + b')[..|a|];
    Cancel(a, b, b');
  }

  /** What is sent is as long as the nonce and the text. */
  lemma {:induction false} SentLength(c: Cipher, nonce: bytes, writes: seq<bytes>)
    requires ValidCipher(c) && EncryptRun(c, nonce, writes).ok && writes != []
    ensures |EncryptRun(c, nonce, writes).out| == |nonce| + |Flatten(writes)|
  {
    hide Masked, Flatten, Reach;
    var w, d := writes[..|writes| - 1], writes[|writes| - 1];
    assert writes == w + [d];
    FlattenLast(writes);
    NothingYet(c, nonce);
    assert EncryptRun(c, nonce, w).ok;
    if w != [] {
      SentLength(c, nonce, w);
    }
    NextWrite(c, nonce, w, d);
    MaskedLength(c, nonce, |Flatten(w)| % Limit(c.kind), d);
  }

  lemma {:induction false} MaskedLength(c: Cipher, nonce: bytes, off: nat, d: bytes)
    requires ValidCipher(c)
    ensures |Masked(c, nonce, off, d)| == |d|
  {
  }

  /** If all writes are sent right, then so were those before the last one, and the last one
      used the keystream at its position. */
  lemma {:induction false} FaithfulBefore(c: Cipher, nonce: bytes, w: seq<bytes>, d: bytes)
    requires ValidCipher(c) && w != [] && Faithful(c, nonce, w + [d])
    ensures Faithful(c, nonce, w)
    ensures Masked(c, nonce, |Flatten(w)| % Limit(c.kind), d) == Masked(c, nonce, |Flatten(w)|, d)
  {
    hide EncryptRun, Encrypt, Masked, Flatten, Reach;
    RunStep(c, nonce, w, d);
    SentLength(c, nonce, w);
    NextWrite(c, nonce, w, d);
    assert (w + [d])[..|w|] == w;
    FlattenLast(w + [d]);
    MaskedConcat(c, nonce, 0, Flatten(w), d);
    MaskedLength(c, nonce, 0, Flatten(w));
    var sent, m := EncryptRun(c, nonce, w).out, Masked(c, nonce, 0, Flatten(w));
    var used, right := Masked(c, nonce, |Flatten(w)| % Limit(c.kind), d), Masked(c, nonce, |Flatten(w)|, d);
    Associative(nonce, m, right);
    assert sent + [] == sent;
    SameLength(sent, used, nonce + m, right);
  }

  lemma {:induction false} FaithfulPrefix(c: Cipher, nonce: bytes, writes: seq<bytes>, k: nat)
    requires ValidCipher(c) && 0 < k <= |writes| && Faithful(c, nonce, writes)
    ensures Faithful(c, nonce, writes[..k])
    decreases |writes|
  {
    hide Faithful, Masked;
    if k == |writes| {
      assert writes[..k] == writes;
    } else {
      var w := writes[..|writes| - 1];
      assert writes == w + [writes[|writes| - 1]] && w[..k] == writes[..k];
      FaithfulBefore(c, nonce, w, writes[|writes| - 1]);
      FaithfulPrefix(c, nonce, w, k);
    }
  }

  /** A write past the limit reuses keystream: some cipher shows it. */
  lemma {:induction false} PastLimit(m: Method, nonce: bytes, w: seq<bytes>, d: bytes)
    requires d != [] && |Flatten(w)| >= Limit(m)
    ensures ValidCipher(Marked(m, |Flatten(w)| / BLOCK))
    ensures !Faithful(Marked(m, |Flatten(w)| / BLOCK), nonce, w + [d])
  {
    var pos := |Flatten(w)|;
    var c := Marked(m, pos / BLOCK);
    MarkedStream(m, pos / BLOCK, nonce, pos);
    MarkedStream(m, pos / BLOCK, nonce, pos % Limit(m));
    WrapsApart(m, pos);
    assert w != [] && c.kind == m;
    hide Marked, Keystream, Flatten, Faithful, Limit;
    if Faithful(c, nonce, w + [d]) {
      FaithfulBefore(c, nonce, w, d);
      FirstMasked(c, nonce, pos, d);
      FirstMasked(c, nonce, pos % Limit(m), d);
      hide Masked;
      XorDiffers(d[0], Keystream(c, nonce, pos), Keystream(c, nonce, pos % Limit(m)));
    }
  }

  lemma {:induction false} FirstMasked(c: Cipher, nonce: bytes, off: nat, d: bytes)
    requires ValidCipher(c) && d != []
    ensures Masked(c, nonce, off, d) != [] && Masked(c, nonce, off, d)[0] == Xor(d[0], Keystream(c, nonce, off))
  {
    hide Keystream, Xor;
    assert off + 0 == off;
  }

  /** Sending is right, whatever the cipher, exactly when every write with bytes starts below
      the limit and the keystream lasts to the end of the text. */
  lemma {:induction false} ExactLimit(m: Method, nonce: bytes, writes: seq<bytes>)
    requires writes != []
    ensures (forall c :: ValidCipher(c) && c.kind == m ==> Faithful(c, nonce, writes)) <==> Within(m, writes)
  {
    hide Flatten, Limit;
    if Within(m, writes) {
      forall c | ValidCipher(c) && c.kind == m ensures Faithful(c, nonce, writes) {
        EncryptAnySplit(c, nonce, writes);
      }
    } else if forall i :: 0 <= i < |writes| && writes[i] != [] ==> Start(writes, i) < Limit(m) {
      MarkedStream(m, 0, nonce, 0);
      RunsOut(Marked(m, 0), nonce, writes);
    } else {
      hide Faithful;
      var i := FirstPast(m, writes, |writes|);
      PastLimit(m, nonce, writes[..i], writes[i]);
      var c := Marked(m, |Flatten(writes[..i])| / BLOCK);
      assert writes[..i + 1] == writes[..i] + [writes[i]];
      if Faithful(c, nonce, writes) {
        FaithfulPrefix(c, nonce, writes, i + 1);
      }
    }
  }

  /** Writes that all start below the limit but end past the keystream are not all sent. */
  lemma {:induction false} RunsOut(c: Cipher, nonce: bytes, writes: seq<bytes>)
    requires ValidCipher(c) && |Flatten(writes)| > Reach(c.kind)
    requires forall i :: 0 <= i < |writes| && writes[i] != [] ==> Start(writes, i) < Limit(c.kind)
    ensures !EncryptRun(c, nonce, writes).ok
  {
    hide EncryptRun, Encrypt, Masked, Flatten, Reach;
    NothingYet(c, nonce);
    var k := |writes| - 1;
    var w, d := writes[..k], writes[k];
    assert writes == w + [d];
    FlattenLast(writes);
    RunStep(c, nonce, w, d);
    if d == [] {
      forall i | 0 <= i < k ensures w[..i] == writes[..i] {
      }
      RunsOut(c, nonce, w);
    } else if EncryptRun(c, nonce, w).ok {
      assert Start(writes, k) < Limit(c.kind);
      NextWrite(c, nonce, w, d);
      Fits(c.kind, |Flatten(w)|, |d|);
    }
  }

  lemma {:induction false} FirstPast(m: Method, writes: seq<bytes>, n: nat) returns (i: nat)
    requires n <= |writes| && exists j :: 0 <= j < n && writes[j] != [] && Start(writes, j) >= Limit(m)
    ensures i < n && writes[i] != [] && Start(writes, i) >= Limit(m)
    ensures forall j :: 0 <= j < i && writes[j] != [] ==> Start(writes, j) < Limit(m)
  {
    hide Start, Limit;
    if exists j :: 0 <= j < n - 1 && writes[j] != [] && Start(writes, j) >= Limit(m) {
      i := FirstPast(m, writes, n - 1);
    } else {
      i := n - 1;
    }
  }

  // ---------- receiving ----------

  /** `chunk` collects the nonce; `init` is 0 until it is complete, 1 until it is recorded. */
  datatype Receiver = Receiver(init: nat, chunk: bytes, nonce: bytes, counter: nat)

  /** No code means that the cipher library has stopped the program. */
  datatype Outcome = Outcome(st: Receiver, hist: seq<bytes>, code: Option<Code>, out: bytes)

  const IDLE := Receiver(0, [], [], 0)

  /** stream_decrypt from the masked bytes on. */
  ghost function Unmask(c: Cipher, p: Params, hist: seq<bytes>, st: Receiver, d: bytes): (r: Outcome)
    requires ValidCipher(c) && ValidParams(p)
  {
    if d == [] then Outcome(st, hist, Some(NEED_MORE), [])
    else
      var st' := st.(counter := (st.counter + |d|) % COUNTER);
      match Call(c, st.nonce, st.counter, d)
      case None => Outcome(st, hist, None, [])
      case Some(out) =>
        if st.init != 1 then Outcome(st', hist, Some(OK), out)
        else if Seen(p, hist, st.nonce) then Outcome(st', hist, Some(ERROR), [])
        else Outcome(st'.(init := 2), Added(p, hist, st.nonce), Some(OK), out)
  }

  /** stream_decrypt. */
  ghost function Decrypt(c: Cipher, p: Params, hist: seq<bytes>, st: Receiver, e: bytes): (r: Outcome)
    requires ValidCipher(c) && ValidParams(p) && |st.chunk| <= NonceLen(c.kind)
  {
    if st.init != 0 then Unmask(c, p, hist, st, e)
    else
      var room := NonceLen(c.kind) - |st.chunk|;
      if |e| < room then Outcome(st.(chunk := st.chunk + e), hist, Some(NEED_MORE), [])
      else
        var nonce := st.chunk + e[..room];
        var st' := Receiver(1, nonce, nonce, 0);
        if Seen(p, hist, nonce) then Outcome(st', hist, Some(ERROR), [])
        else Unmask(c, p, hist, st', e[room..])
  }

  datatype Received = Received(st: Receiver, hist: seq<bytes>, out: bytes, ok: bool)

  /** The events in turn until one fails; what successful calls return is delivered. */
  ghost function DecryptRun(c: Cipher, p: Params, hist: seq<bytes>, st: Receiver, events: seq<bytes>): (r: Received)
    requires ValidCipher(c) && ValidParams(p) && |st.chunk| <= NonceLen(c.kind)
    decreases |events|
  {
    if events == [] then Received(st, hist, [], true)
    else
      var o := Decrypt(c, p, hist, st, events[0]);
      if o.code == None || o.code == Some(ERROR) then Received(o.st, o.hist, [], false)
      else
        var r := DecryptRun(c, p, o.hist, o.st, events[1..]);
        r.(out := o.out + r.out)
  }

  /** The receiver after `n` bytes of a stream with this nonce. */
  ghost function Midway(nonce: bytes, n: nat): (st: Receiver)
  {
    if n < |nonce| then Receiver(0, nonce[..n], [], 0)
    else Receiver(if n == |nonce| then 1 else 2, nonce, nonce, (n - |nonce|) % COUNTER)
  }

  /** The plaintext bytes among the first `n` bytes of the stream. */
  ghost function Text(nonce: bytes, text: bytes, n: nat): (r: bytes)
    requires n <= |nonce| + |text|
  {
    if n <= |nonce| then [] else text[..n - |nonce|]
  }

  ghost function Recorded(p: Params, hist: seq<bytes>, nonce: bytes, n: nat): (h: seq<bytes>)
  {
    if n <= |nonce| then hist else Added(p, hist, nonce)
  }

  ghost function StreamOf(c: Cipher, nonce: bytes, text: bytes): (w: bytes)
    requires ValidCipher(c)
    ensures |w| == |nonce| + |text|
  {
    nonce + Masked(c, nonce, 0, text)
  }

  /** A stretch of masked bytes, unmasked at its position. */
  lemma {:induction false} CallRestores(c: Cipher, nonce: bytes, text: bytes, lo: nat, hi: nat)
    requires ValidCipher(c) && lo < hi <= |text| <= Limit(c.kind)
    ensures Call(c, nonce, lo % COUNTER, Masked(c, nonce, 0, text)[lo..hi]) == Some(text[lo..hi])
  {
    hide Call, Masked;
    assert |Masked(c, nonce, 0, text)| == |text|;
    MaskedSlice(c, nonce, text, lo, hi);
    MaskedTwice(c, nonce, lo, text[lo..hi]);
    CallMasks(c, nonce, lo, Masked(c, nonce, 0, text)[lo..hi]);
    assert lo % Limit(c.kind) == lo;
  }

  /** The masked bytes of an event that ends after `n` bytes of the stream. */
  lemma {:induction false} UnmaskHonest(c: Cipher, p: Params, hist: seq<bytes>, nonce: bytes, text: bytes,
                                        n: nat, d: bytes)
    requires ValidCipher(c) && ValidParams(p) && !Seen(p, hist, nonce) && |text| <= Limit(c.kind)
    requires |nonce| <= n && n + |d| <= |nonce| + |text|
    requires d == StreamOf(c, nonce, text)[n..n + |d|]
    ensures var o := Unmask(c, p, Recorded(p, hist, nonce, n), Midway(nonce, n), d);
            && o.st == Midway(nonce, n + |d|) && o.hist == Recorded(p, hist, nonce, n + |d|)
            && o.code in {Some(OK), Some(NEED_MORE)} && Text(nonce, text, n + |d|) == Text(nonce, text, n) + o.out
  {
    hide Seen, Call, Masked, Limit, StreamOf;
    var lo := n - |nonce|;
    if d != [] {
      CallAt(c, nonce, text, n, d);
      CounterStep(lo, |d|);
      assert text[..lo + |d|] == text[..lo] + text[lo..lo + |d|];
    }
  }

  lemma {:induction false} CallAt(c: Cipher, nonce: bytes, text: bytes, n: nat, d: bytes)
    requires ValidCipher(c) && |text| <= Limit(c.kind) && d != []
    requires |nonce| <= n && n + |d| <= |nonce| + |text|
    requires d == StreamOf(c, nonce, text)[n..n + |d|]
    ensures Call(c, nonce, (n - |nonce|) % COUNTER, d) == Some(text[n - |nonce|..n - |nonce| + |d|])
  {
    hide Call, Masked, Limit;
    var lo := n - |nonce|;
    MaskedLength(c, nonce, 0, text);
    SliceRight(nonce, Masked(c, nonce, 0, text), lo, lo + |d|);
    CallRestores(c, nonce, text, lo, lo + |d|);
  }

  /** Collecting the nonce from the front of a stream. */
  lemma {:induction false} Collect(nonce: bytes, w: bytes, n: nat, e: bytes)
    requires nonce <= w && n < |nonce| && n + |e| <= |w| && e == w[n..n + |e|]
    ensures n + |e| < |nonce| ==> nonce[..n] + e == nonce[..n + |e|]
    ensures n + |e| >= |nonce| ==> nonce[..n] + e[..|nonce| - n] == nonce
  {
    assert forall i :: 0 <= i < |nonce| ==> w[i] == nonce[i];
    assert forall i :: 0 <= i < |e| ==> e[i] == w[n + i];
  }

  lemma {:induction false} DecryptHonest(c: Cipher, p: Params, hist: seq<bytes>, nonce: bytes, text: bytes,
                                         n: nat, e: bytes)
    requires ValidCipher(c) && ValidParams(p) && !Seen(p, hist, nonce) && |text| <= Limit(c.kind)
    requires |nonce| == NonceLen(c.kind) && n + |e| <= |nonce| + |text|
    requires e == StreamOf(c, nonce, text)[n..n + |e|]
    ensures var o := Decrypt(c, p, Recorded(p, hist, nonce, n), Midway(nonce, n), e);
            && o.st == Midway(nonce, n + |e|) && o.hist == Recorded(p, hist, nonce, n + |e|)
            && o.code in {Some(OK), Some(NEED_MORE)} && Text(nonce, text, n + |e|) == Text(nonce, text, n) + o.out
  {
    hide Seen, Unmask, Masked, Limit;
    var w := StreamOf(c, nonce, text);
    if n >= |nonce| {
      UnmaskHonest(c, p, hist, nonce, text, n, e);
    } else if n + |e| < |nonce| {
      Collect(nonce, w, n, e);
    } else {
      var room := |nonce| - n;
      SubSlice(w, n, n + |e|, room, |e|);
      Collect(nonce, w, n, e);
      assert e[room..] == e[room..|e|];
      UnmaskHonest(c, p, hist, nonce, text, |nonce|, e[room..]);
    }
  }

  lemma {:induction false} MidwayFits(c: Cipher, nonce: bytes, n: nat)
    requires |nonce| == NonceLen(c.kind)
    ensures |Midway(nonce, n).chunk| <= NonceLen(c.kind)
  {
  }

  lemma {:induction false} StreamLength(c: Cipher, nonce: bytes, text: bytes)
    requires ValidCipher(c)
    ensures |StreamOf(c, nonce, text)| == |nonce| + |text|
  {
  }

  lemma {:induction false} RunUnfold(c: Cipher, p: Params, hist: seq<bytes>, st: Receiver, events: seq<bytes>)
    requires ValidCipher(c) && ValidParams(p) && |st.chunk| <= NonceLen(c.kind)
    ensures events == [] ==> DecryptRun(c, p, hist, st, events) == Received(st, hist, [], true) && Flatten(events) == []
    ensures events != [] ==>
              var o := Decrypt(c, p, hist, st, events[0]);
              && |o.st.chunk| <= NonceLen(c.kind)
              && DecryptRun(c, p, hist, st, events)
                 == if o.code == None || o.code == Some(ERROR) then Received(o.st, o.hist, [], false)
                    else var r := DecryptRun(c, p, o.hist, o.st, events[1..]); r.(out := o.out + r.out)
  {
    hide Seen, Call, Flatten;
    assert events == [] ==> Flatten(events) == [] by { EmptyFlat(); }
  }

  /** A run of more events goes on where the first ones stopped. */
  lemma {:induction false} RunConcat(c: Cipher, p: Params, hist: seq<bytes>, st: Receiver, a: seq<bytes>, b: seq<bytes>)
    requires ValidCipher(c) && ValidParams(p) && |st.chunk| <= NonceLen(c.kind)
    ensures var r := DecryptRun(c, p, hist, st, a);
            && |r.st.chunk| <= NonceLen(c.kind)
            && DecryptRun(c, p, hist, st, a + b)
               == if !r.ok then r else var t := DecryptRun(c, p, r.hist, r.st, b); t.(out := r.out + t.out)
    decreases |a|
  {
    hide Decrypt, DecryptRun, Flatten;
    RunUnfold(c, p, hist, st, a);
    RunUnfold(c, p, hist, st, a + b);
    if a == [] {
      assert a + b == b;
    } else {
      var o := Decrypt(c, p, hist, st, a[0]);
      assert (a + b)[1..] == a[1..] + b;
      RunConcat(c, p, o.hist, o.st, a[1..], b);
      var r := DecryptRun(c, p, o.hist, o.st, a[1..]);
      Associative(o.out, r.out, DecryptRun(c, p, r.hist, r.st, b).out);
    }
  }

  lemma {:induction false} EmptyFlat()
    ensures Flatten<byte>([]) == []
  {
  }

  lemma {:induction false} RunHonest(c: Cipher, p: Params, hist: seq<bytes>, nonce: bytes, text: bytes,
                                     n: nat, events: seq<bytes>)
    requires ValidCipher(c) && ValidParams(p) && !Seen(p, hist, nonce) && |text| <= Limit(c.kind)
    requires |nonce| == NonceLen(c.kind) && n + |Flatten(events)| <= |nonce| + |text|
    requires Flatten(events) == StreamOf(c, nonce, text)[n..n + |Flatten(events)|]
    ensures var r := DecryptRun(c, p, Recorded(p, hist, nonce, n), Midway(nonce, n), events);
            var m := n + |Flatten(events)|;
            && r.ok && r.st == Midway(nonce, m) && r.hist == Recorded(p, hist, nonce, m)
            && Text(nonce, text, m) == Text(nonce, text, n) + r.out
    decreases |events|
  {
    hide Seen, Decrypt, DecryptRun, Masked, Limit, Flatten, Text, Recorded, StreamOf;
    var h := Recorded(p, hist, nonce, n);
    MidwayFits(c, nonce, n);
    StreamLength(c, nonce, text);
    RunUnfold(c, p, h, Midway(nonce, n), events);
    hide Midway;
    if events != [] {
      var w, e := StreamOf(c, nonce, text), events[0];
      CutFirst(events, w, n);
      DecryptHonest(c, p, hist, nonce, text, n, e);
      MidwayFits(c, nonce, n + |e|);
      RunHonest(c, p, hist, nonce, text, n + |e|, events[1..]);
      var o := Decrypt(c, p, h, Midway(nonce, n), e);
      Associative(Text(nonce, text, n), o.out, DecryptRun(c, p, o.hist, o.st, events[1..]).out);
    }
  }

  /** All writes are sent, and the events, a cut of a prefix of what was sent, deliver exactly
      the plaintext bytes of that prefix and record the nonce with the first of them. */
  ghost predicate Right(c: Cipher, p: Params, hist: seq<bytes>, nonce: bytes, writes: seq<bytes>, events: seq<bytes>)
    requires ValidCipher(c) && ValidParams(p)
  {
    var r, n := DecryptRun(c, p, hist, IDLE, events), |Flatten(events)|;
    && EncryptRun(c, nonce, writes).ok && r.ok && n <= |nonce| + |Flatten(writes)|
    && r.out == Text(nonce, Flatten(writes), n) && r.hist == Recorded(p, hist, nonce, n)
  }

  /** Any writes up to the limit and any segmentation of any prefix of what they send. */
  lemma {:induction false} Session(c: Cipher, p: Params, hist: seq<bytes>, nonce: bytes,
                                   writes: seq<bytes>, events: seq<bytes>)
    requires ValidCipher(c) && ValidParams(p) && |nonce| == NonceLen(c.kind) && !Seen(p, hist, nonce)
    requires writes != [] && |Flatten(writes)| <= Limit(c.kind)
    requires Flatten(events) <= EncryptRun(c, nonce, writes).out
    ensures Right(c, p, hist, nonce, writes, events)
  {
    hide Seen, DecryptRun, EncryptRun, Masked, Limit, Flatten;
    var text := Flatten(writes);
    WithinLimit(c.kind, writes);
    EncryptAnySplit(c, nonce, writes);
    assert EncryptRun(c, nonce, writes).out == StreamOf(c, nonce, text);
    RunHonest(c, p, hist, nonce, text, 0, events);
    assert Midway(nonce, 0) == IDLE;
  }

  lemma {:induction false} FirstEvent(c: Cipher, p: Params, hist: seq<bytes>, nonce: bytes, d: bytes)
    requires ValidCipher(c) && ValidParams(p) && |nonce| == NonceLen(c.kind) && !Seen(p, hist, nonce) && d != []
    ensures var o := Decrypt(c, p, hist, IDLE, nonce + d);
            if |d| > Reach(c.kind) then o.code == None
            else o == Outcome(Receiver(2, nonce, nonce, |d| % COUNTER), Added(p, hist, nonce), Some(OK),
                              Masked(c, nonce, 0, d))
  {
    hide Seen, Call, Masked, Reach;
    var e := nonce + d;
    assert e[..|nonce|] == nonce && e[|nonce|..] == d && [] + nonce == nonce;
    FirstCall(c, nonce, d);
  }

  /** The whole stream in one event. */
  lemma {:induction false} OneEvent(c: Cipher, p: Params, hist: seq<bytes>, nonce: bytes, d: bytes)
    requires ValidCipher(c) && ValidParams(p) && |nonce| == NonceLen(c.kind) && !Seen(p, hist, nonce) && d != []
    ensures var r := DecryptRun(c, p, hist, IDLE, [nonce + d]);
            && Flatten([nonce + d]) == nonce + d
            && (r.ok <==> |d| <= Reach(c.kind)) && (r.ok ==> r.out == Masked(c, nonce, 0, d))
  {
    hide Seen, Decrypt, Masked, Reach;
    FirstEvent(c, p, hist, nonce, d);
    assert Flatten([nonce + d]) == nonce + d + Flatten([]);
    assert [nonce + d][1..] == [];
  }

  lemma {:induction false} FirstCall(c: Cipher, nonce: bytes, d: bytes)
    requires ValidCipher(c)
    ensures Call(c, nonce, 0, d) == MaskedWithin(c, nonce, 0, d)
  {
    hide Call, Masked, Reach;
    CallMasks(c, nonce, 0, d);
  }

  /** The stream cut at the limit: the second event starts over with the keystream. */
  lemma {:induction false} TwoEvents(c: Cipher, p: Params, hist: seq<bytes>, nonce: bytes, a: bytes, b: bytes)
    requires ValidCipher(c) && ValidParams(p) && |nonce| == NonceLen(c.kind) && !Seen(p, hist, nonce)
    requires |a| == Limit(c.kind) && b != []
    ensures var r := DecryptRun(c, p, hist, IDLE, [nonce + a, b]);
            && Flatten([nonce + a, b]) == nonce + a + b
            && (r.ok ==> r.out == Masked(c, nonce, 0, a) + Masked(c, nonce, 0, b))
  {
    hide Seen, Decrypt, Masked, Reach;
    var e, st := nonce + a, Receiver(2, nonce, nonce, |a| % COUNTER);
    FirstEvent(c, p, hist, nonce, a);
    LaterEvent(c, p, Added(p, hist, nonce), st, |a|, b);
    assert [e, b][1..] == [b] && [b][1..] == [];
    assert Flatten([b]) == b + Flatten([]);
    assert Flatten([e, b]) == e + Flatten([b]);
    assert |a| % Limit(c.kind) == 0;
    var o := Decrypt(c, p, Added(p, hist, nonce), st, b);
    assert DecryptRun(c, p, o.hist, o.st, []).out == [] && o.out + [] == o.out;
  }

  lemma {:induction false} LaterEvent(c: Cipher, p: Params, hist: seq<bytes>, st: Receiver, pos: nat, b: bytes)
    requires ValidCipher(c) && ValidParams(p) && |st.chunk| <= NonceLen(c.kind) && b != []
    requires st.init == 2 && st.counter == pos % COUNTER
    ensures var o := Decrypt(c, p, hist, st, b);
            && (o.code == Some(OK) ==> o.out == Masked(c, st.nonce, pos % Limit(c.kind), b))
            && o.code in {None, Some(OK)} && |o.st.chunk| <= NonceLen(c.kind)
  {
    hide Seen, Call, Masked, Reach;
    CallMasks(c, st.nonce, pos, b);
  }

  /** One of the two cuts goes wrong when the text is longer than the limit. */
  lemma {:induction false} TooLong(m: Method, p: Params, hist: seq<bytes>, nonce: bytes, writes: seq<bytes>)
    returns (c: Cipher, events: seq<bytes>)
    requires ValidParams(p) && |nonce| == NonceLen(m) && !Seen(p, hist, nonce)
    requires writes != [] && |Flatten(writes)| > Limit(m)
    ensures ValidCipher(c) && c.kind == m && Flatten(events) <= EncryptRun(c, nonce, writes).out
    ensures !Right(c, p, hist, nonce, writes, events)
  {
    hide Keystream, Flatten, Limit, EncryptRun, DecryptRun, Seen, Right, Reach, Masked;
    var limit := Limit(m);
    c := MarkedAtLimit(m, nonce);
    if !EncryptRun(c, nonce, writes).ok {
      NotSent(c, p, hist, nonce, writes);
      return c, [];
    }
    var d := SentAll(c, nonce, writes);
    if !Right(c, p, hist, nonce, writes, [nonce + d]) {
      OneEvent(c, p, hist, nonce, d);
      return c, [nonce + d];
    }
    events := [nonce + d[..limit], d[limit..]];
    TwoEvents(c, p, hist, nonce, d[..limit], d[limit..]);
    assert nonce + d[..limit] + d[limit..] == nonce + d;
    if Right(c, p, hist, nonce, writes, events) {
      BothRight(c, p, hist, nonce, writes, d);
    }
  }

  /** What follows the nonce is as long as the text. */
  lemma {:induction false} SentAll(c: Cipher, nonce: bytes, writes: seq<bytes>) returns (d: bytes)
    requires ValidCipher(c) && EncryptRun(c, nonce, writes).ok && writes != []
    ensures EncryptRun(c, nonce, writes).out == nonce + d && |d| == |Flatten(writes)|
  {
    hide EncryptRun, Flatten;
    SentLength(c, nonce, writes);
    SentNonce(c, nonce, writes);
    d := EncryptRun(c, nonce, writes).out[|nonce|..];
  }

  /** If both cuts go right, the keystream repeats after the limit. */
  lemma {:induction false} BothRight(c: Cipher, p: Params, hist: seq<bytes>, nonce: bytes, writes: seq<bytes>, d: bytes)
    requires ValidCipher(c) && ValidParams(p) && |nonce| == NonceLen(c.kind) && !Seen(p, hist, nonce)
    requires |d| == |Flatten(writes)| > Limit(c.kind)
    requires Right(c, p, hist, nonce, writes, [nonce + d])
    requires Right(c, p, hist, nonce, writes, [nonce + d[..Limit(c.kind)], d[Limit(c.kind)..]])
    ensures Keystream(c, nonce, Limit(c.kind)) == Keystream(c, nonce, 0)
  {
    hide Keystream, Flatten, Limit, DecryptRun, EncryptRun, Seen, Masked, Reach, Recorded;
    var limit := Limit(c.kind);
    var a, b := d[..limit], d[limit..];
    assert a + b == d && nonce + a + b == nonce + d;
    OneEvent(c, p, hist, nonce, d);
    TwoEvents(c, p, hist, nonce, a, b);
    WholeText(nonce, Flatten(writes));
    hide Text;
    Reused(c, nonce, limit, a, b);
  }

  lemma {:induction false} NotSent(c: Cipher, p: Params, hist: seq<bytes>, nonce: bytes, writes: seq<bytes>)
    requires ValidCipher(c) && ValidParams(p) && !EncryptRun(c, nonce, writes).ok
    ensures Flatten<byte>([]) == [] && !Right(c, p, hist, nonce, writes, [])
  {
  }

  /** A cipher whose keystream differs at the limit and at 0. */
  lemma {:induction false} MarkedAtLimit(m: Method, nonce: bytes) returns (c: Cipher)
    ensures ValidCipher(c) && c.kind == m
    ensures Keystream(c, nonce, Limit(m)) != Keystream(c, nonce, 0)
  {
    c := Marked(m, Limit(m) / BLOCK);
    MarkedStream(m, Limit(m) / BLOCK, nonce, Limit(m));
    MarkedStream(m, Limit(m) / BLOCK, nonce, 0);
  }

  lemma {:induction false} WholeText(nonce: bytes, text: bytes)
    ensures Text(nonce, text, |nonce| + |text|) == text
  {
  }

  /** The nonce is sent first. */
  lemma {:induction false} SentNonce(c: Cipher, nonce: bytes, writes: seq<bytes>)
    requires ValidCipher(c) && EncryptRun(c, nonce, writes).ok && writes != []
    ensures nonce <= EncryptRun(c, nonce, writes).out
  {
    hide Masked, Flatten, Reach;
    var w, d := writes[..|writes| - 1], writes[|writes| - 1];
    assert writes == w + [d];
    NothingYet(c, nonce);
    if w != [] {
      SentNonce(c, nonce, w);
    }
    NextWrite(c, nonce, w, d);
  }

  /** Different keystream at the limit and at 0 gives different bytes. */
  lemma {:induction false} Reused(c: Cipher, nonce: bytes, limit: nat, a: bytes, b: bytes)
    requires ValidCipher(c) && |a| == limit && b != []
    requires Masked(c, nonce, 0, a) + Masked(c, nonce, 0, b) == Masked(c, nonce, 0, a + b)
    ensures Keystream(c, nonce, limit) == Keystream(c, nonce, 0)
  {
    hide Masked, Keystream;
    MaskedConcat(c, nonce, 0, a, b);
    Cancel(Masked(c, nonce, 0, a), Masked(c, nonce, 0, b), Masked(c, nonce, limit, b));
    FirstMasked(c, nonce, 0, b);
    FirstMasked(c, nonce, limit, b);
    XorDiffers(b[0], Keystream(c, nonce, limit), Keystream(c, nonce, 0));
  }

  /** Sessions are right, whatever the cipher and the segmentation, exactly when the text is
      no longer than the limit of the counter. */
  lemma {:induction false} ExactSession(m: Method, p: Params, hist: seq<bytes>, nonce: bytes, writes: seq<bytes>)
    requires ValidParams(p) && |nonce| == NonceLen(m) && !Seen(p, hist, nonce) && writes != []
    ensures (forall c, events :: ValidCipher(c) && c.kind == m && Flatten(events) <= EncryptRun(c, nonce, writes).out
               ==> Right(c, p, hist, nonce, writes, events))
              <==> |Flatten(writes)| <= Limit(m)
  {
    hide Seen, Right, EncryptRun, Flatten, Limit;
    if |Flatten(writes)| <= Limit(m) {
      forall c, events | ValidCipher(c) && c.kind == m && Flatten(events) <= EncryptRun(c, nonce, writes).out
        ensures Right(c, p, hist, nonce, writes, events)
      {
        Session(c, p, hist, nonce, writes, events);
      }
    } else {
      var c, events := TooLong(m, p, hist, nonce, writes);
    }
  }

  // ---------- packets ----------

  /** stream_encrypt_all; no bytes means that the cipher library has stopped the program. */
  ghost function Packet(c: Cipher, nonce: bytes, data: bytes): (r: Option<bytes>)
    requires ValidCipher(c)
  {
    var d := XorIc(c, nonce, 0, data);
    if d == None then None else Some(nonce + d.value)
  }

  /** stream_decrypt_all: code, output and history. */
  ghost function OpenPacket(c: Cipher, p: Params, hist: seq<bytes>, e: bytes): (r: (Option<Code>, bytes, seq<bytes>))
    requires ValidCipher(c) && ValidParams(p)
  {
    var n := NonceLen(c.kind);
    if |e| <= n || Seen(p, hist, e[..n]) then (Some(ERROR), [], hist)
    else
      match XorIc(c, e[..n], 0, e[n..])
      case None => (None, [], hist)
      case Some(d) => (Some(OK), d, Added(p, hist, e[..n]))
  }

  /** A packet can be sent exactly when its payload is within the keystream, and then opens to
      it exactly when the payload is not empty and the nonce is new. */
  lemma {:induction false} PacketRoundTrip(c: Cipher, p: Params, hist: seq<bytes>, nonce: bytes, data: bytes)
    requires ValidCipher(c) && ValidParams(p) && |nonce| == NonceLen(c.kind)
    ensures Packet(c, nonce, data) == None <==> |data| > Reach(c.kind)
    ensures Packet(c, nonce, data) != None ==>
              OpenPacket(c, p, hist, Packet(c, nonce, data).value)
              == if data != [] && !Seen(p, hist, nonce) then (Some(OK), data, Added(p, hist, nonce))
                 else (Some(ERROR), [], hist)
  {
    hide Seen, Masked, Reach, XorIc;
    AtZero(c, nonce, data);
    if Packet(c, nonce, data) != None {
      var d := Masked(c, nonce, 0, data);
      MaskedLength(c, nonce, 0, data);
      assert (nonce + d)[..|nonce|] == nonce && (nonce + d)[|nonce|..] == d;
      AtZero(c, nonce, d);
      MaskedTwice(c, nonce, 0, data);
    }
  }

  lemma {:induction false} PacketOnTheWire(c: Cipher, nonce: bytes, data: bytes)
    requires ValidCipher(c) && Packet(c, nonce, data) != None
    ensures OnTheWire(c, nonce, data, Packet(c, nonce, data).value)
  {
    hide XorIc, Masked, OnTheWire;
    AtZero(c, nonce, data);
    StreamOnTheWire(c, nonce, data);
  }

  lemma {:induction false} AtZero(c: Cipher, nonce: bytes, m: bytes)
    requires ValidCipher(c)
    ensures XorIc(c, nonce, 0, m) == MaskedWithin(c, nonce, 0, m)
  {
    hide XorIc, MaskedWithin;
    Shift(c, nonce, 0, 0, m);
    assert Zeros(0) + m == m;
    Uncut(XorIc(c, nonce, 0, m));
  }

  lemma {:induction false} Uncut(r: Option<bytes>)
    ensures Unpad(r, 0) == r
  {
    if r != None {
      assert r.value[0..] == r.value;
    }
  }

  // ---------- replays ----------

  /** A stream whose nonce is in the filter delivers nothing and fails once the nonce is in. */
  lemma {:induction false} SeenRejected(c: Cipher, p: Params, hist: seq<bytes>, nonce: bytes, w: bytes,
                                        n: nat, events: seq<bytes>)
    requires ValidCipher(c) && ValidParams(p) && |nonce| == NonceLen(c.kind) && Seen(p, hist, nonce)
    requires nonce <= w && n < |nonce| && n + |Flatten(events)| <= |w|
    requires Flatten(events) == w[n..n + |Flatten(events)|]
    ensures var r := DecryptRun(c, p, hist, Midway(nonce, n), events);
            r.out == [] && r.hist == hist && (r.ok <==> n + |Flatten(events)| < |nonce|)
    decreases |events|
  {
    hide Seen, Decrypt;
    if events != [] {
      var e := events[0];
      CutFirst(events, w, n);
      SeenEvent(c, p, hist, nonce, w, n, e);
      hide Flatten, Midway;
      if n + |e| < |nonce| {
        SeenRejected(c, p, hist, nonce, w, n + |e|, events[1..]);
      }
    }
  }

  lemma {:induction false} SeenEvent(c: Cipher, p: Params, hist: seq<bytes>, nonce: bytes, w: bytes, n: nat, e: bytes)
    requires ValidCipher(c) && ValidParams(p) && |nonce| == NonceLen(c.kind) && Seen(p, hist, nonce)
    requires nonce <= w && n < |nonce| && n + |e| <= |w| && e == w[n..n + |e|]
    ensures var o := Decrypt(c, p, hist, Midway(nonce, n), e);
            if n + |e| < |nonce| then o == Outcome(Midway(nonce, n + |e|), hist, Some(NEED_MORE), [])
            else o.code == Some(ERROR) && o.hist == hist && o.out == []
  {
    hide Seen, Unmask;
    Collect(nonce, w, n, e);
  }

  /** A call that makes a context accept its nonce records a nonce that was not in the filter. */
  lemma {:induction false} AcceptedUnseen(c: Cipher, p: Params, hist: seq<bytes>, st: Receiver, e: bytes)
    requires ValidCipher(c) && ValidParams(p) && |st.chunk| <= NonceLen(c.kind) && st.init < 2
    ensures var o := Decrypt(c, p, hist, st, e);
            && (o.code == Some(OK) <==> o.st.init == 2)
            && (o.code == Some(OK) ==> !Seen(p, hist, o.st.nonce) && o.hist == Added(p, hist, o.st.nonce))
            && (o.code != Some(OK) ==> o.hist == hist && o.out == [])
  {
    hide Seen, Call, Added;
  }
}
