/** Any interleaving of stream cipher connections and packets that share the replay memory. */
module StreamReplay {
  import opened Bytes
  import opened Sequences
  import opened PingPong
  import opened Buffers
  import opened Wrappers
  import opened Stream
  import opened StreamSession

  /** The receiving contexts by connection, and the nonces recorded so far. */
  datatype System = System(contexts: map<nat, Receiver>, hist: seq<bytes>)

  /** Bytes arrive on a connection, which starts with a fresh context, or a UDP packet arrives.
      Sending leaves the memory alone: the client is built without MODULE_REMOTE. */
  datatype Event = TcpRecv(id: nat, data: bytes) | UdpRecv(packet: bytes)

  ghost predicate Fits(c: Cipher, sys: System)
  {
    forall id :: id in sys.contexts ==> |sys.contexts[id].chunk| <= NonceLen(c.kind)
  }

  function Context(sys: System, id: nat): (st: Receiver)
  {
    if id in sys.contexts then sys.contexts[id] else IDLE
  }

  ghost function Step(c: Cipher, p: Params, sys: System, e: Event): (r: System)
    requires ValidCipher(c) && ValidParams(p) && Fits(c, sys)
    ensures Fits(c, r)
  {
    match e
    case TcpRecv(id, data) =>
      var o := Decrypt(c, p, sys.hist, Context(sys, id), data);
      System(sys.contexts[id := o.st], o.hist)
    case UdpRecv(packet) => sys.(hist := OpenPacket(c, p, sys.hist, packet).2)
  }

  ghost function After(c: Cipher, p: Params, events: seq<Event>): (r: System)
    requires ValidCipher(c) && ValidParams(p)
    ensures Fits(c, r)
  {
    if events == [] then System(map[], [])
    else Step(c, p, After(c, p, events[..|events| - 1]), events[|events| - 1])
  }

  /** Every nonce was unseen when it was recorded. */
  ghost predicate Checked(p: Params, hist: seq<bytes>)
    requires ValidParams(p)
  {
    (hist != [] ==> p.ready) && forall j :: 0 <= j < |hist| ==> !Seen(p, hist[..j], hist[j])
  }

  /** Recording a nonce that is unseen keeps the history checked. */
  lemma {:induction false} AddChecked(p: Params, h: seq<bytes>, n: bytes)
    requires ValidParams(p) && Checked(p, h) && !Seen(p, h, n)
    ensures Checked(p, Added(p, h, n))
  {
    hide Seen;
    if p.ready {
      var h' := h + [n];
      forall j | 0 <= j < |h'| ensures !Seen(p, h'[..j], h'[j]) {
        assert h'[..j] == h[..j];
        assert j == |h| ==> h[..j] == h;
      }
    }
  }

  lemma {:induction false} StepChecked(c: Cipher, p: Params, sys: System, e: Event)
    requires ValidCipher(c) && ValidParams(p) && Fits(c, sys) && Checked(p, sys.hist)
    ensures Checked(p, Step(c, p, sys, e).hist)
  {
    hide Seen, Checked, Added, Call, XorIc;
    var h := sys.hist;
    match e
    case TcpRecv(id, data) =>
      var st := Context(sys, id);
      var o := Decrypt(c, p, h, st, data);
      if st.init < 2 {
        AcceptedUnseen(c, p, h, st, data);
        hide Decrypt;
        if o.code == Some(OK) {
          AddChecked(p, h, o.st.nonce);
        }
      }
    case UdpRecv(packet) =>
      if OpenPacket(c, p, h, packet).0 == Some(OK) {
        AddChecked(p, h, packet[..NonceLen(c.kind)]);
      }
  }

  lemma {:induction false} AfterChecked(c: Cipher, p: Params, events: seq<Event>)
    requires ValidCipher(c) && ValidParams(p)
    ensures Checked(p, After(c, p, events).hist)
  {
    hide Checked, Step;
    if events == [] {
      EmptyChecked(p);
    } else {
      AfterChecked(c, p, events[..|events| - 1]);
      StepChecked(c, p, After(c, p, events[..|events| - 1]), events[|events| - 1]);
    }
  }

  lemma {:induction false} EmptyChecked(p: Params)
    requires ValidParams(p)
    ensures Checked(p, [])
  {
  }

  // ---------- what is accepted ----------

  /** The bytes that have arrived on a connection. */
  function Arrived(events: seq<Event>, id: nat): (b: bytes)
  {
    if events == [] then []
    else
      var before, e := Arrived(events[..|events| - 1], id), events[|events| - 1];
      if e.TcpRecv? && e.id == id then before + e.data else before
  }

  /** The nonce an event accepts, seen from outside: the call succeeds and takes its context past the
      nonce, which is the first bytes of the connection, or the packet is opened. */
  ghost function Accepts(c: Cipher, p: Params, before: seq<Event>, e: Event): (x: Option<bytes>)
    requires ValidCipher(c) && ValidParams(p)
  {
    var sys := After(c, p, before);
    match e
    case TcpRecv(id, data) =>
      var o := Decrypt(c, p, sys.hist, Context(sys, id), data);
      if o.code == Some(OK) && Context(sys, id).init < 2 then Some(Prefix(Arrived(before + [e], id), NonceLen(c.kind)))
      else None
    case UdpRecv(packet) =>
      if OpenPacket(c, p, sys.hist, packet).0 == Some(OK) then Some(Prefix(packet, NonceLen(c.kind))) else None
  }

  /** How many of the events from `i` up to, not including, `j` accept a nonce. */
  ghost function Count(c: Cipher, p: Params, events: seq<Event>, i: nat, j: nat): (n: nat)
    requires ValidCipher(c) && ValidParams(p) && i <= j <= |events|
  {
    if i == j then 0
    else Count(c, p, events, i, j - 1) + if Accepts(c, p, events[..j - 1], events[j - 1]) == None then 0 else 1
  }

  /** A context that is still collecting its nonce has all that arrived; after that it holds the
      first bytes as nonce. */
  ghost predicate Follows(c: Cipher, st: Receiver, b: bytes)
  {
    if st.init == 0 then st.chunk == b && |b| < NonceLen(c.kind)
    else NonceLen(c.kind) <= |b| && st.nonce == b[..NonceLen(c.kind)]
  }

  ghost predicate Tracks(c: Cipher, sys: System, events: seq<Event>)
  {
    forall id :: Follows(c, Context(sys, id), Arrived(events, id))
  }

  lemma {:induction false} DecryptFollows(c: Cipher, p: Params, hist: seq<bytes>, st: Receiver, b: bytes, data: bytes)
    requires ValidCipher(c) && ValidParams(p) && |st.chunk| <= NonceLen(c.kind) && Follows(c, st, b)
    ensures var o, x := Decrypt(c, p, hist, st, data), Prefix(b + data, NonceLen(c.kind));
            && Follows(c, o.st, b + data)
            && if o.code == Some(OK) && st.init < 2 then !Seen(p, hist, x) && o.hist == Added(p, hist, x)
               else o.hist == hist
  {
    hide Seen, Added, Call;
    var n := NonceLen(c.kind);
    if st.init == 0 {
      var room := n - |b|;
      assert |data| >= room ==> (b + data)[..n] == b + data[..room];
    } else {
      assert (b + data)[..n] == b[..n];
    }
  }

  /** An event adds to the memory exactly the nonce it accepts, and accepts only unseen ones. */
  lemma {:induction false} StepAccepts(c: Cipher, p: Params, before: seq<Event>, e: Event)
    requires ValidCipher(c) && ValidParams(p) && Tracks(c, After(c, p, before), before)
    ensures var h, x := After(c, p, before).hist, Accepts(c, p, before, e);
            && After(c, p, before + [e]).hist == (if x == None then h else Added(p, h, x.value))
            && (x != None ==> !Seen(p, h, x.value))
            && Tracks(c, After(c, p, before + [e]), before + [e])
  {
    hide Seen, Decrypt, OpenPacket, Follows, Added, Fits;
    var sys, all := After(c, p, before), before + [e];
    assert all[..|before|] == before;
    var sys' := After(c, p, all);
    assert sys' == Step(c, p, sys, e);
    hide After;
    match e {
      case TcpRecv(id, data) =>
        assert Arrived(all, id) == Arrived(before, id) + data;
        ContextFits(c, sys, id);
        DecryptFollows(c, p, sys.hist, Context(sys, id), Arrived(before, id), data);
      case UdpRecv(packet) =>
        PacketAccepts(c, p, sys.hist, packet);
    }
    forall id ensures Follows(c, Context(sys', id), Arrived(all, id)) {
      assert Follows(c, Context(sys, id), Arrived(before, id));
    }
  }

  lemma {:induction false} ContextFits(c: Cipher, sys: System, id: nat)
    requires Fits(c, sys)
    ensures |Context(sys, id).chunk| <= NonceLen(c.kind)
  {
  }

  lemma {:induction false} PacketAccepts(c: Cipher, p: Params, hist: seq<bytes>, packet: bytes)
    requires ValidCipher(c) && ValidParams(p)
    ensures var r, x := OpenPacket(c, p, hist, packet), Prefix(packet, NonceLen(c.kind));
            if r.0 == Some(OK) then !Seen(p, hist, x) && r.2 == Added(p, hist, x) else r.2 == hist
  {
    hide Seen, Added, XorIc;
  }

  lemma {:induction false} RunTracks(c: Cipher, p: Params, events: seq<Event>)
    requires ValidCipher(c) && ValidParams(p)
    ensures Tracks(c, After(c, p, events), events)
  {
    hide Step;
    if events != [] {
      var before := events[..|events| - 1];
      RunTracks(c, p, before);
      assert events == before + [events[|events| - 1]];
      hide After, Tracks, Accepts, Seen, Added;
      StepAccepts(c, p, before, events[|events| - 1]);
    }
  }

  /** Between two moments the memory grows by the nonces accepted in between, in their order. */
  lemma {:induction false} Grows(c: Cipher, p: Params, events: seq<Event>, i: nat, j: nat)
    requires ValidCipher(c) && ValidParams(p) && p.ready && i <= j <= |events|
    ensures var h, h' := After(c, p, events[..i]).hist, After(c, p, events[..j]).hist;
            h <= h' && |h'| == |h| + Count(c, p, events, i, j)
    decreases j - i
  {
    hide After, Accepts, Seen, Tracks;
    if i < j {
      Grows(c, p, events, i, j - 1);
      RunTracks(c, p, events[..j - 1]);
      StepAccepts(c, p, events[..j - 1], events[j - 1]);
      assert events[..j] == events[..j - 1] + [events[j - 1]];
    }
  }

  /** In every run, if two events accept one nonce, then more than `entries` events from the first
      one up to the second one accepted a nonce. */
  lemma {:induction false} AtMostOncePerWindow(c: Cipher, p: Params, events: seq<Event>, i: nat, j: nat, x: bytes)
    requires ValidCipher(c) && ValidParams(p) && p.ready && i < j < |events|
    requires Accepts(c, p, events[..i], events[i]) == Some(x) && Accepts(c, p, events[..j], events[j]) == Some(x)
    ensures Count(c, p, events, i, j) > p.entries
  {
    hide After, Accepts, Seen, Tracks, Count;
    var h, h' := After(c, p, events[..i]).hist, After(c, p, events[..j]).hist;
    RunTracks(c, p, events[..i]);
    StepAccepts(c, p, events[..i], events[i]);
    assert events[..i + 1] == events[..i] + [events[i]];
    Grows(c, p, events, i, j);
    Grows(c, p, events, i + 1, j);
    assert h'[|h|] == x;
    RunTracks(c, p, events[..j]);
    StepAccepts(c, p, events[..j], events[j]);
    UnseenIsOld(p, h', |h|, x);
  }

  /** And a nonce that is not in the memory is accepted, on any new connection at any time. */
  lemma {:induction false} FreshAccepted(c: Cipher, p: Params, before: seq<Event>, id: nat, nonce: bytes, d: bytes)
    requires ValidCipher(c) && ValidParams(p) && |nonce| == NonceLen(c.kind) && d != [] && |d| <= Reach(c.kind)
    requires id !in After(c, p, before).contexts && !Seen(p, After(c, p, before).hist, nonce)
    ensures Accepts(c, p, before, TcpRecv(id, nonce + d)) == Some(nonce)
  {
    hide Seen, Decrypt, After, Masked, Reach;
    var e := TcpRecv(id, nonce + d);
    RunTracks(c, p, before);
    assert Follows(c, Context(After(c, p, before), id), Arrived(before, id));
    assert Arrived(before, id) == [];
    assert (before + [e])[..|before|] == before && Arrived(before + [e], id) == [] + (nonce + d);
    FirstEvent(c, p, After(c, p, before).hist, nonce, d);
    assert (nonce + d)[..|nonce|] == nonce && [] + (nonce + d) == nonce + d;
    assert Prefix(nonce + d, NonceLen(c.kind)) == nonce;
    assert Context(After(c, p, before), id) == IDLE;
  }
}
