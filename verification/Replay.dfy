/** The replay memory as used by the whole process: any interleaving of TCP sessions in both
    directions and UDP packets over one shared memory. */
module Replay {
  import opened Wrappers
  import opened Bytes
  import opened Sequences
  import opened Slicing
  import opened PingPong
  import opened Aead
  import opened AeadStream

  /** Who put a salt into the memory. */
  datatype Use = Sent | Accepted

  /** What can happen: a connection's receiving context is created or gets bytes, a context
      sends its first bytes, a UDP packet arrives or is sent. Salts of sent data are
      chosen by the environment. */
  datatype Event = Open(id: nat) | TcpRecv(id: nat, data: bytes) | TcpSend(salt: bytes)
                 | UdpRecv(packet: bytes) | UdpSend(salt: bytes)

  /** `uses[i]` says who added `hist[i]`. */
  datatype System = System(contexts: map<nat, Decoder>, hist: seq<bytes>, uses: seq<Use>)

  const START := System(map[], [], [])

  ghost function Record(sys: System, hist: seq<bytes>, use: Use): (r: System)
  {
    sys.(hist := hist, uses := if |hist| > |sys.hist| then sys.uses + [use] else sys.uses)
  }

  ghost function Step(s: Suite, p: Params, sys: System, e: Event): (r: System)
    requires ValidSuite(s) && ValidParams(p)
  {
    match e
    case Open(id) => sys.(contexts := sys.contexts[id := FRESH])
    case TcpRecv(id, data) =>
      if id !in sys.contexts then sys
      else
        var d := Decrypt(s, p, sys.hist, sys.contexts[id], data);
        var next := Record(sys, d.hist, Accepted);
        if d.result.Error? then next.(contexts := next.contexts - {id})
        else next.(contexts := next.contexts[id := d.st])
    case TcpSend(salt) => Record(sys, Added(p, sys.hist, salt), Sent)
    case UdpRecv(packet) => Record(sys, OpenPacket(s, p, sys.hist, packet).1, Accepted)
    case UdpSend(salt) => Record(sys, Added(p, sys.hist, salt), Sent)
  }

  ghost function After(s: Suite, p: Params, events: seq<Event>): (r: System)
    requires ValidSuite(s) && ValidParams(p)
  {
    if events == [] then START else Step(s, p, After(s, p, events[..|events| - 1]), events[|events| - 1])
  }

  /** Every accepted salt was unseen when it was added. */
  ghost predicate Checked(p: Params, sys: System)
    requires ValidParams(p)
  {
    && |sys.uses| == |sys.hist| && (!p.ready ==> sys.hist == [])
    && forall j :: 0 <= j < |sys.hist| && sys.uses[j] == Accepted ==> !Seen(p, sys.hist[..j], sys.hist[j])
  }

  /** The memory either stays or grows by one salt, which an accepting step has checked. */
  lemma {:induction false} DecryptAdds(s: Suite, p: Params, hist: seq<bytes>, st: Decoder, data: bytes)
    requires ValidSuite(s) && ValidParams(p)
    ensures var h := Decrypt(s, p, hist, st, data).hist;
            h == hist || (p.ready && |h| == |hist| + 1 && h[..|hist|] == hist && !Seen(p, hist, h[|hist|]))
  {
    hide ValidSuite, Drain, Seen;
  }

  lemma {:induction false} PacketAdds(s: Suite, p: Params, hist: seq<bytes>, packet: bytes)
    requires ValidSuite(s) && ValidParams(p)
    ensures var h := OpenPacket(s, p, hist, packet).1;
            h == hist || (p.ready && |h| == |hist| + 1 && h[..|hist|] == hist && !Seen(p, hist, h[|hist|]))
  {
    hide ValidSuite, Seen;
  }

  lemma {:induction false} RecordChecked(p: Params, sys: System, hist: seq<bytes>, use: Use)
    requires ValidParams(p) && Checked(p, sys)
    requires hist == sys.hist || (p.ready && |hist| == |sys.hist| + 1 && hist[..|sys.hist|] == sys.hist)
    requires hist != sys.hist && use == Accepted ==> !Seen(p, sys.hist, hist[|sys.hist|])
    ensures Checked(p, Record(sys, hist, use))
  {
    hide Seen;
    var r, n := Record(sys, hist, use), |sys.hist|;
    if hist != sys.hist {
      forall j | 0 <= j < |r.hist| && r.uses[j] == Accepted ensures !Seen(p, r.hist[..j], r.hist[j]) {
        if j < n {
          assert r.hist[..j] == hist[..n][..j] == sys.hist[..j];
          assert r.hist[j] == hist[..n][j] == sys.hist[j];
        } else {
          assert r.hist[..j] == sys.hist;
        }
      }
    }
  }

  lemma {:induction false} StepChecked(s: Suite, p: Params, sys: System, e: Event)
    requires ValidSuite(s) && ValidParams(p) && Checked(p, sys)
    ensures Checked(p, Step(s, p, sys, e))
  {
    hide ValidSuite, Seen, Decrypt, OpenPacket, Checked, Record;
    match e
    case Open(_) => OnlyMemory(p, sys, sys.contexts[e.id := FRESH]);
    case TcpRecv(id, data) =>
      if id in sys.contexts {
        var d := Decrypt(s, p, sys.hist, sys.contexts[id], data);
        DecryptAdds(s, p, sys.hist, sys.contexts[id], data);
        RecordChecked(p, sys, d.hist, Accepted);
        var next := Record(sys, d.hist, Accepted);
        OnlyMemory(p, next, next.contexts - {id});
        OnlyMemory(p, next, next.contexts[id := d.st]);
      }
    case TcpSend(salt) => RecordChecked(p, sys, Added(p, sys.hist, salt), Sent);
    case UdpRecv(packet) =>
      PacketAdds(s, p, sys.hist, packet);
      RecordChecked(p, sys, OpenPacket(s, p, sys.hist, packet).1, Accepted);
    case UdpSend(salt) => RecordChecked(p, sys, Added(p, sys.hist, salt), Sent);
  }

  lemma {:induction false} OnlyMemory(p: Params, sys: System, contexts: map<nat, Decoder>)
    requires ValidParams(p) && Checked(p, sys)
    ensures Checked(p, sys.(contexts := contexts))
  {
  }

  lemma {:induction false} AfterChecked(s: Suite, p: Params, events: seq<Event>)
    requires ValidSuite(s) && ValidParams(p)
    ensures Checked(p, After(s, p, events))
  {
    hide ValidSuite, Seen, Step;
    if events != [] {
      AfterChecked(s, p, events[..|events| - 1]);
      StepChecked(s, p, After(s, p, events[..|events| - 1]), events[|events| - 1]);
    }
  }

  // ---------- what is accepted and sent ----------

  /** The bytes that have arrived on a connection since it was opened. */
  function Arrived(events: seq<Event>, id: nat): (b: bytes)
  {
    if events == [] then []
    else
      var before, e := Arrived(events[..|events| - 1], id), events[|events| - 1];
      match e
      case Open(i) => if i == id then [] else before
      case TcpRecv(i, data) => if i == id then before + data else before
      case _ => before
  }

  /** The salt an event accepts, seen from outside: the call succeeds and takes its context past the
      salt, which is the first bytes of the connection, or the packet is opened. */
  ghost function Accepts(s: Suite, p: Params, before: seq<Event>, e: Event): (x: Option<bytes>)
    requires ValidSuite(s) && ValidParams(p)
  {
    var sys := After(s, p, before);
    match e
    case TcpRecv(id, data) =>
      if id !in sys.contexts then None
      else
        var d := Decrypt(s, p, sys.hist, sys.contexts[id], data);
        if d.result.Ok? && sys.contexts[id].init < 2 && d.st.init == 2
        then Some(Prefix(Arrived(before + [e], id), s.saltLen)) else None
    case UdpRecv(packet) =>
      if OpenPacket(s, p, sys.hist, packet).0.Ok? then Some(Prefix(packet, s.saltLen)) else None
    case _ => None
  }

  /** The salt an event accepts or sends. */
  ghost function Uses(s: Suite, p: Params, before: seq<Event>, e: Event): (x: Option<bytes>)
    requires ValidSuite(s) && ValidParams(p)
  {
    match e
    case TcpSend(salt) => Some(salt)
    case UdpSend(salt) => Some(salt)
    case _ => Accepts(s, p, before, e)
  }

  /** How many of the events from `i` up to, not including, `j` accept or send a salt. */
  ghost function Count(s: Suite, p: Params, events: seq<Event>, i: nat, j: nat): (n: nat)
    requires ValidSuite(s) && ValidParams(p) && i <= j <= |events|
  {
    if i == j then 0
    else Count(s, p, events, i, j - 1) + if Uses(s, p, events[..j - 1], events[j - 1]) == None then 0 else 1
  }

  /** A context that has not read its salt has buffered all that arrived; after that it holds the
      first bytes as salt. */
  ghost predicate Follows(s: Suite, st: Decoder, b: bytes)
  {
    if st.init == 0 then st.chunk == b else s.saltLen <= |b| && st.salt == b[..s.saltLen]
  }

  ghost predicate Tracks(s: Suite, sys: System, events: seq<Event>)
  {
    forall id :: id in sys.contexts ==> Follows(s, sys.contexts[id], Arrived(events, id))
  }

  lemma {:induction false} DecryptFollows(s: Suite, p: Params, hist: seq<bytes>, st: Decoder, b: bytes, data: bytes)
    requires ValidSuite(s) && ValidParams(p) && Follows(s, st, b)
    ensures var d, x := Decrypt(s, p, hist, st, data), Prefix(b + data, s.saltLen);
            && (!d.result.Error? ==> Follows(s, d.st, b + data))
            && if d.result.Ok? && st.init < 2 && d.st.init == 2
               then !Seen(p, hist, x) && d.hist == Added(p, hist, x)
               else d.hist == hist
  {
    hide ValidSuite, Drain, Seen, Added;
    assert s.saltLen <= |b| ==> (b + data)[..s.saltLen] == b[..s.saltLen];
  }

  /** An event adds to the memory exactly the salt it accepts or sends, and accepts only unseen ones. */
  lemma {:induction false} StepUses(s: Suite, p: Params, before: seq<Event>, e: Event)
    requires ValidSuite(s) && ValidParams(p) && Tracks(s, After(s, p, before), before)
    ensures var h, x := After(s, p, before).hist, Uses(s, p, before, e);
            && After(s, p, before + [e]).hist == (if x == None then h else Added(p, h, x.value))
            && (Accepts(s, p, before, e) != None ==> !Seen(p, h, Accepts(s, p, before, e).value))
            && Tracks(s, After(s, p, before + [e]), before + [e])
  {
    hide ValidSuite, Seen, Decrypt, OpenPacket, Follows, Added;
    var sys, all := After(s, p, before), before + [e];
    assert all[..|before|] == before;
    match e
    case Open(id) => FreshFollows(s);
    case TcpRecv(id, data) =>
      if id in sys.contexts {
        DecryptFollows(s, p, sys.hist, sys.contexts[id], Arrived(before, id), data);
      }
    case UdpRecv(packet) => PacketUses(s, p, sys.hist, packet);
    case TcpSend(_) =>
    case UdpSend(_) =>
  }

  lemma {:induction false} FreshFollows(s: Suite)
    ensures Follows(s, FRESH, [])
  {
  }

  lemma {:induction false} PacketUses(s: Suite, p: Params, hist: seq<bytes>, packet: bytes)
    requires ValidSuite(s) && ValidParams(p)
    ensures var r, x := OpenPacket(s, p, hist, packet), Prefix(packet, s.saltLen);
            if r.0.Ok? then !Seen(p, hist, x) && r.1 == Added(p, hist, x) else r.1 == hist
  {
    hide ValidSuite, Seen, Added;
  }

  lemma {:induction false} RunTracks(s: Suite, p: Params, events: seq<Event>)
    requires ValidSuite(s) && ValidParams(p)
    ensures Tracks(s, After(s, p, events), events)
  {
    hide ValidSuite, Step;
    if events != [] {
      var before := events[..|events| - 1];
      RunTracks(s, p, before);
      assert events == before + [events[|events| - 1]];
      hide After, Tracks, Uses, Accepts, Seen, Added;
      StepUses(s, p, before, events[|events| - 1]);
    }
  }

  /** Between two moments the memory grows by the salts used in between, in their order. */
  lemma {:induction false} Grows(s: Suite, p: Params, events: seq<Event>, i: nat, j: nat)
    requires ValidSuite(s) && ValidParams(p) && p.ready && i <= j <= |events|
    ensures var h, h' := After(s, p, events[..i]).hist, After(s, p, events[..j]).hist;
            h <= h' && |h'| == |h| + Count(s, p, events, i, j)
    decreases j - i
  {
    hide ValidSuite, After, Uses, Accepts, Seen, Tracks;
    if i < j {
      Grows(s, p, events, i, j - 1);
      RunTracks(s, p, events[..j - 1]);
      StepUses(s, p, events[..j - 1], events[j - 1]);
      assert events[..j] == events[..j - 1] + [events[j - 1]];
    }
  }

  /** In every run, if an event accepts a salt that an earlier event accepted or sent, then more than
      `entries` events from the earlier one up to this one accepted or sent a salt. */
  lemma {:induction false} AtMostOncePerWindow(s: Suite, p: Params, events: seq<Event>, i: nat, j: nat, x: bytes)
    requires ValidSuite(s) && ValidParams(p) && p.ready && i < j < |events|
    requires Uses(s, p, events[..i], events[i]) == Some(x) && Accepts(s, p, events[..j], events[j]) == Some(x)
    ensures Count(s, p, events, i, j) > p.entries
  {
    hide ValidSuite, After, Uses, Accepts, Seen, Tracks, Count;
    var h, h' := After(s, p, events[..i]).hist, After(s, p, events[..j]).hist;
    RunTracks(s, p, events[..i]);
    StepUses(s, p, events[..i], events[i]);
    assert events[..i + 1] == events[..i] + [events[i]];
    Grows(s, p, events, i, j);
    Grows(s, p, events, i + 1, j);
    assert h'[|h|] == x;
    RunTracks(s, p, events[..j]);
    StepUses(s, p, events[..j], events[j]);
    UnseenIsOld(p, h', |h|, x);
  }

  /** And a salt that is not in the memory is accepted, on any fresh connection at any time. */
  lemma {:induction false} FreshAccepted(s: Suite, p: Params, before: seq<Event>, id: nat, salt: bytes, ps: seq<bytes>)
    requires ValidSuite(s) && ValidParams(p) && |salt| == s.saltLen && Sendable(ps) && ps != []
    requires !Seen(p, After(s, p, before).hist, salt)
    ensures Accepts(s, p, before + [Open(id)], TcpRecv(id, Wire(s, salt, ps))) == Some(salt)
  {
    hide ValidSuite, Seen, After, Decrypt, Arrived, Wire;
    var w, now := Wire(s, salt, ps), before + [Open(id)];
    JustOpened(s, p, before, id, w);
    WholeAccepted(s, p, After(s, p, before).hist, salt, ps);
  }

  lemma {:induction false} JustOpened(s: Suite, p: Params, before: seq<Event>, id: nat, w: bytes)
    requires ValidSuite(s) && ValidParams(p)
    ensures var now := before + [Open(id)];
            && id in After(s, p, now).contexts && After(s, p, now).contexts[id] == FRESH
            && After(s, p, now).hist == After(s, p, before).hist
            && Arrived(now + [TcpRecv(id, w)], id) == w
  {
    hide ValidSuite, Decrypt;
    var now := before + [Open(id)];
    assert now[..|before|] == before && (now + [TcpRecv(id, w)])[..|now|] == now;
    assert Arrived(now, id) == [] && [] + w == w;
  }

  /** A whole stream in one call. */
  lemma {:induction false} WholeAccepted(s: Suite, p: Params, hist: seq<bytes>, salt: bytes, ps: seq<bytes>)
    requires ValidSuite(s) && ValidParams(p) && |salt| == s.saltLen && Sendable(ps) && ps != []
    requires !Seen(p, hist, salt)
    ensures var w, d := Wire(s, salt, ps), Decrypt(s, p, hist, FRESH, Wire(s, salt, ps));
            d.result.Ok? && d.st.init == 2 && Prefix(w, s.saltLen) == salt
  {
    hide ValidSuite, Seen, Decrypt, Honest, Received, Body, Flatten;
    var w := Wire(s, salt, ps);
    StreamStart(s, salt, ps);
    StreamEnd(s, salt, ps);
    LongerThanNothing(s, salt, ps);
    assert w == Stream(s, salt, ps) && w[0..|w|] == w && w[..s.saltLen] == salt;
    EventHonest(s, p, hist, salt, ps, FRESH, 0, w);
    HonestAccepted(s, salt, ps, Decrypt(s, p, hist, FRESH, w).st, |w|);
    assert ps[0..|ps|] == ps;
    NotAllEmpty(ps);
  }

  lemma {:induction false} LongerThanNothing(s: Suite, salt: bytes, ps: seq<bytes>)
    requires ValidSuite(s) && Sendable(ps) && ps != []
    ensures Wire(s, salt, ps) != []
  {
    BodyPrefix(s, s.derive(salt), 0, ps);
  }

  lemma {:induction false} NotAllEmpty(ps: seq<bytes>)
    requires Sendable(ps) && ps != []
    ensures Flatten(ps) != []
  {
  }

  // ---------- a replayed session ----------

  /** Once a salt is seen, no cut of a stream with that salt delivers anything, and the
      stream fails as soon as a byte follows the salt. */
  lemma {:induction false} SeenRejected(s: Suite, p: Params, hist: seq<bytes>, salt: bytes, ps: seq<bytes>,
                                        st: Decoder, n: nat, events: seq<bytes>)
    requires ValidSuite(s) && ValidParams(p) && Sendable(ps) && Seen(p, hist, salt)
    requires Honest(s, salt, ps, st, n) && n <= s.saltLen && NonEmpty(events)
    requires n + |Flatten(events)| <= |Stream(s, salt, ps)|
    requires Flatten(events) == Stream(s, salt, ps)[n..n + |Flatten(events)|]
    ensures var r := Run(s, p, hist, st, events);
            r.out == [] && r.hist == hist && (r.ok <==> n + |Flatten(events)| <= s.saltLen)
    decreases |events|
  {
    hide ValidSuite, Seen, Honest, Received, Run, Flatten, Deliver, Stream;
    RunUnfold(s, p, hist, st, events);
    if events != [] {
      var e, w := events[0], Stream(s, salt, ps);
      CutFirst(events, w, n);
      HonestBuffer(s, salt, ps, st, n, e);
      if n + |e| <= s.saltLen {
        EventSalt(s, salt, ps, st, n, e);
        SeenRejected(s, p, hist, salt, ps, st.(chunk := st.chunk + e), n + |e|, events[1..]);
      }
    }
  }

  lemma {:induction false} HonestBuffer(s: Suite, salt: bytes, ps: seq<bytes>, st: Decoder, n: nat, e: bytes)
    requires ValidSuite(s) && Sendable(ps) && Honest(s, salt, ps, st, n) && n <= s.saltLen
    requires n + |e| <= |Stream(s, salt, ps)| && e == Stream(s, salt, ps)[n..n + |e|]
    ensures st.init == 0 && |st.chunk + e| == n + |e|
    ensures n + |e| > s.saltLen ==> (st.chunk + e)[..s.saltLen] == salt
  {
    hide ValidSuite, Body;
    assert st.chunk + e == (salt + Body(s, s.derive(salt), 0, ps))[..n + |e|];
  }

  /** A session that delivered anything cannot be replayed: fed again right after, in any
      cut, it delivers nothing and fails once a byte follows the salt. Without a working
      memory the replay is accepted like the original. */
  lemma {:induction false} ReplayedSession(s: Suite, p: Params, hist: seq<bytes>, salt: bytes, writes: seq<bytes>,
                                           first: seq<bytes>, again: seq<bytes>)
    requires ValidSuite(s) && ValidParams(p) && |salt| == s.saltLen && !Seen(p, hist, salt)
    requires Writable(writes) && Sendable(Payloads(writes))
    requires Flatten(first) <= Wire(s, salt, Payloads(writes)) && Flatten(again) <= Wire(s, salt, Payloads(writes))
    requires Run(s, p, hist, FRESH, AllSlices(first)).out != []
    ensures var hist' := Run(s, p, hist, FRESH, AllSlices(first)).hist;
            var r, ps := Run(s, p, hist', FRESH, AllSlices(again)), Payloads(writes);
            if p.ready then r.out == [] && (r.ok <==> |Flatten(again)| <= s.saltLen)
            else r.ok && r.out == Flatten(ps[..Received(s, ps, |Flatten(again)|)])
  {
    hide ValidSuite, Seen, Run, Received;
    Session(s, p, hist, salt, writes, first);
    var hist', ps := Added(p, hist, salt), Payloads(writes);
    if p.ready {
      JustAdded(p, hist, salt);
      AllSlicesCover(again);
      StreamStart(s, salt, ps);
      var w, n := Stream(s, salt, ps), |Flatten(again)|;
      assert Wire(s, salt, ps) <= w;
      assert Flatten(again) == w[0..n];
      SeenRejected(s, p, hist', salt, ps, FRESH, 0, AllSlices(again));
    } else {
      NeverSeen(p, hist', salt);
      Session(s, p, hist', salt, writes, again);
    }
  }

  lemma {:induction false} JustAdded(p: Params, hist: seq<bytes>, e: bytes)
    requires ValidParams(p) && p.ready
    ensures Seen(p, hist + [e], e)
  {
    RecentSeen(p, hist + [e], |hist|);
  }

  lemma {:induction false} NeverSeen(p: Params, hist: seq<bytes>, e: bytes)
    requires ValidParams(p) && !p.ready
    ensures !Seen(p, hist, e)
  {
  }
}
