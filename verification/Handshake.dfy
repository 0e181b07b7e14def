/** The SOCKS5 request handlers of `src/local_uv.cpp` with the buffer of `src/Buffer.cpp`: what
    they do does not depend on how the request bytes arrive. */
module Handshake {
  import opened Arithmetic
  import opened Wrappers
  import opened Bytes
  import opened Sequences
  import opened Buffers
  import opened Socks5

  // ---------- the handlers as functions ----------

  const CONNECT: byte := 1
  const ASSOCIATE: byte := 3

  /** Waiting for a first whole request head, waiting for the rest of the address, or done; a
      done state listens to no further request bytes. */
  datatype State = Request(buf: bytes) | Reading(buf: bytes)
                 | Connecting(buf: bytes, addr: Address) | Associated(buf: bytes) | Closed(buf: bytes)

  /** The parse of the buffered request after VER, CMD and RSV. */
  function TryConnect(w: bytes): (st: State)
    requires |w| >= 3
  {
    var a := Parse(w[3..]);
    if a.Some? then Connecting(w[3..], a.value) else Reading(w)
  }

  function OnRequest(buf: bytes, e: bytes): (st: State)
  {
    if |buf| + |e| < 5 then Request(buf + e)
    else
      var cmd := if |buf| == 0 then e[1] else if |buf| == 1 then e[0] else buf[1];
      if cmd == CONNECT then TryConnect(buf + e)
      else if cmd == ASSOCIATE then Associated(buf + e)
      else Closed(buf + e)
  }

  function Step(st: State, e: bytes): (r: State)
    requires st.Reading? ==> |st.buf| >= 5
    ensures r.Reading? ==> |r.buf| >= 5
  {
    match st
    case Request(buf) => OnRequest(buf, e)
    case Reading(buf) => TryConnect(buf + e)
    case _ => st
  }

  function Run(events: seq<bytes>): (st: State)
    ensures st.Reading? ==> |st.buf| >= 5
  {
    if events == [] then Request([]) else Step(Run(events[..|events| - 1]), events[|events| - 1])
  }

  // ---------- whole requests ----------

  /** What the request bytes received so far ask for, however they arrived. */
  ghost predicate Answers(w: bytes, st: State)
  {
    if |w| < 5 then st == Request(w)
    else if w[1] == CONNECT then
      match Parse(w[3..])
      case None => st == Reading(w)
      case Some(a) => st.Connecting? && st.addr == a && st.buf <= w[3..] && Parse(st.buf) == Some(a)
    else if w[1] == ASSOCIATE then st.Associated?
    else st.Closed?
  }

  /** For every split of the request bytes: the command is byte 1 of the concatenation, and the
      connection goes to the address the bytes name, as soon as they name one. */
  lemma {:induction false} AnySplit(events: seq<bytes>)
    ensures Answers(Flatten(events), Run(events))
  {
    if events != [] {
      var before, e := events[..|events| - 1], events[|events| - 1];
      AnySplit(before);
      FlattenLast(events);
      StepAnswers(Flatten(before), Run(before), e);
      hide Answers, Step, Flatten;
    }
  }

  lemma {:induction false} StepAnswers(w: bytes, st: State, e: bytes)
    requires Answers(w, st) && (st.Reading? ==> |st.buf| >= 5)
    ensures Answers(w + e, Step(st, e))
  {
    hide Parse;
    var w' := w + e;
    if |w| >= 5 {
      assert w[3..] <= w'[3..] && w'[1] == w[1];
      if Parse(w[3..]).Some? {
        ParseStable(w[3..], w'[3..]);
      }
    }
  }

  /** A request that names an address, however it arrives and whatever follows: command 1 connects to
      that address, command 3 is answered with an association, any other closes the connection. */
  lemma {:induction false} Requests(events: seq<bytes>, ver: byte, cmd: byte, rsv: byte, a: Address, more: bytes)
    requires WellFormed(a) && Flatten(events) == [ver, cmd, rsv] + Header(a) + more
    ensures var st := Run(events);
            if cmd == 0x01 then st.Connecting? && st.addr == a
            else if cmd == 0x03 then st.Associated?
            else st.Closed?
  {
    var w := Flatten(events);
    AnySplit(events);
    HeaderLength(a);
    hide Run, Flatten, Header, Parse;
    assert w[3..] == Header(a) + more && w[1] == cmd;
    ParseIffHeader(w[3..], a);
  }

  lemma {:induction false} HeaderLength(a: Address)
    requires WellFormed(a)
    ensures |Header(a)| >= 4
  {
  }

  /** Hence any two splits of the same bytes agree on the outcome and the address. */
  lemma {:induction false} SplitsAgree(a: seq<bytes>, b: seq<bytes>)
    requires Flatten(a) == Flatten(b)
    ensures Run(a).Connecting? <==> Run(b).Connecting?
    ensures Run(a).Connecting? ==> Run(a).addr == Run(b).addr
    ensures Run(a).Associated? == Run(b).Associated? && Run(a).Closed? == Run(b).Closed?
    ensures Run(a).Request? || Run(a).Reading? ==> Run(a) == Run(b)
  {
    AnySplit(a);
    AnySplit(b);
    hide Run, Flatten, Parse;
  }

  /** The cumulative prefix after `k` events names an address. */
  predicate Named(events: seq<bytes>, k: nat)
    requires k <= |events|
  {
    |Flatten(events[..k])| >= 3 && Parse(Flatten(events[..k])[3..]).Some?
  }

  /** CONNECT starts with the first event that completes the address; localBuf then holds the
      bytes received up to that event from ATYP on, for the relay to forward. */
  lemma {:induction false} ConnectsAtFirst(events: seq<bytes>) returns (k: nat)
    requires Run(events).Connecting?
    ensures 0 < k <= |events| && Named(events, k) && (forall j :: 0 <= j < k ==> !Named(events, j))
    ensures Run(events).buf == Flatten(events[..k])[3..]
  {
    hide Named, Flatten, Parse;
    k := |events|;
    var before, e := events[..k - 1], events[k - 1];
    assert events[..k] == events;
    if Run(before).Connecting? {
      k := ConnectsAtFirst(before);
      assert before[..k] == events[..k];
      forall j | 0 <= j <= k ensures Named(before, j) == Named(events, j) {
        SamePrefix(before, events, j);
      }
    } else {
      Arrives(before, e);
      assert events == before + [e];
      forall j | 0 <= j < k ensures !Named(events, j) {
        NotYet(events, j);
      }
    }
  }

  lemma {:induction false} SamePrefix(a: seq<bytes>, b: seq<bytes>, j: nat)
    requires a <= b && j <= |a|
    ensures Named(a, j) == Named(b, j)
  {
    assert a[..j] == b[..j];
  }

  /** The event that makes the handlers connect completes the address. */
  lemma {:induction false} Arrives(before: seq<bytes>, e: bytes)
    requires !Run(before).Connecting? && Run(before + [e]).Connecting?
    ensures Named(before + [e], |before| + 1)
    ensures |Flatten(before + [e])| >= 3 && Run(before + [e]).buf == Flatten(before + [e])[3..]
  {
    var all := before + [e];
    assert all[..|before|] == before && all[..|all|] == all;
    FlattenLast(all);
    AnySplit(before);
    hide Flatten, Run, Parse;
    assert Run(all) == Step(Run(before), e) by { Unfold(before, e); }
  }

  lemma {:induction false} Unfold(before: seq<bytes>, e: bytes)
    ensures Run(before + [e]) == Step(Run(before), e)
  {
    assert (before + [e])[..|before|] == before;
  }

  /** While the handlers have not connected, no prefix names an address. */
  lemma {:induction false} NotYet(events: seq<bytes>, j: nat)
    requires j < |events| && !Run(events[..|events| - 1]).Connecting? && Run(events).Connecting?
    ensures !Named(events, j)
  {
    var w, before := Flatten(events[..j]), events[..|events| - 1];
    Prefixes(before, j);
    assert before[..j] == events[..j];
    AnySplit(before);
    AnySplit(events);
    Prefixes(events, |before|);
    hide Flatten, Run, Parse;
    var all, v := Flatten(events), Flatten(before);
    if Named(events, j) {
      ParseShort(w[3..]);
      assert w[3..] <= v[3..] && v[1] == all[1];
      ParseStable(w[3..], v[3..]);
    }
  }

  lemma {:induction false} ParseShort(b: bytes)
    requires Parse(b).Some?
    ensures |b| >= 4
  {
  }

  lemma {:induction false} Prefixes(events: seq<bytes>, j: nat)
    requires j <= |events|
    ensures Flatten(events[..j]) <= Flatten(events)
  {
    assert events == events[..j] + events[j..];
    FlattenSplit(events[..j], events[j..]);
  }

  // ---------- the buffer ----------

  const DEFAULT_CAPACITY := 16 * 1024 - 1

  /** The owned buffer of src/Buffer.cpp. */
  class LocalBuffer {
    var b: Buf

    ghost predicate Valid()
      reads this
    {
      ValidBuf(b) && |b.mem| >= DEFAULT_CAPACITY
    }

    ghost function Contents(): (d: bytes)
      requires Valid()
      reads this
      ensures |d| == b.len
    {
      Data(b)
    }

    constructor ()
      ensures Valid() && Contents() == []
    {
      b := Buf(seq(DEFAULT_CAPACITY, _ => 0), 0);
    }

    /** Buffer::bufRealloc, src/Buffer.cpp:72-79: the size may also shrink. */
    method Realloc(size: nat)
      requires Valid()
      modifies this
      ensures |b.mem| == size && ValidBuf(b)
      ensures b.len == if size < old(b.len) then size else old(b.len)
      ensures Data(b) == old(Contents())[..b.len]
    {
      if |b.mem| == size {
        return;
      }
      var mem := if size < |b.mem| then b.mem[..size] else b.mem + seq(size - |b.mem|, _ => 0);
      b := Buf(mem, if size < b.len then size else b.len);
    }

    /** Buffer::copy of an event, src/Buffer.cpp:88-100. */
    method Copy(event: bytes)
      requires Valid()
      modifies this
      ensures Valid() && Contents() == old(Contents()) + event
    {
      if |event| == 0 {
        return;
      }
      if |event| + b.len > |b.mem| {
        Realloc((b.len + |event|) * 2);
      }
      assert Data(b) == old(Contents());
      WriteAppends(b, b.len, event);
      b := Write(b, b.len, event).(len := b.len + |event|);
    }

    /** Buffer::copyFromBegin, src/Buffer.cpp:116-129. */
    method CopyFromBegin(event: bytes, length: int)
      requires Valid() && -1 <= length <= |event|
      modifies this
      ensures Valid() && Contents() == if length == -1 then event else event[..length]
    {
      var size := if length == -1 then |event| else length;
      b := b.(len := 0);
      if size > |b.mem| {
        Realloc(size * 2);
      }
      WriteAppends(b, 0, event[..size]);
      b := Write(b, 0, event[..size]).(len := size);
    }

    /** Buffer::drop, src/Buffer.cpp:64-70. */
    method Drop(size: nat)
      requires Valid()
      modifies this
      ensures Valid() && Contents() == if |old(Contents())| < size then old(Contents()) else old(Contents())[size..]
    {
      if b.len < size {
        return;
      }
      WriteAppends(b, 0, b.mem[size..b.len]);
      b := Write(b, 0, b.mem[size..b.len]).(len := b.len - size);
    }
  }

  // ---------- a client connection ----------

  /** Which listener is registered, or what was started. */
  datatype Phase = OnHead | OnRest | Started(addr: Address) | Replied | Shut

  class Client {
    const localBuf: LocalBuffer
    var phase: Phase

    ghost predicate Valid()
      reads this, localBuf
    {
      localBuf.Valid() && (phase == OnRest ==> |localBuf.Contents()| >= 5)
    }

    ghost function View(): (st: State)
      requires Valid()
      reads this, localBuf
    {
      match phase
      case OnHead => Request(localBuf.Contents())
      case OnRest => Reading(localBuf.Contents())
      case Started(a) => Connecting(localBuf.Contents(), a)
      case Replied => Associated(localBuf.Contents())
      case Shut => Closed(localBuf.Contents())
    }

    constructor ()
      ensures Valid() && View() == Request([]) && fresh(localBuf)
    {
      localBuf := new LocalBuffer();
      phase := OnHead;
    }

    /** The parse of the buffer, src/local_uv.cpp:189-195 and 220-226: at least two bytes are
        passed on. */
    method Connect()
      requires localBuf.Valid() && |localBuf.Contents()| >= 5
      modifies this`phase, localBuf
      ensures Valid() && View() == TryConnect(old(localBuf.Contents()))
    {
      hide Parse;
      ghost var w := localBuf.Contents();
      var rest := localBuf.b.mem[3..localBuf.b.len];
      assert rest == w[3..];
      assert |rest| >= 2;
      var ok, addr, _ := AddressParse(rest, 0);
      if ok {
        localBuf.Drop(3);
        phase := Started(addr);
      } else {
        phase := OnRest;
      }
    }

    /** readAllAddress, src/local_uv.cpp:183-196. */
    method ReadAllAddress(event: bytes)
      requires Valid() && phase == OnRest
      modifies this`phase, localBuf
      ensures Valid() && View() == TryConnect(old(localBuf.Contents()) + event)
    {
      hide TryConnect;
      localBuf.Copy(event);
      Connect();
    }

    /** The command byte, from the buffer or the event, src/local_uv.cpp:205-215. */
    method Command(event: bytes) returns (cmd: byte)
      requires Valid() && |localBuf.Contents()| + |event| >= 5
      ensures var buf := localBuf.Contents();
              cmd == if |buf| == 0 then event[1] else if |buf| == 1 then event[0] else buf[1]
    {
      var len := localBuf.b.len;
      Quotient(1, |localBuf.b.mem|, 0, 1);
      cmd := if len == 0 then event[1] else if len == 1 then event[0] else localBuf.b.mem[1 % |localBuf.b.mem|];
    }

    /** handShakeSendCallBack, src/local_uv.cpp:198-241. */
    method HandShakeSend(event: bytes)
      requires Valid() && phase == OnHead
      modifies this`phase, localBuf
      ensures Valid() && View() == OnRequest(old(localBuf.Contents()), event)
    {
      hide TryConnect;
      if localBuf.b.len + |event| >= 5 {
        var cmd := Command(event);
        localBuf.Copy(event);
        if cmd == CONNECT {
          Connect();
        } else if cmd == ASSOCIATE {
          phase := Replied;
        } else {
          phase := Shut;
        }
      } else {
        localBuf.Copy(event);
      }
    }

    /** The registered listener takes the event. */
    method OnData(event: bytes)
      requires Valid()
      modifies this`phase, localBuf
      ensures Valid() && View() == Step(old(View()), event)
    {
      hide TryConnect, OnRequest;
      match phase
      case OnHead => HandShakeSend(event);
      case OnRest => ReadAllAddress(event);
      case _ =>
    }
  }

  /** A connection from its first request byte on: whatever the events, it ends as the bytes ask. */
  method Serve(events: seq<bytes>) returns (client: Client)
    ensures fresh(client) && client.Valid() && client.View() == Run(events)
    ensures Answers(Flatten(events), client.View())
  {
    hide Step;
    client := new Client();
    for i := 0 to |events|
      invariant fresh(client) && fresh(client.localBuf) && client.Valid() && client.View() == Run(events[..i])
    {
      assert events[..i + 1][..i] == events[..i];
      client.OnData(events[i]);
    }
    assert events[..|events|] == events;
    AnySplit(events);
  }
}
