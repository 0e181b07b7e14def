/** How remoteRecv of `src/local_uv.cpp` cuts what arrives into pieces of the buffer capacity. */
module Slicing {
  import opened Bytes
  import opened Sequences

  const BUF_CAPACITY := 16 * 1024 - 1

  ghost predicate NonEmpty(events: seq<bytes>)
  {
    forall i :: 0 <= i < |events| ==> events[i] != []
  }

  /** The pieces in which remoteRecv feeds one event to the deframer. */
  function Slices(e: bytes): (r: seq<bytes>)
    decreases |e|
  {
    if e == [] then [] else if |e| <= BUF_CAPACITY then [e] else [e[..BUF_CAPACITY]] + Slices(e[BUF_CAPACITY..])
  }

  lemma {:induction false} SlicesCover(e: bytes)
    ensures Flatten(Slices(e)) == e && NonEmpty(Slices(e))
    decreases |e|
  {
    if |e| > BUF_CAPACITY {
      SlicesCover(e[BUF_CAPACITY..]);
      var a, r := e[..BUF_CAPACITY], Slices(e[BUF_CAPACITY..]);
      assert ([a] + r)[1..] == r;
      assert Flatten([a] + r) == a + Flatten(r) == e;
    } else if e != [] {
      assert [e][1..] == [];
      assert Flatten([e]) == e + Flatten([e][1..]) == e;
    }
  }

  function AllSlices(events: seq<bytes>): (r: seq<bytes>)
  {
    if events == [] then [] else Slices(events[0]) + AllSlices(events[1..])
  }

  lemma {:induction false} AllSlicesCover(events: seq<bytes>)
    ensures Flatten(AllSlices(events)) == Flatten(events) && NonEmpty(AllSlices(events))
  {
    if events != [] {
      SlicesCover(events[0]);
      AllSlicesCover(events[1..]);
      FlattenSplit(Slices(events[0]), AllSlices(events[1..]));
    }
  }

  lemma {:induction false} AllSlicesSnoc(events: seq<bytes>, e: bytes)
    ensures AllSlices(events + [e]) == AllSlices(events) + Slices(e)
  {
    hide Slices;
    if events == [] {
      assert [e][1..] == [];
      assert AllSlices([e]) == Slices(e) + AllSlices([]);
      assert events + [e] == [e];
    } else {
      AllSlicesSnoc(events[1..], e);
      assert (events + [e])[1..] == events[1..] + [e];
      Associative(Slices(events[0]), AllSlices(events[1..]), Slices(e));
    }
  }

  /** What a slicing loop at offset `i` has not yet passed on. */
  ghost function Left(event: bytes, i: nat): (r: bytes)
  {
    if i < |event| then event[i..] else []
  }

  lemma {:induction false} LeftBounds(event: bytes)
    ensures Left(event, 0) == event
    ensures forall i: nat :: i >= |event| ==> Left(event, i) == []
  {
  }

  lemma {:induction false} LeftNext(event: bytes, i: nat, len: nat)
    requires i + len <= |event| && len > 0 && (len == BUF_CAPACITY || (len < BUF_CAPACITY && i + len == |event|))
    ensures Left(event, i) != [] && len <= |Left(event, i)|
    ensures Left(event, i)[0..len] == event[i..i + len]
    ensures Left(event, i)[len..] == Left(event, i + BUF_CAPACITY)
  {
    assert event[i..] == event[i..|event|];
    SubSlice(event, i, |event|, 0, len);
    if len == BUF_CAPACITY && i + len < |event| {
      assert event[i..][len..] == event[i + len..];
    }
  }

  lemma {:induction false} SliceOff(e: bytes)
    ensures Slices([]) == []
    ensures e != [] ==>
              var n := if |e| > BUF_CAPACITY then BUF_CAPACITY else |e|;
              Slices(e) != [] && Slices(e)[0] == e[0..n] && Slices(e)[1..] == Slices(e[n..])
  {
  }

  /** How many of `n` bytes events of these sizes carry. */
  function Carried(sizes: seq<nat>, n: nat): (m: nat)
    ensures m <= n
  {
    if sizes == [] then 0
    else
      var k := if sizes[0] < n then sizes[0] else n;
      k + Carried(sizes[1..], n - k)
  }

  lemma {:induction false} Grown(events: seq<bytes>, event: bytes, wire: bytes, n: nat)
    requires n + |event| <= |wire| && Flatten(events) == wire[..n] && event == wire[n..n + |event|]
    ensures Flatten(events + [event]) == wire[..n + |event|] && wire[..n + |event|] <= wire
  {
    FlattenLast(events + [event]);
    assert (events + [event])[..|events|] == events;
  }
}
