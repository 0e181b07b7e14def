/** The replay memory of `src/ppbloom.c`: two Bloom filters used in turn. Its meaning is a
    sliding window over the history of added elements. */
module PingPong {
  import opened Arithmetic
  import opened Bytes
  import opened Bloom

  /** `entries` adds fill one filter; `ready` says that initialisation succeeded. */
  datatype Params = Params(shape: Shape, entries: int, ready: bool)

  ghost predicate ValidParams(p: Params)
  {
    ValidShape(p.shape) && (p.ready ==> p.entries > 0)
  }

  // ---------- what the filters remember ----------

  /** How many adds the filter in use has taken. */
  function Fill(p: Params, n: nat): (m: nat)
    requires p.entries > 0
    ensures m < p.entries && m <= n
  {
    n % p.entries
  }

  /** Which filter is in use: the parity of the number of batches filled. */
  function Turn(p: Params, n: nat): (c: nat)
    requires p.entries > 0
    ensures c < 2
  {
    n / p.entries % 2
  }

  lemma {:induction false} FillStep(p: Params, n: nat)
    requires p.entries > 0
    ensures Fill(p, n + 1) == if Fill(p, n) + 1 == p.entries then 0 else Fill(p, n) + 1
    ensures Turn(p, n + 1) == if Fill(p, n) + 1 == p.entries then 1 - Turn(p, n) else Turn(p, n)
  {
    var e, q, r := p.entries, n / p.entries, n % p.entries;
    assert n == q * e + r;
    if r + 1 == e {
      Quotient(n + 1, e, q + 1, 0);
    } else {
      Quotient(n + 1, e, q, r + 1);
    }
  }

  /** The adds held by the filter in use. */
  function Current(p: Params, h: seq<bytes>): (s: seq<bytes>)
    requires p.entries > 0
  {
    h[|h| - Fill(p, |h|)..]
  }

  /** The adds held by the other filter: the full batch before those. */
  function Previous(p: Params, h: seq<bytes>): (s: seq<bytes>)
    requires p.entries > 0
  {
    var m := Fill(p, |h|);
    if |h| - m >= p.entries then h[|h| - m - p.entries..|h| - m] else []
  }

  ghost function BitsOf(s: Shape, es: seq<bytes>): (r: set<nat>)
    requires s.bits > 0
  {
    if es == [] then {} else BitsOf(s, es[..|es| - 1]) + Positions(s, es[|es| - 1], s.hashes)
  }

  /** The answer of ppbloom_check after the adds `h`. */
  ghost predicate Seen(p: Params, h: seq<bytes>, e: bytes)
    requires ValidParams(p)
  {
    && p.ready
    && (|| Positions(p.shape, e, p.shape.hashes) <= BitsOf(p.shape, Current(p, h))
        || Positions(p.shape, e, p.shape.hashes) <= BitsOf(p.shape, Previous(p, h)))
  }

  ghost function Added(p: Params, h: seq<bytes>, e: bytes): (h': seq<bytes>)
  {
    if p.ready then h + [e] else h
  }

  lemma {:induction false} BitsOfMember(s: Shape, es: seq<bytes>, i: nat)
    requires s.bits > 0 && i < |es|
    ensures Positions(s, es[i], s.hashes) <= BitsOf(s, es)
  {
    if i < |es| - 1 {
      BitsOfMember(s, es[..|es| - 1], i);
    }
  }

  /** No false negatives: each of the last min(n, entries + n mod entries) adds is seen. */
  lemma {:induction false} RecentSeen(p: Params, h: seq<bytes>, i: nat)
    requires ValidParams(p) && p.ready && i < |h|
    requires |h| - i <= p.entries + Fill(p, |h|)
    ensures Seen(p, h, h[i])
  {
    var m := Fill(p, |h|);
    if i >= |h| - m {
      BitsOfMember(p.shape, Current(p, h), i - (|h| - m));
    } else {
      WholeBatch(p, |h|);
      BitsOfMember(p.shape, Previous(p, h), i - (|h| - m - p.entries));
    }
  }

  /** What lies before the current fill is empty or at least one whole batch. */
  lemma {:induction false} WholeBatch(p: Params, n: nat)
    requires p.entries > 0
    ensures n - Fill(p, n) == 0 || n - Fill(p, n) >= p.entries
  {
    var q := n / p.entries;
    assert n - Fill(p, n) == q * p.entries;
    assert q >= 1 ==> q * p.entries >= p.entries;
  }

  /** Hence an element that is not seen was last added at least `entries` adds ago. */
  lemma {:induction false} UnseenIsOld(p: Params, h: seq<bytes>, i: nat, e: bytes)
    requires ValidParams(p) && p.ready && i < |h| && h[i] == e
    requires !Seen(p, h, e)
    ensures |h| - i > p.entries
  {
    if |h| - i <= p.entries {
      RecentSeen(p, h, i);
    }
  }

  /** One add moves the window by one: it extends the current fill, or completes the batch. */
  lemma {:induction false} AddWindow(p: Params, h: seq<bytes>, e: bytes)
    requires p.entries > 0
    ensures Fill(p, |h|) + 1 < p.entries ==>
              Current(p, h + [e]) == Current(p, h) + [e] && Previous(p, h + [e]) == Previous(p, h)
    ensures Fill(p, |h|) + 1 == p.entries ==>
              Current(p, h + [e]) == [] && Previous(p, h + [e]) == Current(p, h) + [e]
  {
    var n, m := |h|, Fill(p, |h|);
    FillStep(p, n);
    var h' := h + [e];
    if m + 1 < p.entries {
      assert h'[n - m..] == h[n - m..] + [e];
      if n - m >= p.entries {
        assert h'[n - m - p.entries..n - m] == h[n - m - p.entries..n - m];
      }
    } else {
      assert h'[n + 1 - p.entries..n + 1] == h[n - m..] + [e];
    }
  }

  lemma {:induction false} BitsOfSnoc(s: Shape, es: seq<bytes>, e: bytes)
    requires s.bits > 0
    ensures BitsOf(s, es + [e]) == BitsOf(s, es) + Positions(s, e, s.hashes)
  {
    assert (es + [e])[..|es|] == es;
  }

  // ---------- the pair of filters ----------

  /** The static variables of ppbloom.c. */
  class Memory {
    const ping: Filter
    const pong: Filter
    const count: array<nat>
    const entries: int
    var current: nat
    ghost const p: Params
    ghost var hist: seq<bytes>

    ghost function InUse(): (f: Filter)
      reads this
    {
      if current == 0 then ping else pong
    }

    ghost function Other(): (f: Filter)
      reads this
    {
      if current == 0 then pong else ping
    }

    ghost function Repr(): (r: set<object>)
    {
      {this, count, ping.bf, pong.bf}
    }

    ghost predicate Shaped()
      reads this, count, ping, ping.bf, pong, pong.bf
    {
      && ping != pong && ping.bf != pong.bf && count as object !in {ping.bf, pong.bf} && ping.Valid() && pong.Valid()
      && ping.shape == pong.shape == p.shape && ping.ready == pong.ready == p.ready
      && ValidParams(p) && entries == p.entries && count.Length == 2 && current < 2
    }

    /** The counters and both filters are determined by the history. */
    ghost predicate Valid()
      reads this, count, ping, ping.bf, pong, pong.bf
    {
      && Shaped()
      && (p.ready ==>
            && current == Turn(p, |hist|)
            && count[current] == Fill(p, |hist|) && count[1 - current] == 0
            && InUse().Bits() == BitsOf(p.shape, Current(p, hist))
            && Other().Bits() == BitsOf(p.shape, Previous(p, hist)))
    }

    /** ppbloom_init, src/ppbloom.c:39-59. */
    constructor (n: nat, bpe: real, zeroError: bool, hash: Hash)
      ensures Valid() <==> p.ready ==> (n / 2) as real * bpe >= 1.0
      ensures fresh(Repr()) && fresh(ping) && fresh(pong) && hist == []
      ensures p.entries == n / 2 && (p.ready <==> n / 2 >= 1000 && !zeroError)
      ensures p.ready ==> p.shape == Sized(n / 2, bpe, hash)
    {
      hide Sized, BitsOf, BitSet, Fill, Turn, Current, Previous;
      entries := n / 2;
      var first := new Filter(n / 2, bpe, zeroError, hash);
      var second := new Filter(n / 2, bpe, zeroError, hash);
      ping, pong := first, second;
      count := new nat[2](_ => 0);
      current := 0;
      if first.Valid() {
        EmptyBits(first.shape);
      }
      p := Params(first.shape, n / 2, first.ready);
      if first.ready {
        NothingAdded(Params(first.shape, n / 2, true));
      }
      hist := [];
    }

    /** src/ppbloom.c:61-74: 1 seen, 0 not seen, -1 not initialised. */
    method Check(e: bytes) returns (r: int)
      requires Valid()
      modifies ping.bf, pong.bf
      ensures Valid() && hist == old(hist)
      ensures r == if !p.ready then -1 else if Seen(p, hist, e) then 1 else 0
      ensures r == 1 <==> Seen(p, hist, e)
    {
      hide BitsOf, Positions, BitSet, Current, Previous, Turn, Fill;
      r := ping.Check(e);
      assert ping.Bits() == old(ping.Bits()) && pong.Bits() == old(pong.Bits());
      if r != 0 {
        return;
      }
      r := pong.Check(e);
      assert ping.Bits() == old(ping.Bits()) && pong.Bits() == old(pong.Bits());
    }

    /** src/ppbloom.c:76-92. */
    method Add(e: bytes) returns (err: int)
      requires Valid()
      modifies this, count, ping.bf, pong.bf
      ensures Valid() && hist == Added(p, old(hist), e)
      ensures err == if p.ready then 0 else -1
    {
      hide BitsOf, Positions, BitSet, Current, Previous, Fill, Turn;
      var f := if current == 0 then ping else pong;
      ghost var g := Other();
      var r := f.Add(e);
      assert g.Bits() == old(g.Bits());
      if r == -1 {
        return -1;
      }
      FillStep(p, |hist|);
      AddWindow(p, hist, e);
      BitsOfSnoc(p.shape, Current(p, hist), e);
      hist := hist + [e];
      count[current] := count[current] + 1;
      if count[current] >= entries {
        count[current] := 0;
        current := if current == 0 then 1 else 0;
        label full:
        f := if current == 0 then ping else pong;
        f.Reset();
        assert Other().Bits() == old@full(Other().Bits());
        EmptyBits(p.shape);
      }
      return 0;
    }
  }

  lemma {:induction false} BitsOfIff(s: Shape, es: seq<bytes>, x: nat)
    requires s.bits > 0
    ensures x in BitsOf(s, es) <==> exists i :: 0 <= i < |es| && x in Positions(s, es[i], s.hashes)
  {
    hide Positions;
    if es != [] {
      var front, last := es[..|es| - 1], es[|es| - 1];
      BitsOfIff(s, front, x);
      if x in BitsOf(s, front) {
        var i :| 0 <= i < |front| && x in Positions(s, front[i], s.hashes);
        assert es[i] == front[i];
      } else if x in Positions(s, last, s.hashes) {
        assert es[|es| - 1] == last;
      } else {
        forall i | 0 <= i < |es| ensures x !in Positions(s, es[i], s.hashes) {
          assert i < |front| ==> es[i] == front[i];
        }
      }
    }
  }

  /** The bits of the elements added at the moments from `lo` up to, not including, `hi`. */
  ghost predicate Covered(s: Shape, h: seq<bytes>, lo: int, hi: int, x: nat)
    requires s.bits > 0
  {
    exists i :: 0 <= i < |h| && lo <= i < hi && x in Positions(s, h[i], s.hashes)
  }

  lemma {:induction false} SliceCovered(s: Shape, h: seq<bytes>, lo: nat, hi: nat, x: nat)
    requires s.bits > 0 && lo <= hi <= |h|
    ensures x in BitsOf(s, h[lo..hi]) <==> Covered(s, h, lo, hi, x)
  {
    hide Positions, BitsOf;
    var es := h[lo..hi];
    BitsOfIff(s, es, x);
    if x in BitsOf(s, es) {
      var i :| 0 <= i < |es| && x in Positions(s, es[i], s.hashes);
      assert h[lo + i] == es[i];
    }
    if Covered(s, h, lo, hi, x) {
      var i :| 0 <= i < |h| && lo <= i < hi && x in Positions(s, h[i], s.hashes);
      assert es[i - lo] == h[i];
    }
  }

  /** After `n` adds: the counter in use is `n` modulo the batch size, the filter in use is the parity of
      the full batches and holds exactly the bits of the last `n` modulo that size elements, and the
      other one those of the full batch before them. */
  lemma {:induction false} Contents(m: Memory, x: nat)
    requires m.Valid() && m.p.ready
    ensures var n, size := |m.hist|, m.p.entries;
            && size > 0 && m.current == n / size % 2 && m.count[m.current] == n % size
            && (x in m.InUse().Bits() <==> Covered(m.p.shape, m.hist, n - n % size, n, x))
            && (x in m.Other().Bits() <==> Covered(m.p.shape, m.hist, n - n % size - size, n - n % size, x))
  {
    hide BitsOf, Positions, BitSet, Covered;
    var h, n, size, s := m.hist, |m.hist|, m.p.entries, m.p.shape;
    var r := Fill(m.p, n);
    assert Current(m.p, h) == h[n - r..n];
    SliceCovered(s, h, n - r, n, x);
    WholeBatch(m.p, n);
    if n - r >= size {
      SliceCovered(s, h, n - r - size, n - r, x);
    } else {
      EmptyBits(s);
      NoneCovered(s, h, n - r - size, n - r, x);
    }
  }

  lemma {:induction false} NoneCovered(s: Shape, h: seq<bytes>, lo: int, hi: int, x: nat)
    requires s.bits > 0 && hi <= 0
    ensures !Covered(s, h, lo, hi, x)
  {
  }

  lemma {:induction false} NothingAdded(p: Params)
    requires p.entries > 0
    ensures Fill(p, 0) == 0 && Turn(p, 0) == 0 && Current(p, []) == [] && Previous(p, []) == []
  {
    Quotient(0, p.entries, 0, 0);
  }

  lemma {:induction false} EmptyBits(s: Shape)
    requires s.bits > 0
    ensures BitsOf(s, []) == {}
  {
  }
}
