/** Facts about concatenation and slices. */
module Sequences {

  function Flatten<T>(ss: seq<seq<T>>): (r: seq<T>)
  {
    if ss == [] then [] else ss[0] + Flatten(ss[1..])
  }

  /** The first `n` elements, or all if there are fewer. */
  function Prefix<T>(s: seq<T>, n: nat): (r: seq<T>)
  {
    if n <= |s| then s[..n] else s
  }

  lemma {:induction false} Associative<T>(a: seq<T>, b: seq<T>, c: seq<T>)
    ensures a + (b + c) == a + b + c
  {
  }

  lemma {:induction false} FlattenSplit<T>(a: seq<seq<T>>, b: seq<seq<T>>)
    ensures Flatten(a + b) == Flatten(a) + Flatten(b)
  {
    if a == [] {
      assert a + b == b;
    } else {
      FlattenSplit(a[1..], b);
      assert (a + b)[1..] == a[1..] + b;
      Associative(a[0], Flatten(a[1..]), Flatten(b));
    }
  }

  lemma {:induction false} FlattenFirst<T>(first: seq<T>, rest: seq<seq<T>>)
    ensures Flatten([first] + rest) == first + Flatten(rest)
  {
    assert ([first] + rest)[1..] == rest;
  }

  lemma {:induction false} FlattenLast<T>(ss: seq<seq<T>>)
    requires ss != []
    ensures Flatten(ss) == Flatten(ss[..|ss| - 1]) + ss[|ss| - 1]
  {
    var front, last := ss[..|ss| - 1], ss[|ss| - 1];
    assert ss == front + [last];
    FlattenSplit(front, [last]);
    assert Flatten([last]) == last + Flatten([]);
  }

  lemma {:induction false} SubSlice<T>(s: seq<T>, a: nat, b: nat, lo: nat, hi: nat)
    requires a <= b <= |s| && lo <= hi <= b - a
    ensures s[a..b][lo..hi] == s[a + lo..a + hi]
  {
    var t := s[a..b];
    forall i | 0 <= i < hi - lo ensures t[lo..hi][i] == s[a + lo..a + hi][i] {
      assert t[lo..hi][i] == t[lo + i];
    }
  }

  /** A slice of `a + b` that starts inside `b`. */
  lemma {:induction false} SliceRight<T>(a: seq<T>, b: seq<T>, lo: nat, hi: nat)
    requires lo <= hi <= |b|
    ensures (a + b)[|a| + lo..|a| + hi] == b[lo..hi]
    ensures (a + b)[|a| + lo..] == b[lo..]
  {
  }

  lemma {:induction false} TailTail<T>(s: seq<T>, a: nat, b: nat)
    requires a + b <= |s|
    ensures s[a..][b..] == s[a + b..]
  {
  }

  /** Cutting the first piece off a stretch of `w`. */
  lemma {:induction false} CutFirst<T>(ss: seq<seq<T>>, w: seq<T>, n: nat)
    requires ss != [] && n + |Flatten(ss)| <= |w| && Flatten(ss) == w[n..n + |Flatten(ss)|]
    ensures |Flatten(ss)| == |ss[0]| + |Flatten(ss[1..])|
    ensures ss[0] == w[n..n + |ss[0]|]
    ensures Flatten(ss[1..]) == w[n + |ss[0]|..n + |Flatten(ss)|]
  {
    var f, a, b := Flatten(ss), ss[0], Flatten(ss[1..]);
    assert f[..|a|] == a && f[|a|..] == b;
    assert w[n..n + |f|][..|a|] == w[n..n + |a|];
    assert w[n..n + |f|][|a|..] == w[n + |a|..n + |f|];
  }
}
