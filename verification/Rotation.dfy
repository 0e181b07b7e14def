/** The in-place block exchange of `src/win/getopt.c`: Euclid's algorithm and
    `permute_args`, which swaps two adjacent blocks of argv by following the
    cycles of a rotation. */
module Rotation {
  import opened Arithmetic

  lemma {:induction false} AtLeast(k: int, n: int)
    requires k * n > 0 && n >= 0
    ensures k >= 1 && n <= k * n
  {
    assert k <= 0 ==> k * n <= 0;
    assert k >= 1 ==> (k - 1) * n >= 0;
  }

  // ---------- greatest common divisor ----------

  function Gcd(a: nat, b: nat): (g: nat)
    requires b > 0
    ensures g > 0
    decreases b
  {
    if a % b == 0 then b else Gcd(b, a % b)
  }

  lemma {:induction false} BezoutStep(u: int, v: int, a: int, b: int, d: int, r: int)
    requires a == d * b + r
    ensures v * a + (u - v * d) * b == u * b + v * r
  {
    Distribute(u, v * d, b);
    Associate(v, d, b);
  }

  /** Bezout coefficients of Euclid's algorithm. */
  lemma {:induction false} Bezout(a: nat, b: nat) returns (u: int, v: int)
    requires b > 0
    ensures u * a + v * b == Gcd(a, b)
    decreases b
  {
    if a % b == 0 {
      u, v := 0, 1;
    } else {
      var u', v' := Bezout(b, a % b);
      u, v := v', u' - v' * (a / b);
      BezoutStep(u', v', a, b, a / b, a % b);
    }
  }

  /** The gcd divides both arguments; the quotients are returned. */
  lemma {:induction false} GcdFactors(a: nat, b: nat) returns (m: nat, n: nat)
    requires b > 0
    ensures a == m * Gcd(a, b) && b == n * Gcd(a, b)
    decreases b
  {
    var d := a / b;
    assert a == d * b + a % b;
    if a % b == 0 {
      m, n := d, 1;
    } else {
      var g := Gcd(a, b);
      var k, r := GcdFactors(b, a % b);
      n := k;
      m := d * k + r;
      Distribute(d * k, r, g);
      Associate(d, k, g);
    }
  }

  /** Every common divisor divides the gcd, so it is the greatest one. */
  lemma {:induction false} GcdGreatest(a: nat, b: nat, d: nat, m: nat, n: nat)
    requires b > 0 && a == m * d && b == n * d
    ensures d <= Gcd(a, b)
    ensures exists k :: Gcd(a, b) == k * d
  {
    var u, v := Bezout(a, b);
    var k := u * m + v * n;
    Associate(u, m, d);
    Associate(v, n, d);
    Distribute(u * m, v * n, d);
    AtLeast(k, d);
  }

  /** src/win/getopt.c:137-150. */
  method ComputeGcd(x: nat, y: nat) returns (g: nat)
    requires y > 0
    ensures g == Gcd(x, y)
  {
    var a, b := x, y;
    var c := a % b;
    while c != 0
      invariant b > 0 && c == a % b
      invariant Gcd(a, b) == Gcd(x, y)
      decreases c
    {
      a := b;
      b := c;
      c := a % b;
    }
    return b;
  }

  // ---------- the orbits of the rotation ----------

  /** One move of the cycle walk, on positions relative to the segment start:
      `p` non-options are followed by `q` options. */
  function Next(p: nat, q: nat, x: nat): (y: nat)
    requires 0 < p && 0 < q && x < p + q
    ensures y < p + q
    ensures y + p == x || y == x + q
  {
    if x >= p then x - p else x + q
  }

  /** Position reached in cycle `i` after `t + 1` moves from its start `p + i`. */
  function Orbit(p: nat, q: nat, i: nat, t: nat): (x: nat)
    requires 0 < p && 0 < q && i < p + q
    ensures x < p + q
  {
    if t == 0 then i else Next(p, q, Orbit(p, q, i, t - 1))
  }

  lemma {:induction false} OrbitForm(p: nat, q: nat, i: nat, t: nat) returns (k: int)
    requires 0 < p && 0 < q && i < p + q
    ensures Orbit(p, q, i, t) == i + t * q - k * (p + q)
  {
    if t == 0 {
      k := 0;
    } else {
      k := OrbitForm(p, q, i, t - 1);
      Distribute(t - 1, 1, q);
      if Orbit(p, q, i, t - 1) >= p {
        Distribute(k, 1, p + q);
        k := k + 1;
      }
    }
  }

  /** The facts about `p`, `q` that both orbit theorems use: `g` is their gcd,
      `len` the common cycle length, and `w`, `u` combine `q` and `p + q` to `g`. */
  lemma {:induction false} CycleNumbers(p: nat, q: nat) returns (g: nat, len: nat, kq: nat, w: int, u: int)
    requires 0 < p && 0 < q
    ensures g == Gcd(p, q) && 0 < g <= p && g <= q
    ensures p + q == len * g && q == kq * g && len >= 2
    ensures len == (p + q) / g
    ensures w * q + u * (p + q) == g
  {
    g := Gcd(p, q);
    var kp;
    kp, kq := GcdFactors(p, q);
    hide Gcd;
    len := kp + kq;
    Distribute(kp, kq, g);
    Factor(kp, g, p);
    Factor(kq, g, q);
    var a, b := Bezout(p, q);
    w, u := b - a, a;
    Combine(a, b, p, q);
    Quotient(p + q, g, len, 0);
  }

  lemma {:induction false} Factor(k: nat, g: nat, p: nat)
    requires p == k * g && p > 0
    ensures k >= 1 && 0 < g <= p
  {
    assert k >= 1 ==> k * g >= g;
  }

  lemma {:induction false} Combine(a: int, b: int, p: int, q: int)
    ensures (b - a) * q + a * (p + q) == a * p + b * q
  {
    Distribute(b, a, q);
  }

  /** Distinct (cycle, step) pairs visit distinct positions. */
  lemma {:induction false} OrbitInjective(p: nat, q: nat, i: nat, t: nat, i': nat, t': nat)
    requires 0 < p && 0 < q
    requires i < Gcd(p, q) && i' < Gcd(p, q)
    requires i < p + q && i' < p + q
    requires t < (p + q) / Gcd(p, q) && t' < (p + q) / Gcd(p, q)
    requires Orbit(p, q, i, t) == Orbit(p, q, i', t')
    ensures i == i' && t == t'
  {
    var g, len, kq, w, u := CycleNumbers(p, q);
    var n := p + q;
    var k := OrbitForm(p, q, i, t);
    var k' := OrbitForm(p, q, i', t');
    var d, m := t' - t, k' - k;
    Distribute(t', t, q);
    Distribute(k', k, n);
    assert i - i' == d * q - m * n;
    Associate(d, kq, g);
    Associate(m, len, g);
    Distribute(d * kq, m * len, g);
    SmallMultiple(d * kq - m * len, g, i - i');
    SameCycle(q, n, g, len, w, u, d, m);
  }

  /** Within one cycle, the walk closes only after `len` moves. */
  lemma {:induction false} SameCycle(q: int, n: int, g: int, len: int, w: int, u: int, d: int, m: int)
    requires g > 0 && n == len * g && w * q + u * n == g
    requires d * q == m * n && -len < d < len
    ensures d == 0
  {
    var c := w * m + d * u;
    calc {
      d * g;
      d * (w * q) + d * (u * n);
      { Associate(d, w, q); Associate(w, d, q); Associate(d, u, n); }
      w * (d * q) + (d * u) * n;
      { Associate(w, m, n); Distribute(w * m, d * u, n); }
      c * n;
      { Associate(c, len, g); }
      (c * len) * g;
    }
    Distribute(d, c * len, g);
    SmallMultiple(d - c * len, g, 0);
    SmallMultiple(c, len, d);
  }

  /** Every position of the segment is visited by some step of some cycle. */
  lemma {:induction false} OrbitCovers(p: nat, q: nat, x: nat) returns (i: nat, t: nat)
    requires 0 < p && 0 < q && x < p + q
    ensures i < Gcd(p, q) && i < p + q
    ensures t < (p + q) / Gcd(p, q)
    ensures Orbit(p, q, i, t) == x
  {
    var g, len, kq, w, u := CycleNumbers(p, q);
    var n := p + q;
    var m, r;
    m, i := DivMod(x, g);
    r, t := DivMod(m * w, len);
    var k := OrbitForm(p, q, i, t);
    var e := Regroup(q, n, g, len, kq, w, u, m, r, t);
    Distribute(e, k, n);
    assert x - Orbit(p, q, i, t) == (e + k) * n;
    SmallMultiple(e + k, n, x - Orbit(p, q, i, t));
  }

  /** `m * g` differs from `t * q` by a multiple of `n` when `t` is `m * w` modulo `len`. */
  lemma {:induction false} Regroup(q: int, n: int, g: int, len: int, kq: int, w: int, u: int, m: int, r: int, t: int)
    returns (e: int)
    requires n == len * g && q == kq * g && w * q + u * n == g
    requires m * w == r * len + t
    ensures m * g == t * q + e * n
  {
    e := m * u + r * kq;
    calc {
      m * g;
      m * (w * q) + m * (u * n);
      { Associate(m, w, q); Associate(m, u, n); }
      (r * len + t) * q + (m * u) * n;
      { Distribute(r * len, t, q); Associate(r, len, q); }
      r * (len * q) + t * q + (m * u) * n;
      { LenTimes(q, n, g, len, kq); Associate(r, kq, n); }
      (r * kq) * n + t * q + (m * u) * n;
      { Distribute(m * u, r * kq, n); }
      t * q + e * n;
    }
  }

  lemma {:induction false} LenTimes(q: int, n: int, g: int, len: int, kq: int)
    requires n == len * g && q == kq * g
    ensures len * q == kq * n
  {
    Associate(len, kq, g);
    Associate(kq, len, g);
  }

  /** The last position of cycle `i` is its start `p + i`. */
  lemma {:induction false} OrbitCloses(p: nat, q: nat, i: nat)
    requires 0 < p && 0 < q && i < Gcd(p, q) && i < p + q
    ensures p + i < p + q
    ensures (p + q) / Gcd(p, q) >= 2
    ensures Orbit(p, q, i, (p + q) / Gcd(p, q) - 1) == p + i
  {
    var g, len, kq, w, u := CycleNumbers(p, q);
    var n := p + q;
    var k := OrbitForm(p, q, i, len - 1);
    Distribute(len, 1, q);
    LenTimes(q, n, g, len, kq);
    var e := kq - 1 - k;
    Distribute(kq - 1, k, n);
    Distribute(kq, 1, n);
    SmallMultiple(e, n, Orbit(p, q, i, len - 1) - (p + i));
  }

  ghost predicate InCycles(g: nat, len: nat, i: nat, t: nat)
  {
    i < g && t < len
  }

  ghost predicate Visited(p: nat, q: nat, g: nat, len: nat, x: nat)
    requires 0 < p && 0 < q && g <= p
  {
    exists i: nat, t: nat {:trigger InCycles(g, len, i, t)} :: InCycles(g, len, i, t) && Orbit(p, q, i, t) == x
  }

  ghost predicate Closes(p: nat, q: nat, len: nat, i: nat)
    requires 0 < p && 0 < q && i < p && len >= 2
  {
    Orbit(p, q, i, len - 1) == p + i
  }

  ghost predicate Disjoint(p: nat, q: nat, g: nat, len: nat)
    requires 0 < p && 0 < q && g <= p
  {
    forall i: nat, t: nat, i': nat, t': nat {:trigger InCycles(g, len, i, t), InCycles(g, len, i', t')} ::
      InCycles(g, len, i, t) && InCycles(g, len, i', t') && Orbit(p, q, i, t) == Orbit(p, q, i', t') ==>
        i == i' && t == t'
  }

  /** The walk of `p` then `q` positions splits into `g` cycles of `len` positions:
      pairwise disjoint, covering the segment, each ending where it started. */
  ghost predicate Cycles(p: nat, q: nat, g: nat, len: nat)
  {
    && 0 < g <= p && g <= q && len >= 2
    && Disjoint(p, q, g, len)
    && (forall x: nat :: x < p + q ==> Visited(p, q, g, len, x))
    && (forall i: nat :: i < g ==> Closes(p, q, len, i))
  }

  lemma {:induction false} CyclesDisjoint(p: nat, q: nat)
    requires 0 < p && 0 < q && Gcd(p, q) <= p
    ensures Disjoint(p, q, Gcd(p, q), (p + q) / Gcd(p, q))
  {
    var g := Gcd(p, q);
    var len := (p + q) / g;
    forall i: nat, t: nat, i': nat, t': nat
      | InCycles(g, len, i, t) && InCycles(g, len, i', t') && Orbit(p, q, i, t) == Orbit(p, q, i', t')
      ensures i == i' && t == t'
    {
      OrbitInjective(p, q, i, t, i', t');
    }
  }

  lemma {:induction false} CyclesCover(p: nat, q: nat, x: nat)
    requires 0 < p && 0 < q && x < p + q && Gcd(p, q) <= p
    ensures Visited(p, q, Gcd(p, q), (p + q) / Gcd(p, q), x)
  {
    var i, t := OrbitCovers(p, q, x);
    assert InCycles(Gcd(p, q), (p + q) / Gcd(p, q), i, t);
  }

  lemma {:induction false} GcdCycles(p: nat, q: nat)
    requires 0 < p && 0 < q
    ensures Cycles(p, q, Gcd(p, q), (p + q) / Gcd(p, q))
  {
    var g, len, kq, w, u := CycleNumbers(p, q);
    CyclesDisjoint(p, q);
    forall x: nat | x < p + q ensures Visited(p, q, g, len, x) {
      CyclesCover(p, q, x);
    }
    forall i: nat | i < g ensures Closes(p, q, len, i) {
      OrbitCloses(p, q, i);
    }
  }

  // ---------- the exchange itself ----------

  /** The segment `s[a..c]` with its blocks `s[a..b]` and `s[b..c]` exchanged. */
  function Exchanged<T>(s: seq<T>, a: nat, b: nat, c: nat): (r: seq<T>)
    requires a <= b <= c <= |s|
    ensures |r| == |s|
  {
    s[..a] + s[b..c] + s[a..b] + s[c..]
  }

  /** The step of cycle `i'` whose original word stands at its step `t'` when cycle
      `i` has made `j` of its moves: moved words are final, the cycle start holds
      the word in transit, the rest is original. */
  ghost function From(len: nat, i: nat, j: nat, i': nat, t': nat): (t: nat)
    requires t' < len && j <= len
    ensures t < len
  {
    if i' < i || (i' == i && (j == len || (t' < j && t' < len - 1))) then
      if t' == 0 then len - 1 else t' - 1
    else if i' == i && t' == len - 1 && j > 0 then
      j - 1
    else
      t'
  }

  ghost predicate Holds<T>(now: seq<T>, seg: seq<T>, p: nat, q: nat, i: nat, t: nat, t': nat)
    requires 0 < p && 0 < q && |seg| == |now| == p + q && i < p + q
  {
    now[Orbit(p, q, i, t)] == seg[Orbit(p, q, i, t')]
  }

  ghost predicate Walk<T>(now: seq<T>, seg: seq<T>, p: nat, q: nat, g: nat, len: nat, i: nat, j: nat)
    requires Cycles(p, q, g, len) && |seg| == |now| == p + q && j <= len
  {
    forall i': nat, t': nat {:trigger InCycles(g, len, i', t')} :: InCycles(g, len, i', t') ==>
      Holds(now, seg, p, q, i', t', From(len, i, j, i', t'))
  }

  ghost function Swapped<T>(now: seq<T>, x: nat, c: nat): (after: seq<T>)
    requires x < |now| && c < |now|
    ensures |after| == |now|
  {
    now[x := now[c]][c := now[x]]
  }

  lemma {:induction false} Move<T>(now: seq<T>, seg: seq<T>, p: nat, q: nat, g: nat, len: nat, i: nat, j: nat)
    requires Cycles(p, q, g, len) && |seg| == |now| == p + q
    requires InCycles(g, len, i, j)
    requires Walk(now, seg, p, q, g, len, i, j)
    ensures Walk(Swapped(now, Orbit(p, q, i, j), p + i), seg, p, q, g, len, i, j + 1)
  {
    assert Closes(p, q, len, i) && InCycles(g, len, i, len - 1);
    forall i': nat, t': nat | InCycles(g, len, i', t')
      ensures Holds(Swapped(now, Orbit(p, q, i, j), p + i), seg, p, q, i', t', From(len, i, j + 1, i', t'))
    {
      MoveAt(now, seg, p, q, g, len, i, j, i', t');
    }
  }

  lemma {:induction false} MoveAt<T>(now: seq<T>, seg: seq<T>, p: nat, q: nat, g: nat, len: nat,
                                     i: nat, j: nat, i': nat, t': nat)
    requires 0 < g <= p && g <= q && len >= 2 && |seg| == |now| == p + q
    requires InCycles(g, len, i, j) && InCycles(g, len, i', t') && InCycles(g, len, i, len - 1)
    requires Disjoint(p, q, g, len) && Closes(p, q, len, i)
    requires Holds(now, seg, p, q, i', t', From(len, i, j, i', t'))
    requires Holds(now, seg, p, q, i, j, From(len, i, j, i, j))
    requires Holds(now, seg, p, q, i, len - 1, From(len, i, j, i, len - 1))
    ensures Holds(Swapped(now, Orbit(p, q, i, j), p + i), seg, p, q, i', t', From(len, i, j + 1, i', t'))
  {
    var y, x, c := Orbit(p, q, i', t'), Orbit(p, q, i, j), Orbit(p, q, i, len - 1);
    if y == c {
      assert i' == i && t' == len - 1;
    } else if y == x {
      assert i' == i && t' == j;
    } else {
      assert From(len, i, j, i', t') == From(len, i, j + 1, i', t');
    }
  }

  lemma {:induction false} NextCycle<T>(now: seq<T>, seg: seq<T>, p: nat, q: nat, g: nat, len: nat, i: nat)
    requires Cycles(p, q, g, len) && |seg| == |now| == p + q
    requires Walk(now, seg, p, q, g, len, i, len)
    ensures Walk(now, seg, p, q, g, len, i + 1, 0)
  {
  }

  /** All cycles walked: the two blocks have changed places. */
  lemma {:induction false} WalkDone<T>(now: seq<T>, seg: seq<T>, p: nat, q: nat, g: nat, len: nat)
    requires Cycles(p, q, g, len) && |seg| == |now| == p + q
    requires Walk(now, seg, p, q, g, len, g, 0)
    ensures now == seg[p..] + seg[..p]
  {
    forall x: nat | x < p + q ensures now[x] == (seg[p..] + seg[..p])[x] {
      assert Visited(p, q, g, len, x);
      var i: nat, t: nat :| InCycles(g, len, i, t) && Orbit(p, q, i, t) == x;
      if t == 0 {
        assert Closes(p, q, len, i) && InCycles(g, len, i, len - 1);
      } else {
        assert x == Next(p, q, Orbit(p, q, i, t - 1));
      }
    }
  }

  /** Exchanges two words inside `argv[lo..hi]`, src/win/getopt.c:180-184. */
  method Swap<T>(argv: array<T>, lo: nat, hi: nat, x: nat, c: nat)
    requires lo + x < hi && lo + c < hi && hi <= argv.Length
    modifies argv
    ensures argv[..lo] == old(argv[..lo]) && argv[hi..] == old(argv[hi..])
    ensures argv[lo..hi] == Swapped(old(argv[lo..hi]), x, c)
  {
    var swap := argv[lo + x];
    argv[lo + x] := argv[lo + c];
    argv[lo + c] := swap;
  }

  /** Where cycle `i` stands before its move `j`. */
  ghost function Stand(p: nat, q: nat, i: nat, j: nat): (x: nat)
    requires 0 < p && 0 < q && i < q
    ensures x < p + q
  {
    if j == 0 then p + i else Orbit(p, q, i, j - 1)
  }

  lemma {:induction false} NextStand(p: nat, q: nat, i: nat, j: nat)
    requires 0 < p && 0 < q && i < q
    ensures Next(p, q, Stand(p, q, i, j)) == Orbit(p, q, i, j) == Stand(p, q, i, j + 1)
  {
  }

  /** One cycle of the walk, src/win/getopt.c:173-185. */
  method WalkCycle<T>(argv: array<T>, start: nat, end: nat, nnonopts: nat, nopts: nat,
                      ncycle: nat, cyclelen: nat, i: nat, ghost seg: seq<T>)
    requires start + nnonopts + nopts == end <= argv.Length && |seg| == nnonopts + nopts
    requires i < ncycle && Cycles(nnonopts, nopts, ncycle, cyclelen)
    requires Walk(argv[start..end], seg, nnonopts, nopts, ncycle, cyclelen, i, 0)
    modifies argv
    ensures argv[..start] == old(argv[..start]) && argv[end..] == old(argv[end..])
    ensures Walk(argv[start..end], seg, nnonopts, nopts, ncycle, cyclelen, i + 1, 0)
  {
    hide Walk;
    var cstart := start + nnonopts + i;
    var pos := cstart;
    var j := 0;
    while j < cyclelen
      invariant 0 <= j <= cyclelen
      invariant pos == start + Stand(nnonopts, nopts, i, j)
      invariant argv[..start] == old(argv[..start]) && argv[end..] == old(argv[end..])
      invariant Walk(argv[start..end], seg, nnonopts, nopts, ncycle, cyclelen, i, j)
    {
      Move(argv[start..end], seg, nnonopts, nopts, ncycle, cyclelen, i, j);
      NextStand(nnonopts, nopts, i, j);
      if pos >= start + nnonopts {
        pos := pos - nnonopts;
      } else {
        pos := pos + nopts;
      }
      Swap(argv, start, end, pos - start, cstart - start);
      j := j + 1;
    }
    NextCycle(argv[start..end], seg, nnonopts, nopts, ncycle, cyclelen, i);
  }

  /** Number and length of the cycles, src/win/getopt.c:167-170. */
  method CountCycles(nnonopts: nat, nopts: nat) returns (ncycle: nat, cyclelen: nat)
    requires 0 < nnonopts && 0 < nopts
    ensures Cycles(nnonopts, nopts, ncycle, cyclelen)
  {
    ncycle := ComputeGcd(nnonopts, nopts);
    cyclelen := (nnonopts + nopts) / ncycle;
    GcdCycles(nnonopts, nopts);
  }

  lemma {:induction false} WalkStart<T>(seg: seq<T>, p: nat, q: nat, g: nat, len: nat)
    requires Cycles(p, q, g, len) && |seg| == p + q
    ensures Walk(seg, seg, p, q, g, len, 0, 0)
  {
  }

  /** The loop over the cycles, src/win/getopt.c:172-186. */
  method WalkAll<T>(argv: array<T>, start: nat, end: nat, nnonopts: nat, nopts: nat)
    requires 0 < nnonopts && 0 < nopts && start + nnonopts + nopts == end <= argv.Length
    modifies argv
    ensures argv[..start] == old(argv[..start]) && argv[end..] == old(argv[end..])
    ensures argv[start..end] == old(argv[start..end])[nnonopts..] + old(argv[start..end])[..nnonopts]
  {
    ghost var seg := argv[start..end];
    var ncycle, cyclelen := CountCycles(nnonopts, nopts);
    WalkStart(seg, nnonopts, nopts, ncycle, cyclelen);
    var i := 0;
    while i < ncycle
      invariant 0 <= i <= ncycle
      invariant argv[..start] == old(argv[..start]) && argv[end..] == old(argv[end..])
      invariant Walk(argv[start..end], seg, nnonopts, nopts, ncycle, cyclelen, i, 0)
    {
      WalkCycle(argv, start, end, nnonopts, nopts, ncycle, cyclelen, i, seg);
      i := i + 1;
    }
    WalkDone(argv[start..end], seg, nnonopts, nopts, ncycle, cyclelen);
  }

  lemma {:induction false} Assemble<T>(now: seq<T>, was: seq<T>, a: nat, b: nat, c: nat)
    requires a <= b <= c <= |was| == |now|
    requires now[..a] == was[..a] && now[c..] == was[c..]
    requires now[a..c] == was[a..c][b - a..] + was[a..c][..b - a]
    ensures now == Exchanged(was, a, b, c)
  {
    assert was[a..c][b - a..] == was[b..c];
    assert was[a..c][..b - a] == was[a..b];
    assert now == now[..a] + now[a..c] + now[c..];
  }

  /** src/win/getopt.c:152-187. */
  method PermuteArgs<T>(argv: array<T>, nonoptStart: nat, nonoptEnd: nat, optEnd: nat)
    requires nonoptStart < nonoptEnd < optEnd <= argv.Length
    modifies argv
    ensures argv[..] == Exchanged(old(argv[..]), nonoptStart, nonoptEnd, optEnd)
  {
    ghost var was := argv[..];
    var nnonopts := nonoptEnd - nonoptStart;
    var nopts := optEnd - nonoptEnd;
    WalkAll(argv, nonoptStart, optEnd, nnonopts, nopts);
    assert argv[..][nonoptStart..optEnd] == argv[nonoptStart..optEnd];
    Assemble(argv[..], was, nonoptStart, nonoptEnd, optEnd);
  }
}
