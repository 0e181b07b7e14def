/** The hash table of `src/uthash.h` as `src/cache.c` uses it: items linked twice, in
    application order and in bucket chains, with bucket doubling. The ghost sequences
    say which items each list holds; the invariant is the one HASH_FSCK checks. */
module Uthash {
  import opened Arithmetic
  import opened Bytes

  /** An element with its embedded hash handle; `data` and `ts` belong to the cache. */
  class Item {
    const key: bytes
    const data: nat
    var ts: real
    var hashv: nat
    var prev: Item?
    var next: Item?
    var hhPrev: Item?
    var hhNext: Item?

    constructor (key: bytes, data: nat, ts: real)
      ensures this.key == key && this.data == data && this.ts == ts
    {
      this.key, this.data, this.ts := key, data, ts;
    }
  }

  datatype Bucket = Bucket(head: Item?, count: nat, expandMult: nat)

  const INITIAL_LOG2 := 5
  const INITIAL_BUCKETS := 32
  const CAPACITY_THRESH := 10

  /** Bitwise and. */
  function And(a: nat, b: nat): (r: nat)
  {
    if a == 0 || b == 0 then 0 else 2 * And(a / 2, b / 2) + (a % 2) * (b % 2)
  }

  /** HASH_TO_BKT, src/uthash.h:327-330. */
  function ToBucket(hashv: nat, numBuckets: nat): (b: nat)
    requires numBuckets > 0
  {
    And(hashv, numBuckets - 1)
  }

  /** Masking with a power of two less one is the remainder. */
  lemma {:induction false} MaskIsMod(h: nat, k: nat)
    ensures ToBucket(h, Pow2(k)) == h % Pow2(k)
  {
    hide And, Pow2;
    MaskPower(h, k, Pow2(k));
  }

  lemma {:induction false} MaskPower(h: nat, k: nat, p: nat)
    requires p == Pow2(k) && p > 0
    ensures And(h, p - 1) == h % p
    decreases k
  {
    hide And;
    if k == 0 {
      AndZero(h);
    } else {
      var half := Pow2(k - 1);
      hide Pow2;
      MaskPower(h / 2, k - 1, half);
      MaskTwice(h, half);
    }
  }

  lemma {:induction false} MaskTwice(h: nat, p: nat)
    requires p > 0 && And(h / 2, p - 1) == h / 2 % p
    ensures And(h, 2 * p - 1) == h % (2 * p)
  {
    hide And;
    ModDouble(h, p);
    if h == 0 {
      AndZero(2 * p - 1);
      AndZero(p - 1);
    } else {
      AndStep(h, p);
    }
  }

  lemma {:induction false} AndZero(a: nat)
    ensures And(a, 0) == And(0, a) == 0
  {
  }

  lemma {:induction false} AndStep(h: nat, p: nat)
    requires p > 0 && h > 0
    ensures And(h, 2 * p - 1) == 2 * And(h / 2, p - 1) + h % 2
  {
    assert (2 * p - 1) / 2 == p - 1 && (2 * p - 1) % 2 == 1;
    assert (h % 2) * 1 == h % 2;
  }

  // ---------- linked sequences ----------

  ghost function At(s: seq<Item>, i: int): (x: Item?)
  {
    if 0 <= i < |s| then s[i] else null
  }

  ghost predicate Distinct(s: seq<Item>)
  {
    forall i, j :: 0 <= i < j < |s| ==> s[i] != s[j]
  }

  /** The application-order links run through `s`. */
  ghost predicate Linked(s: seq<Item>)
    reads s`next, s`prev
  {
    && (forall i {:trigger s[i].next} :: 0 <= i < |s| ==> s[i].next == At(s, i + 1))
    && (forall i {:trigger s[i].prev} :: 0 <= i < |s| ==> s[i].prev == At(s, i - 1))
  }

  /** The bucket links run through `s`. */
  ghost predicate Chained(s: seq<Item>)
    reads s`hhNext, s`hhPrev
  {
    && (forall i {:trigger s[i].hhNext} :: 0 <= i < |s| ==> s[i].hhNext == At(s, i + 1))
    && (forall i {:trigger s[i].hhPrev} :: 0 <= i < |s| ==> s[i].hhPrev == At(s, i - 1))
  }

  /** The first item of a chain with the key. */
  ghost function FirstWith(c: seq<Item>, key: bytes): (x: Item?)
  {
    if c == [] then null else if c[0].key == key then c[0] else FirstWith(c[1..], key)
  }

  ghost function Items(s: seq<Item>): (r: set<Item>)
  {
    set x | x in s
  }

  ghost function Opt(x: Item?): (r: set<Item>)
  {
    if x == null then {} else {x}
  }

  ghost function Without(s: seq<Item>, k: nat): (r: seq<Item>)
    requires k < |s|
    ensures |r| == |s| - 1
    ensures forall i :: 0 <= i < |r| ==> r[i] == s[if i < k then i else i + 1]
  {
    s[..k] + s[k + 1..]
  }

  /** HASH_APPEND_LIST, src/uthash.h:233-239. */
  method AppendList(ghost s: seq<Item>, tail: Item, add: Item)
    requires s != [] && add !in s && Distinct(s) && Linked(s) && tail == s[|s| - 1]
    modifies add`next, add`prev, tail`next
    ensures Distinct(s + [add]) && Linked(s + [add])
  {
    add.next := null;
    add.prev := tail;
    tail.next := add;
  }

  /** The neighbours of `del` are linked to each other, src/uthash.h:358-365. */
  method Bypass(ghost s: seq<Item>, ghost k: nat, del: Item)
    requires k < |s| && Distinct(s) && Linked(s) && del == s[k]
    modifies Items(s)`next, Items(s)`prev
    ensures Distinct(Without(s, k)) && Linked(Without(s, k))
    ensures del.next == old(del.next) && del.prev == old(del.prev)
  {
    hide Without;
    assert del.prev == At(s, k - 1) && del.next == At(s, k + 1);
    if del.prev != null {
      del.prev.next := del.next;
    }
    if del.next != null {
      del.next.prev := del.prev;
    }
    BypassLinked(s, k);
  }

  lemma {:induction false} BypassLinked(s: seq<Item>, k: nat)
    requires k < |s| && Distinct(s)
    requires forall m {:trigger s[m].next} :: 0 <= m < |s| && m != k ==>
               s[m].next == At(s, if m == k - 1 then m + 2 else m + 1)
    requires forall m {:trigger s[m].prev} :: 0 <= m < |s| && m != k ==>
               s[m].prev == At(s, if m == k + 1 then m - 2 else m - 1)
    ensures Distinct(Without(s, k)) && Linked(Without(s, k))
  {
    hide Without;
    var r := Without(s, k);
    forall i | 0 <= i < |r| ensures r[i].next == At(r, i + 1) && r[i].prev == At(r, i - 1) {
      var m := if i < k then i else i + 1;
      assert r[i] == s[m] && s[m].next == s[m].next && s[m].prev == s[m].prev;
    }
  }

  /** The list part of HASH_DELETE, src/uthash.h:355-365, when other items remain. */
  method Unlink(ghost s: seq<Item>, ghost k: nat, head: Item, tail: Item, del: Item)
    returns (head': Item?, tail': Item?)
    requires k < |s| && |s| >= 2 && Distinct(s) && Linked(s)
    requires head == s[0] && tail == s[|s| - 1] && del == s[k]
    modifies Items(s)`next, Items(s)`prev
    ensures Distinct(Without(s, k)) && Linked(Without(s, k))
    ensures head' == At(Without(s, k), 0) && tail' == At(Without(s, k), |s| - 2)
  {
    hide Without;
    assert del.prev == At(s, k - 1) && del.next == At(s, k + 1);
    head', tail' := head, tail;
    if del == tail {
      tail' := del.prev;
    }
    if del.prev == null {
      head' := del.next;
    }
    assert head' == At(Without(s, k), 0) && tail' == At(Without(s, k), |s| - 2);
    Bypass(s, k, del);
  }

  /** The link part of HASH_ADD_TO_BKT, src/uthash.h:755-760. */
  method PushChain(ghost s: seq<Item>, head: Item?, add: Item)
    requires head == At(s, 0) && add !in s && Distinct(s) && Chained(s)
    modifies add`hhNext, add`hhPrev, Opt(head)`hhPrev
    ensures Distinct([add] + s) && Chained([add] + s)
  {
    add.hhNext := head;
    add.hhPrev := null;
    if head != null {
      head.hhPrev := add;
    }
  }

  /** The link part of HASH_DEL_IN_BKT, src/uthash.h:769-777. */
  method UnlinkChain(ghost s: seq<Item>, ghost k: nat, head: Item?, del: Item) returns (head': Item?)
    requires k < |s| && Distinct(s) && Chained(s) && head == s[0] && del == s[k]
    modifies Items(s)`hhNext, Items(s)`hhPrev
    ensures Distinct(Without(s, k)) && Chained(Without(s, k)) && head' == At(Without(s, k), 0)
  {
    hide Without;
    assert del.hhPrev == At(s, k - 1) && del.hhNext == At(s, k + 1);
    head' := head;
    if head == del {
      head' := del.hhNext;
    }
    assert head' == At(Without(s, k), 0);
    if del.hhPrev != null {
      del.hhPrev.hhNext := del.hhNext;
    }
    if del.hhNext != null {
      del.hhNext.hhPrev := del.hhPrev;
    }
    BypassChained(s, k);
  }

  lemma {:induction false} BypassChained(s: seq<Item>, k: nat)
    requires k < |s| && Distinct(s)
    requires forall m {:trigger s[m].hhNext} :: 0 <= m < |s| && m != k ==>
               s[m].hhNext == At(s, if m == k - 1 then m + 2 else m + 1)
    requires forall m {:trigger s[m].hhPrev} :: 0 <= m < |s| && m != k ==>
               s[m].hhPrev == At(s, if m == k + 1 then m - 2 else m - 1)
    ensures Distinct(Without(s, k)) && Chained(Without(s, k))
  {
    hide Without;
    var r := Without(s, k);
    forall i | 0 <= i < |r| ensures r[i].hhNext == At(r, i + 1) && r[i].hhPrev == At(r, i - 1) {
      var m := if i < k then i else i + 1;
      assert r[i] == s[m] && s[m].hhNext == s[m].hhNext && s[m].hhPrev == s[m].hhPrev;
    }
  }

  // ---------- placement in buckets ----------

  ghost function Total(chains: seq<seq<Item>>): (n: nat)
  {
    if chains == [] then 0 else |chains[0]| + Total(chains[1..])
  }

  lemma {:induction false} TotalUpdate(chains: seq<seq<Item>>, b: nat, c: seq<Item>)
    requires b < |chains|
    ensures Total(chains[b := c]) == Total(chains) - |chains[b]| + |c|
  {
    if b == 0 {
      assert chains[b := c][1..] == chains[1..];
    } else {
      TotalUpdate(chains[1..], b - 1, c);
      assert chains[b := c][1..] == chains[1..][b - 1 := c];
    }
  }

  lemma {:induction false} TotalEmpty(chains: seq<seq<Item>>)
    requires forall b :: 0 <= b < |chains| ==> chains[b] == []
    ensures Total(chains) == 0
  {
    if chains != [] {
      TotalEmpty(chains[1..]);
    }
  }

  /** Every item of `placed` is in the chain its hash selects, and the chains hold nothing else. */
  ghost predicate Placed(chains: seq<seq<Item>>, placed: seq<Item>)
    reads placed`hashv
  {
    && |chains| > 0
    && (forall b, i :: 0 <= b < |chains| && 0 <= i < |chains[b]| ==>
          chains[b][i] in placed && chains[b][i].hashv % |chains| == b)
    && (forall i :: 0 <= i < |placed| ==> placed[i] in chains[placed[i].hashv % |chains|])
    && Total(chains) == |placed|
  }

  ghost predicate ChainOk(chain: seq<Item>, bucket: Bucket)
    reads chain`hhNext, chain`hhPrev
  {
    Distinct(chain) && Chained(chain) && bucket.head == At(chain, 0) && bucket.count == |chain|
  }

  ghost predicate ChainsOk(chains: seq<seq<Item>>, buckets: seq<Bucket>)
    reads (set b, i | 0 <= b < |chains| && 0 <= i < |chains[b]| :: chains[b][i])`hhNext,
          (set b, i | 0 <= b < |chains| && 0 <= i < |chains[b]| :: chains[b][i])`hhPrev
  {
    |buckets| == |chains| && forall b :: 0 <= b < |chains| ==> ChainOk(chains[b], buckets[b])
  }

  /** An array of buckets that holds exactly the items of `placed`. */
  ghost predicate Held(chains: seq<seq<Item>>, buckets: seq<Bucket>, placed: seq<Item>)
    reads placed`hashv,
          (set b, i | 0 <= b < |chains| && 0 <= i < |chains[b]| :: chains[b][i])`hhNext,
          (set b, i | 0 <= b < |chains| && 0 <= i < |chains[b]| :: chains[b][i])`hhPrev
  {
    Placed(chains, placed) && ChainsOk(chains, buckets)
  }

  /** Puts an item at the front of its chain and stores the new bucket record. */
  method PushInto(buckets: array<Bucket>, ghost chains: seq<seq<Item>>, b: nat, item: Item, bucket: Bucket,
                  ghost placed: seq<Item>) returns (ghost chains': seq<seq<Item>>)
    requires Held(chains, buckets[..], placed) && item !in placed && b == item.hashv % |chains|
    requires b < buckets.Length && bucket.head == item && bucket.count == buckets[b].count + 1
    modifies buckets, item`hhNext, item`hhPrev, Items(placed)`hhPrev
    ensures chains' == chains[b := [item] + chains[b]]
    ensures Held(chains', buckets[..], placed + [item])
    ensures buckets[..] == old(buckets[..])[b := bucket]
  {
    hide Placed;
    PlacedBounds(chains, placed);
    ghost var c, was, n := chains[b], buckets[..], |chains|;
    assert ChainOk(c, was[b]);
    PlacedPush(chains, placed, item, b);
    Apart(chains, placed, b);
    assert buckets[b].head != null ==> buckets[b].head in chains[b];
    label before:
    PushChain(c, buckets[b].head, item);
    forall b' | 0 <= b' < n && b' != b ensures ChainOk(chains[b'], was[b']) {
      assert old@before(ChainOk(chains[b'], was[b']));
      assert forall x :: x in chains[b'] ==> x.hhNext == old@before(x.hhNext) && x.hhPrev == old@before(x.hhPrev);
    }
    buckets[b] := bucket;
    chains' := chains[b := [item] + c];
    assert buckets[..] == was[b := bucket];
  }

  lemma {:induction false} PlacedBounds(chains: seq<seq<Item>>, placed: seq<Item>)
    requires Placed(chains, placed)
    ensures |chains| > 0
  {
  }

  lemma {:induction false} PlacedPush(chains: seq<seq<Item>>, placed: seq<Item>, item: Item, b: nat)
    requires Placed(chains, placed) && b == item.hashv % |chains|
    ensures Placed(chains[b := [item] + chains[b]], placed + [item])
  {
    TotalUpdate(chains, b, [item] + chains[b]);
    hide Total;
    var c' := [item] + chains[b];
    var chains' := chains[b := c'];
    forall x | x in chains[b] ensures x in c' {
      var i :| 0 <= i < |chains[b]| && chains[b][i] == x;
      assert c'[i + 1] == x;
    }
    assert c'[0] == item;
    forall i | 0 <= i < |placed + [item]|
      ensures (placed + [item])[i] in chains'[(placed + [item])[i].hashv % |chains'|]
    {
    }
  }

  /** Items of other chains are not in chain `b`. */
  lemma {:induction false} Apart(chains: seq<seq<Item>>, placed: seq<Item>, b: nat)
    requires Placed(chains, placed) && b < |chains|
    ensures forall b', x {:trigger x in chains[b']} ::
              0 <= b' < |chains| && x in chains[b'] ==> x in placed && (b' != b ==> x !in chains[b])
  {
  }

  // ---------- removal from a bucket ----------

  lemma {:induction false} WithoutMembers(s: seq<Item>, k: nat)
    requires k < |s| && Distinct(s)
    ensures forall y :: y in Without(s, k) <==> y in s && y != s[k]
  {
    hide Without;
    var r := Without(s, k);
    forall y | y in s && y != s[k] ensures y in r {
      var i :| 0 <= i < |s| && s[i] == y;
      assert r[if i < k then i else i - 1] == y;
    }
  }

  lemma {:induction false} PlacedRemove(chains: seq<seq<Item>>, placed: seq<Item>, b: nat, m: nat, k: nat)
    requires Placed(chains, placed) && b < |chains| && m < |chains[b]| && k < |placed| && placed[k] == chains[b][m]
    requires Distinct(placed) && Distinct(chains[b])
    ensures Placed(chains[b := Without(chains[b], m)], Without(placed, k))
  {
    TotalUpdate(chains, b, Without(chains[b], m));
    hide Total, Without;
    var x: Item := placed[k];
    var c': seq<Item>, p': seq<Item> := Without(chains[b], m), Without(placed, k);
    var chains' := chains[b := c'];
    WithoutMembers(placed, k);
    WithoutMembers(chains[b], m);
    hide Distinct;
    forall j, i | 0 <= j < |chains'| && 0 <= i < |chains'[j]|
      ensures chains'[j][i] in p' && chains'[j][i].hashv % |chains'| == j
    {
      if j == b {
        assert c'[i] in c' && c'[i] in chains[b] && c'[i] != x;
      } else {
        assert chains'[j][i] == chains[j][i];
      }
    }
    forall i | 0 <= i < |p'| ensures p'[i] in chains'[p'[i].hashv % |chains'|] {
      assert p'[i] in p' && p'[i] in placed && p'[i] != x;
    }
  }

  /** HASH_DEL_IN_BKT, src/uthash.h:767-777. */
  method RemoveFrom(buckets: array<Bucket>, ghost chains: seq<seq<Item>>, b: nat, item: Item,
                    ghost m: nat, ghost k: nat, ghost placed: seq<Item>) returns (ghost chains': seq<seq<Item>>)
    requires Held(chains, buckets[..], placed) && Distinct(placed) && b < |chains|
    requires m < |chains[b]| && k < |placed| && item == placed[k] == chains[b][m]
    modifies buckets, Items(placed)`hhNext, Items(placed)`hhPrev
    ensures chains' == chains[b := Without(chains[b], m)]
    ensures Held(chains', buckets[..], Without(placed, k))
  {
    hide Placed, Without;
    ghost var c, was, n := chains[b], buckets[..], |chains|;
    assert ChainOk(c, was[b]);
    PlacedRemove(chains, placed, b, m, k);
    Apart(chains, placed, b);
    assert forall x :: x in c ==> x in placed;
    label before:
    var bucket := buckets[b];
    var head := UnlinkChain(c, m, bucket.head, item);
    forall b' | 0 <= b' < n && b' != b ensures ChainOk(chains[b'], was[b']) {
      assert old@before(ChainOk(chains[b'], was[b']));
      assert forall x :: x in chains[b'] ==> x.hhNext == old@before(x.hhNext) && x.hhPrev == old@before(x.hhPrev);
    }
    buckets[b] := bucket.(count := bucket.count - 1, head := head);
    chains' := chains[b := Without(c, m)];
    assert buckets[..] == was[b := buckets[b]];
  }

  // ---------- bucket expansion ----------

  /** Items whose position in their chain is beyond the ideal length. */
  ghost function Excess(chains: seq<seq<Item>>, ideal: nat): (n: nat)
  {
    if chains == [] then 0
    else (if |chains[0]| > ideal then |chains[0]| - ideal else 0) + Excess(chains[1..], ideal)
  }

  /** The multiplier of a bucket says how often its chain exceeds the ideal length. */
  ghost predicate Multiplied(buckets: seq<Bucket>, ideal: nat)
    requires ideal >= 1
  {
    forall b :: 0 <= b < |buckets| ==>
      buckets[b].expandMult == if buckets[b].count > ideal then buckets[b].count / ideal else 0
  }

  lemma {:induction false} ExcessPush(chains: seq<seq<Item>>, b: nat, x: Item, ideal: nat)
    requires b < |chains|
    ensures Excess(chains[b := [x] + chains[b]], ideal)
         == Excess(chains, ideal) + if |chains[b]| + 1 > ideal then 1 else 0
  {
    if b == 0 {
      assert chains[b := [x] + chains[b]][1..] == chains[1..];
    } else {
      ExcessPush(chains[1..], b - 1, x, ideal);
      assert chains[b := [x] + chains[b]][1..] == chains[1..][b - 1 := [x] + chains[b]];
    }
  }

  lemma {:induction false} EmptyTable(chains: seq<seq<Item>>, buckets: seq<Bucket>, ideal: nat)
    requires |chains| == |buckets| > 0
    requires forall b :: 0 <= b < |chains| ==> chains[b] == [] && buckets[b] == Bucket(null, 0, 0)
    ensures Held(chains, buckets, []) && Excess(chains, ideal) == 0
  {
    TotalEmpty(chains);
    ExcessEmpty(chains, ideal);
  }

  lemma {:induction false} ExcessEmpty(chains: seq<seq<Item>>, ideal: nat)
    requires forall b :: 0 <= b < |chains| ==> chains[b] == []
    ensures Excess(chains, ideal) == 0
  {
    if chains != [] {
      ExcessEmpty(chains[1..], ideal);
    }
  }

  /** Whether position `m` of old chain `j` is still to be moved at stage (`i`, `k`). */
  predicate Later(j: int, m: int, i: int, k: int)
  {
    j > i || (j == i && m >= k)
  }

  /** Stage (`i`, `k`) of the redistribution: exactly the earlier positions are moved, and
      the others can still be reached through their forward links. */
  ghost predicate Stage(chains: seq<seq<Item>>, placed: seq<Item>, done: seq<Item>, i: nat, k: nat)
    reads (set b, i | 0 <= b < |chains| && 0 <= i < |chains[b]| :: chains[b][i])`hhNext
  {
    && (forall j, m {:trigger chains[j][m]} :: 0 <= j < |chains| && 0 <= m < |chains[j]| ==>
          chains[j][m] in placed && (chains[j][m] in done <==> !Later(j, m, i, k)))
    && (forall j, m {:trigger chains[j][m].hhNext} :: 0 <= j < |chains| && 0 <= m < |chains[j]| && Later(j, m, i, k) ==>
          chains[j][m].hhNext == At(chains[j], m + 1))
    && (forall x :: x in done ==> x in placed)
    && i <= |chains| && |done| == Total(chains[..i]) + k
  }

  lemma {:induction false} TotalPrefix(chains: seq<seq<Item>>, i: nat)
    requires i < |chains|
    ensures Total(chains[..i + 1]) == Total(chains[..i]) + |chains[i]|
  {
    if i == 0 {
      assert chains[..1][1..] == [] && chains[..0] == [];
    } else {
      TotalPrefix(chains[1..], i - 1);
      assert chains[..i + 1][1..] == chains[1..][..i] && chains[..i][1..] == chains[1..][..i - 1];
    }
  }

  lemma {:induction false} StageStart(chains: seq<seq<Item>>, buckets: seq<Bucket>, placed: seq<Item>)
    requires Held(chains, buckets, placed)
    ensures Stage(chains, placed, [], 0, 0)
  {
    assert chains[..0] == [];
    forall j, m | 0 <= j < |chains| && 0 <= m < |chains[j]| ensures chains[j][m].hhNext == At(chains[j], m + 1) {
      assert ChainOk(chains[j], buckets[j]);
    }
  }

  /** The next chain. */
  lemma {:induction false} StageNext(chains: seq<seq<Item>>, placed: seq<Item>, done: seq<Item>, i: nat)
    requires i < |chains| && Stage(chains, placed, done, i, |chains[i]|)
    ensures Stage(chains, placed, done, i + 1, 0)
  {
    TotalPrefix(chains, i);
  }

  /** Everything moved: the new buckets hold the same items. */
  lemma {:induction false} StageDone(chains: seq<seq<Item>>, placed: seq<Item>, done: seq<Item>,
                                     nc: seq<seq<Item>>, nb: seq<Bucket>)
    requires Placed(chains, placed) && Stage(chains, placed, done, |chains|, 0) && Held(nc, nb, done)
    ensures Held(nc, nb, placed)
  {
    hide Total;
    assert chains[..|chains|] == chains;
    forall i | 0 <= i < |placed| ensures placed[i] in done {
      var j := placed[i].hashv % |chains|;
      var m :| 0 <= m < |chains[j]| && chains[j][m] == placed[i];
    }
  }

  /** One item moves to its new bucket, src/uthash.h:824-837. */
  method MoveItem(nb: array<Bucket>, ghost nc: seq<seq<Item>>, item: Item, ideal: nat, nonideal: nat,
                  ghost chains: seq<seq<Item>>, ghost placed: seq<Item>, ghost done: seq<Item>,
                  ghost i: nat, ghost k: nat, ghost log2: nat)
    returns (nonideal': nat, ghost nc': seq<seq<Item>>)
    requires nb.Length == Pow2(log2)
    requires Held(nc, nb[..], done) && ideal >= 1 && nonideal == Excess(nc, ideal) && Multiplied(nb[..], ideal)
    requires Placed(chains, placed) && i < |chains| && k < |chains[i]| && item == chains[i][k] && Distinct(chains[i])
    requires Stage(chains, placed, done, i, k)
    modifies nb, Items(placed)`hhNext, Items(placed)`hhPrev
    ensures |nc'| == |nc| && Held(nc', nb[..], done + [item]) && nonideal' == Excess(nc', ideal)
    ensures Multiplied(nb[..], ideal)
    ensures Stage(chains, placed, done + [item], i, k + 1)
  {
    hide Placed, Total, Excess, Held, Pow2, ToBucket;
    HeldBounds(nc, nb[..], done);
    MaskIsMod(item.hashv, log2);
    var b := ToBucket(item.hashv, nb.Length);
    var bucket := nb[b].(count := nb[b].count + 1, head := item);
    nonideal' := nonideal;
    if bucket.count > ideal {
      nonideal' := nonideal + 1;
      bucket := bucket.(expandMult := bucket.count / ideal);
    }
    ExcessPush(nc, b, item, ideal);
    OnlyHere(chains, placed, i, k);
    nc' := PushInto(nb, nc, b, item, bucket, done);
  }

  lemma {:induction false} HeldBounds(chains: seq<seq<Item>>, buckets: seq<Bucket>, placed: seq<Item>)
    requires Held(chains, buckets, placed)
    ensures |chains| == |buckets| > 0
    ensures forall b :: 0 <= b < |chains| ==> buckets[b].count == |chains[b]|
  {
    forall b | 0 <= b < |chains| ensures buckets[b].count == |chains[b]| {
      assert ChainOk(chains[b], buckets[b]);
    }
  }

  /** An item stands at one position of one chain. */
  lemma {:induction false} OnlyHere(chains: seq<seq<Item>>, placed: seq<Item>, i: nat, k: nat)
    requires Placed(chains, placed) && i < |chains| && k < |chains[i]| && Distinct(chains[i])
    ensures forall j, m {:trigger chains[j][m]} :: 0 <= j < |chains| && 0 <= m < |chains[j]| ==>
              (chains[j][m] == chains[i][k] <==> j == i && m == k)
  {
  }

  /** The items of old chain `i` move, src/uthash.h:822-838. */
  method MoveChain(nb: array<Bucket>, ghost nc0: seq<seq<Item>>, first: Item?, ideal: nat, nonideal0: nat,
                   ghost chains: seq<seq<Item>>, ghost placed: seq<Item>, ghost done0: seq<Item>,
                   ghost i: nat, ghost log2: nat)
    returns (nonideal: nat, ghost nc: seq<seq<Item>>, ghost done: seq<Item>)
    requires nb.Length == Pow2(log2)
    requires Held(nc0, nb[..], done0) && ideal >= 1 && nonideal0 == Excess(nc0, ideal) && Multiplied(nb[..], ideal)
    requires Placed(chains, placed) && i < |chains| && first == At(chains[i], 0) && Distinct(chains[i])
    requires Stage(chains, placed, done0, i, 0)
    modifies nb, Items(placed)`hhNext, Items(placed)`hhPrev
    ensures |nc| == |nc0| && Held(nc, nb[..], done) && nonideal == Excess(nc, ideal) && Multiplied(nb[..], ideal)
    ensures Stage(chains, placed, done, i + 1, 0)
  {
    hide Placed, Total, Excess, Held, Stage, Pow2, Multiplied;
    nonideal, nc, done := nonideal0, nc0, done0;
    var thh := first;
    ghost var k := 0;
    while thh != null
      invariant 0 <= k <= |chains[i]| && thh == At(chains[i], k)
      invariant |nc| == |nc0| && Held(nc, nb[..], done) && nonideal == Excess(nc, ideal) && Multiplied(nb[..], ideal)
      invariant Placed(chains, placed) && Stage(chains, placed, done, i, k)
      decreases |chains[i]| - k
    {
      StageLink(chains, placed, done, i, k);
      var nxt := thh.hhNext;
      nonideal, nc := MoveItem(nb, nc, thh, ideal, nonideal, chains, placed, done, i, k, log2);
      done := done + [thh];
      thh := nxt;
      k := k + 1;
    }
    StageNext(chains, placed, done, i);
  }

  lemma {:induction false} StageLink(chains: seq<seq<Item>>, placed: seq<Item>, done: seq<Item>, i: nat, k: nat)
    requires i < |chains| && k < |chains[i]| && Stage(chains, placed, done, i, k)
    ensures chains[i][k].hhNext == At(chains[i], k + 1)
  {
  }

  /** The body of HASH_EXPAND_BUCKETS, src/uthash.h:814-839: all items move to twice as
      many buckets; `nonideal` counts those beyond the ideal chain length. */
  method Redistribute(buckets: array<Bucket>, ghost chains: seq<seq<Item>>, ghost placed: seq<Item>, ideal: nat,
                      ghost log2: nat)
    returns (nb: array<Bucket>, nonideal: nat, ghost nc: seq<seq<Item>>)
    requires Held(chains, buckets[..], placed) && ideal >= 1 && 2 * |chains| == Pow2(log2)
    modifies Items(placed)`hhNext, Items(placed)`hhPrev
    ensures fresh(nb) && nb.Length == |nc| == 2 * |chains|
    ensures Held(nc, nb[..], placed) && nonideal == Excess(nc, ideal) && Multiplied(nb[..], ideal)
  {
    hide Placed, Total, Excess, Stage, Chained, Pow2;
    HeldBounds(chains, buckets[..], placed);
    nb := new Bucket[2 * buckets.Length](_ => Bucket(null, 0, 0));
    nc := seq(2 * |chains|, _ => []);
    nonideal := 0;
    EmptyTable(nc, nb[..], ideal);
    ghost var done: seq<Item> := [];
    StageStart(chains, buckets[..], placed);
    ghost var was := buckets[..];
    ChainFacts(chains, was, placed);
    var i := 0;
    while i < buckets.Length
      invariant 0 <= i <= buckets.Length && fresh(nb) && buckets[..] == was
      invariant |nc| == 2 * |chains| && Held(nc, nb[..], done) && nonideal == Excess(nc, ideal)
      invariant Multiplied(nb[..], ideal)
      invariant Placed(chains, placed) && Stage(chains, placed, done, i, 0)
    {
      assert buckets[i] == was[i];
      nonideal, nc, done := MoveChain(nb, nc, buckets[i].head, ideal, nonideal, chains, placed, done, i, log2);
      i := i + 1;
    }
    StageDone(chains, placed, done, nc, nb[..]);
    HeldBounds(nc, nb[..], placed);
  }

  lemma {:induction false} ChainFacts(chains: seq<seq<Item>>, buckets: seq<Bucket>, placed: seq<Item>)
    requires Held(chains, buckets, placed)
    ensures |chains| == |buckets| && Placed(chains, placed)
    ensures forall b :: 0 <= b < |chains| ==> Distinct(chains[b]) && buckets[b].head == At(chains[b], 0)
  {
    forall b | 0 <= b < |chains| ensures Distinct(chains[b]) && buckets[b].head == At(chains[b], 0) {
      assert ChainOk(chains[b], buckets[b]);
    }
  }

  /** Ceiling of items over buckets. */
  function Ideal(numItems: nat, numBuckets: nat): (n: nat)
    requires numItems > 0 && numBuckets > 0
  {
    (numItems + numBuckets - 1) / numBuckets
  }

  /** src/uthash.h:819: the ceiling of items over doubled buckets, by shift and mask. */
  method IdealLength(numItems: nat, log2: nat, numBuckets: nat) returns (n: nat)
    requires numItems > 0 && numBuckets == Pow2(log2)
    ensures n == Ideal(numItems, 2 * numBuckets) >= 1
  {
    hide Pow2, ToBucket;
    Pow2Step(log2);
    MaskIsMod(numItems, log2 + 1);
    Ceiling(numItems, Pow2(log2 + 1));
    n := numItems / Pow2(log2 + 1) + if ToBucket(numItems, numBuckets * 2) != 0 then 1 else 0;
  }

  // ---------- the table ----------

  /** The scalar fields of UT_hash_table. */
  datatype Counters = Counters(numBuckets: nat, log2: nat, numItems: nat, idealMax: nat, nonideal: nat,
                               ineff: nat, noexpand: bool)

  /** The head pointer of the application and its UT_hash_table; a null head has no table. */
  class Table {
    const hash: bytes -> nat
    var head: Item?
    var tail: Item?
    var buckets: array<Bucket>
    var tbl: Counters
    ghost var order: seq<Item>
    ghost var chains: seq<seq<Item>>

    /** The application-order half of HASH_FSCK, src/uthash.h:424-438. */
    ghost predicate ListOk()
      reads this, order`next, order`prev
    {
      && Distinct(order) && Linked(order)
      && head == At(order, 0) && tail == At(order, |order| - 1) && tbl.numItems == |order|
    }

    /** The bucket half of HASH_FSCK, src/uthash.h:404-423, for the items of `placed`. */
    ghost predicate BucketsOk(placed: seq<Item>)
      reads this, buckets, placed`hashv,
            (set b, i | 0 <= b < |chains| && 0 <= i < |chains[b]| :: chains[b][i])`hhNext,
            (set b, i | 0 <= b < |chains| && 0 <= i < |chains[b]| :: chains[b][i])`hhPrev
    {
      && buckets.Length == |chains| == tbl.numBuckets == Pow2(tbl.log2)
      && Held(chains, buckets[..], placed)
    }

    ghost predicate Hashed(s: seq<Item>)
      reads s`hashv
    {
      forall i :: 0 <= i < |s| ==> s[i].hashv == hash(s[i].key)
    }

    ghost predicate Valid()
      reads this, buckets, order`next, order`prev, order`hashv,
            (set b, i | 0 <= b < |chains| && 0 <= i < |chains[b]| :: chains[b][i])`hhNext,
            (set b, i | 0 <= b < |chains| && 0 <= i < |chains[b]| :: chains[b][i])`hhPrev
    {
      && (head == null <==> order == [])
      && Hashed(order)
      && (order != [] ==> ListOk() && BucketsOk(order))
    }

    /** The item a search finds: of several with the key, the first in its chain. */
    ghost function Chosen(key: bytes): (x: Item?)
      requires Valid()
      reads this, buckets, order`next, order`prev, order`hashv,
            (set b, i | 0 <= b < |chains| && 0 <= i < |chains[b]| :: chains[b][i])`hhNext,
            (set b, i | 0 <= b < |chains| && 0 <= i < |chains[b]| :: chains[b][i])`hhPrev
    {
      if order == [] then null else FirstWith(chains[hash(key) % |chains|], key)
    }

    /** What the application sees of a valid table. */
    lemma {:induction false} Outline()
      requires Valid()
      ensures Distinct(order) && head == At(order, 0) && (order != [] ==> tbl.numItems == |order|)
      ensures forall k {:trigger order[k].next} :: 0 <= k < |order| ==> order[k].next == At(order, k + 1)
    {
      hide Held, Pow2;
    }

    constructor (hash: bytes -> nat)
      ensures Valid() && order == [] && this.hash == hash && fresh(buckets)
    {
      this.hash := hash;
      head, tail := null, null;
      buckets := new Bucket[0];
      tbl := Counters(0, 0, 0, 0, 0, 0, false);
      order, chains := [], [];
    }

    /** HASH_EXPAND_BUCKETS, src/uthash.h:808-850. */
    method Expand(ghost placed: seq<Item>)
      requires BucketsOk(placed) && placed != [] && tbl.numItems == |placed|
      modifies this`buckets, this`chains, this`tbl, Items(placed)`hhNext, Items(placed)`hhPrev
      ensures BucketsOk(placed) && fresh(buckets)
      ensures tbl.numBuckets == 2 * old(tbl).numBuckets && tbl.log2 == old(tbl).log2 + 1
      ensures tbl.numItems == old(tbl).numItems
      ensures tbl.idealMax == Ideal(tbl.numItems, tbl.numBuckets) >= 1
      ensures tbl.nonideal == Excess(chains, tbl.idealMax) && Multiplied(buckets[..], tbl.idealMax)
      ensures tbl.ineff == (if tbl.nonideal > tbl.numItems / 2 then old(tbl).ineff + 1 else 0)
      ensures tbl.noexpand == (old(tbl).noexpand || tbl.ineff > 1)
    {
      hide Held, Excess, Pow2, Ideal, Multiplied;
      Pow2Step(tbl.log2);
      var ideal := IdealLength(tbl.numItems, tbl.log2, tbl.numBuckets);
      var nb, nonideal, nc := Redistribute(buckets, chains, placed, ideal, tbl.log2 + 1);
      var ineff := if nonideal > tbl.numItems / 2 then tbl.ineff + 1 else 0;
      tbl := Counters(tbl.numBuckets * 2, tbl.log2 + 1, tbl.numItems, ideal, nonideal, ineff,
                      tbl.noexpand || ineff > 1);
      buckets, chains := nb, nc;
    }

    /** HASH_MAKE_TABLE, src/uthash.h:179-197, for the first item. */
    method MakeTable(item: Item)
      modifies this, item`next, item`prev
      ensures fresh(buckets) && head == tail == item && item.next == item.prev == null
      ensures tbl == Counters(32, 5, 0, 0, 0, 0, false) && buckets.Length == 32
      ensures forall b :: 0 <= b < 32 ==> buckets[b] == Bucket(null, 0, 0)
      ensures BucketsOk([]) && order == old(order)
    {
      hide Held, Pow2;
      item.next := null;
      item.prev := null;
      head, tail := item, item;
      buckets := new Bucket[INITIAL_BUCKETS](_ => Bucket(null, 0, 0));
      tbl := Counters(INITIAL_BUCKETS, INITIAL_LOG2, 0, 0, 0, 0, false);
      chains := seq(INITIAL_BUCKETS, _ => []);
      EmptyTable(chains, buckets[..], 0);
      InitialSize();
    }

    /** HASH_ADD_TO_BKT, src/uthash.h:752-764: the buckets are doubled exactly when the chain has reached
        ten times its multiplier and one, and the table still expands. */
    method AddToBucket(item: Item, ghost placed: seq<Item>)
      requires BucketsOk(placed) && item !in placed && tbl.numItems == |placed| + 1
      modifies this`buckets, this`chains, this`tbl, buckets,
               Items(placed + [item])`hhNext, Items(placed + [item])`hhPrev
      ensures BucketsOk(placed + [item]) && (buckets == old(buckets) || fresh(buckets))
      ensures tbl.numItems == old(tbl).numItems
      ensures forall b :: 0 <= b < |old(buckets[..])| && b == item.hashv % old(tbl).numBuckets ==>
                var was := old(buckets[..])[b];
                if was.count + 1 >= (was.expandMult + 1) * 10 && !old(tbl).noexpand
                then tbl.numBuckets == 2 * old(tbl).numBuckets
                else tbl == old(tbl)
                     && buckets[..] == old(buckets[..])[b := was.(count := was.count + 1, head := item)]
    {
      hide Held, Pow2, ToBucket, Excess, Ideal, Multiplied;
      HeldBounds(chains, buckets[..], placed);
      MaskIsMod(item.hashv, tbl.log2);
      var b := ToBucket(item.hashv, tbl.numBuckets);
      var bucket := buckets[b].(count := buckets[b].count + 1, head := item);
      chains := PushInto(buckets, chains, b, item, bucket, placed);
      if bucket.count >= (bucket.expandMult + 1) * CAPACITY_THRESH && !tbl.noexpand {
        Expand(placed + [item]);
      }
    }

    /** The list part of HASH_ADD_KEYPTR_BYHASHVALUE, src/uthash.h:295-307. */
    method LinkLast(item: Item)
      requires Valid() && item !in order
      modifies this, item`hashv, Items(order + [item])`next, Items(order + [item])`prev
      ensures order == old(order) + [item] && ListOk() && Hashed(order) && head != null
      ensures BucketsOk(old(order)) && (buckets == old(buckets) || fresh(buckets))
    {
      hide Held, Pow2;
      item.hashv := hash(item.key);
      if head == null {
        MakeTable(item);
      } else {
        AppendList(order, tail, item);
        assert Held(chains, buckets[..], order);
      }
      assert Linked(order + [item]) && BucketsOk(order);
      Rebook(head, item, order + [item], tbl.numItems + 1, order);
    }

    /** HASH_ADD_KEYPTR, src/uthash.h:292-320: the item goes to the end of the order. */
    method Add(item: Item)
      requires Valid() && item !in order
      modifies this, buckets, item`hashv, Items(order + [item])`next, Items(order + [item])`prev,
               Items(order + [item])`hhNext, Items(order + [item])`hhPrev
      ensures Valid() && order == old(order) + [item] && (buckets == old(buckets) || fresh(buckets))
    {
      hide Held, Pow2;
      ghost var was := order;
      LinkLast(item);
      AddToBucket(item, was);
      assert Linked(order) && Hashed(order);
    }

    /** The list part of HASH_DELETE, src/uthash.h:355-365. */
    method UnlinkItem(del: Item, ghost k: nat)
      requires Valid() && k < |order| && order[k] == del && |order| >= 2
      modifies this`head, this`tail, this`tbl, this`order, Items(order)`next, Items(order)`prev
      ensures order == Without(old(order), k) && ListOk() && Hashed(order) && head != null
      ensures BucketsOk(old(order)) && tbl == old(tbl).(numItems := |order|)
    {
      hide Held, Pow2, Without, Distinct;
      ghost var was, rest := order, Without(order, k);
      var h, t := Unlink(order, k, head, tail, del);
      assert Held(chains, buckets[..], was) && Hashed(rest);
      Rebook(h, t, rest, tbl.numItems - 1, was);
    }

    /** Head, tail and count follow the links. */
    method Rebook(h: Item?, t: Item?, ghost list: seq<Item>, n: nat, ghost placed: seq<Item>)
      requires Distinct(list) && Linked(list) && Hashed(list) && h == At(list, 0) && t == At(list, |list| - 1)
      requires n == |list| && BucketsOk(placed)
      modifies this`head, this`tail, this`tbl, this`order
      ensures order == list && ListOk() && Hashed(order) && head == h
      ensures BucketsOk(placed) && tbl == old(tbl).(numItems := n)
    {
      hide Held, Pow2, Distinct;
      assert Held(chains, buckets[..], placed);
      head, tail, tbl, order := h, t, tbl.(numItems := n), list;
      assert Held(chains, buckets[..], placed) && Linked(list);
    }

    /** The bucket part of HASH_DELETE, src/uthash.h:366-367. */
    method RemoveFromBucket(del: Item, ghost k: nat, ghost placed: seq<Item>)
      requires BucketsOk(placed) && Distinct(placed) && k < |placed| && placed[k] == del
      modifies this`chains, buckets, Items(placed)`hhNext, Items(placed)`hhPrev
      ensures BucketsOk(Without(placed, k))
    {
      hide Held, Pow2, Without, ToBucket;
      MaskIsMod(del.hashv, tbl.log2);
      ghost var m := Position(chains, buckets[..], placed, del);
      var b := ToBucket(del.hashv, tbl.numBuckets);
      chains := RemoveFrom(buckets, chains, b, del, m, k, placed);
    }

    /** HASH_DELETE, src/uthash.h:344-371. */
    method Delete(del: Item, ghost k: nat)
      requires Valid() && k < |order| && order[k] == del
      modifies this, buckets, Items(order)`next, Items(order)`prev, Items(order)`hhNext, Items(order)`hhPrev
      ensures Valid() && order == Without(old(order), k) && buckets == old(buckets)
    {
      hide Without, Distinct, BucketsOk, Hashed;
      LinkedEnds(order, k);
      if del.prev == null && del.next == null {
        head := null;
        order := Without(order, k);
        NothingHashed();
      } else {
        DeleteAmong(del, k);
      }
    }

    lemma {:induction false} NothingHashed()
      ensures Hashed([])
    {
    }

    /** Other items remain: the item leaves both link systems. */
    method DeleteAmong(del: Item, ghost k: nat)
      requires Valid() && k < |order| && order[k] == del && |order| >= 2
      modifies this, buckets, Items(order)`next, Items(order)`prev, Items(order)`hhNext, Items(order)`hhPrev
      ensures Valid() && order == Without(old(order), k) && buckets == old(buckets)
    {
      hide Held, Pow2, Without, Distinct;
      ghost var was := order;
      UnlinkItem(del, k);
      RemoveFromBucket(del, k, was);
      assert Linked(order) && Hashed(order);
    }

    /** HASH_FIND, src/uthash.h:126-143 and 730-749. */
    method Find(key: bytes) returns (out: Item?)
      requires Valid()
      ensures out != null ==> out in order && out.key == key
      ensures out == null ==> forall i :: 0 <= i < |order| ==> order[i].key != key
      ensures out == Chosen(key)
    {
      hide Pow2, ToBucket, Total;
      if head == null {
        return null;
      }
      var h := hash(key);
      MaskIsMod(h, tbl.log2);
      var b := ToBucket(h, tbl.numBuckets);
      ghost var c := chains[b];
      assert ChainOk(c, buckets[..][b]);
      out := buckets[b].head;
      ghost var k := 0;
      while out != null
        invariant 0 <= k <= |c| && out == At(c, k)
        invariant forall i :: 0 <= i < k ==> c[i].key != key
        invariant FirstWith(c, key) == FirstWith(c[k..], key)
        decreases |c| - k
      {
        assert c[k..][1..] == c[k + 1..];
        if out.hashv == h && out.key == key {
          assert c[k] in order;
          return;
        }
        assert c[k] in order;
        out := out.hhNext;
        k := k + 1;
      }
      forall i | 0 <= i < |order| ensures order[i].key != key {
        assert order[i] in chains[order[i].hashv % |chains|];
      }
    }
  }

  lemma {:induction false} LinkedEnds(s: seq<Item>, k: nat)
    requires Linked(s) && k < |s|
    ensures s[k].next == At(s, k + 1) && s[k].prev == At(s, k - 1)
  {
  }

  /** The position of an item in its chain. */
  lemma {:induction false} Position(chains: seq<seq<Item>>, buckets: seq<Bucket>, placed: seq<Item>, x: Item)
    returns (m: nat)
    requires Held(chains, buckets, placed) && x in placed
    ensures |chains| > 0 && m < |chains[x.hashv % |chains|]| && chains[x.hashv % |chains|][m] == x
  {
    var i :| 0 <= i < |placed| && placed[i] == x;
    m :| 0 <= m < |chains[x.hashv % |chains|]| && chains[x.hashv % |chains|][m] == x;
  }

  lemma {:induction false} InitialSize()
    ensures Pow2(INITIAL_LOG2) == INITIAL_BUCKETS
  {
    assert Pow2(2) == 4 && Pow2(4) == 16;
  }
}
