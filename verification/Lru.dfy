/** The cache of `src/cache.c` as a list of entries, oldest touch first, and what every run
    of its operations keeps. */
module Lru {
  import opened Wrappers
  import opened Bytes

  datatype Entry = Entry(key: bytes, data: nat, ts: real)

  // ---------- the operations on the list ----------

  function IndexOf(s: seq<Entry>, key: bytes): (i: nat)
    ensures i <= |s|
    ensures i < |s| ==> s[i].key == key
    ensures forall j :: 0 <= j < i ==> s[j].key != key
  {
    if s == [] || s[0].key == key then 0 else 1 + IndexOf(s[1..], key)
  }

  function Drop(s: seq<Entry>, i: nat): (r: seq<Entry>)
    requires i < |s|
  {
    s[..i] + s[i + 1..]
  }

  /** cache_insert: append, then give up the oldest entry when the count reaches the limit. */
  function Insert(s: seq<Entry>, e: Entry, max: nat): (r: seq<Entry>)
  {
    if |s| + 1 >= max then (s + [e])[1..] else s + [e]
  }

  /** cache_lookup and cache_key_exist: a found entry becomes the youngest. */
  function Touch(s: seq<Entry>, key: bytes, now: real): (r: seq<Entry>)
  {
    var i := IndexOf(s, key);
    if i == |s| then s else Drop(s, i) + [s[i].(ts := now)]
  }

  /** What a call answers. */
  datatype Answer = Nothing | Data(data: Option<nat>) | Exists(found: bool)

  function Reply(s: seq<Entry>, op: Op): (a: Answer)
  {
    match op
    case LookupOp(key) => Data(Found(s, key))
    case ExistOp(key) => Exists(Has(s, key))
    case _ => Nothing
  }

  /** The data of the first entry with the key. */
  function Found(s: seq<Entry>, key: bytes): (d: Option<nat>)
  {
    var i := IndexOf(s, key);
    if i == |s| then None else Some(s[i].data)
  }

  function Remove(s: seq<Entry>, key: bytes): (r: seq<Entry>)
  {
    var i := IndexOf(s, key);
    if i == |s| then s else Drop(s, i)
  }

  /** cache_clear: entries older than `age` go. */
  function Clear(s: seq<Entry>, now: real, age: real): (r: seq<Entry>)
  {
    if s == [] then [] else (if now - s[0].ts > age then [] else [s[0]]) + Clear(s[1..], now, age)
  }

  // ---------- what holds between operations ----------

  ghost predicate UniqueKeys(s: seq<Entry>)
  {
    forall i, j :: 0 <= i < j < |s| ==> s[i].key != s[j].key
  }

  ghost predicate Sorted(s: seq<Entry>)
  {
    forall i, j :: 0 <= i < j < |s| ==> s[i].ts <= s[j].ts
  }

  /** The list holds fewer entries than the limit (none when the limit is 0). */
  ghost predicate Bounded(s: seq<Entry>, max: nat)
  {
    if max == 0 then s == [] else |s| < max
  }

  datatype Op = InsertOp(key: bytes, data: nat) | LookupOp(key: bytes) | ExistOp(key: bytes)
              | RemoveOp(key: bytes) | ClearOp(age: real)

  /** An operation at a clock reading. */
  datatype Call = Call(op: Op, now: real)

  function Step(s: seq<Entry>, c: Call, max: nat): (r: seq<Entry>)
  {
    match c.op
    case InsertOp(key, data) => Insert(s, Entry(key, data, c.now), max)
    case LookupOp(key) => Touch(s, key, c.now)
    case ExistOp(key) => Touch(s, key, c.now)
    case RemoveOp(key) => Remove(s, key)
    case ClearOp(age) => Clear(s, c.now, age)
  }

  function After(calls: seq<Call>, max: nat): (s: seq<Entry>)
  {
    if calls == [] then [] else Step(After(calls[..|calls| - 1], max), calls[|calls| - 1], max)
  }

  predicate Touches(c: Call, key: bytes)
  {
    (c.op.InsertOp? || c.op.LookupOp? || c.op.ExistOp?) && c.op.key == key
  }

  /** Clock reading of the last call that touched a key. */
  function LastTouch(calls: seq<Call>, key: bytes): (t: Option<real>)
  {
    if calls == [] then None
    else if Touches(calls[|calls| - 1], key) then Some(calls[|calls| - 1].now)
    else LastTouch(calls[..|calls| - 1], key)
  }

  /** Data of the last insert of a key. */
  function LastData(calls: seq<Call>, key: bytes): (d: Option<nat>)
  {
    if calls == [] then None
    else
      var op := calls[|calls| - 1].op;
      if op.InsertOp? && op.key == key then Some(op.data)
      else LastData(calls[..|calls| - 1], key)
  }

  /** Only absent keys are inserted. */
  ghost predicate FreshInserts(calls: seq<Call>, max: nat)
  {
    forall i :: 0 <= i < |calls| && calls[i].op.InsertOp? ==>
      IndexOf(After(calls[..i], max), calls[i].op.key) == |After(calls[..i], max)|
  }

  /** The clock never goes back, and only absent keys are inserted. */
  ghost predicate Proper(calls: seq<Call>, max: nat)
  {
    (forall i, j :: 0 <= i < j < |calls| ==> calls[i].now <= calls[j].now) && FreshInserts(calls, max)
  }

  /** The entry carries the clock reading of the last call that touched its key and the data
      of the last insert of it. */
  ghost predicate Stamped(e: Entry, calls: seq<Call>)
  {
    && calls != [] && e.ts <= calls[|calls| - 1].now
    && LastTouch(calls, e.key) == Some(e.ts) && LastData(calls, e.key) == Some(e.data)
  }

  /** Unique keys, fewer than `max` entries, each stamped with its last touch, oldest first. */
  ghost predicate Good(s: seq<Entry>, calls: seq<Call>, max: nat)
  {
    && UniqueKeys(s) && Sorted(s) && Bounded(s, max)
    && (forall i :: 0 <= i < |s| ==> Stamped(s[i], calls))
  }

  lemma {:induction false} DropKeeps(s: seq<Entry>, i: nat)
    requires i < |s| && UniqueKeys(s) && Sorted(s)
    ensures UniqueKeys(Drop(s, i)) && Sorted(Drop(s, i)) && |Drop(s, i)| == |s| - 1
    ensures forall j :: 0 <= j < |s| - 1 ==> Drop(s, i)[j] == s[if j < i then j else j + 1]
    ensures forall j :: 0 <= j < |s| - 1 ==> Drop(s, i)[j].key != s[i].key
  {
    var r := Drop(s, i);
    forall j, k | 0 <= j < k < |r| ensures r[j].key != r[k].key && r[j].ts <= r[k].ts {
      var j', k' := if j < i then j else j + 1, if k < i then k else k + 1;
      assert r[j] == s[j'] && r[k] == s[k'];
    }
  }

  lemma {:induction false} SuffixKeeps(s: seq<Entry>, k: nat)
    requires k <= |s| && UniqueKeys(s) && Sorted(s)
    ensures UniqueKeys(s[k..]) && Sorted(s[k..])
  {
  }

  lemma {:induction false} AppendKeeps(s: seq<Entry>, e: Entry)
    requires UniqueKeys(s) && Sorted(s)
    requires forall i :: 0 <= i < |s| ==> s[i].key != e.key && s[i].ts <= e.ts
    ensures UniqueKeys(s + [e]) && Sorted(s + [e])
  {
  }

  /** A call that does not touch the entry's key leaves its stamp right. */
  lemma {:induction false} StampKept(e: Entry, calls: seq<Call>, c: Call)
    requires Stamped(e, calls) && !Touches(c, e.key)
    requires forall i :: 0 <= i < |calls| ==> calls[i].now <= c.now
    ensures Stamped(e, calls + [c]) && e.ts <= c.now
  {
    assert (calls + [c])[..|calls|] == calls;
  }

  lemma {:induction false} StampInserted(calls: seq<Call>, c: Call)
    requires c.op.InsertOp?
    ensures Stamped(Entry(c.op.key, c.op.data, c.now), calls + [c])
  {
  }

  lemma {:induction false} StampTouched(e: Entry, calls: seq<Call>, c: Call)
    requires Stamped(e, calls) && Touches(c, e.key) && !c.op.InsertOp?
    ensures Stamped(e.(ts := c.now), calls + [c])
  {
    assert (calls + [c])[..|calls|] == calls;
  }

  /** Entries whose keys are not touched keep their stamps. */
  lemma {:induction false} StampsKept(s: seq<Entry>, calls: seq<Call>, c: Call)
    requires forall i :: 0 <= i < |s| ==> Stamped(s[i], calls) && !Touches(c, s[i].key)
    requires forall i :: 0 <= i < |calls| ==> calls[i].now <= c.now
    ensures forall i :: 0 <= i < |s| ==> Stamped(s[i], calls + [c]) && s[i].ts <= c.now
  {
    hide Stamped, Touches;
    forall i | 0 <= i < |s| ensures Stamped(s[i], calls + [c]) && s[i].ts <= c.now {
      StampKept(s[i], calls, c);
    }
  }

  /** On a sorted list, clearing removes exactly the prefix of entries that are too old. */
  lemma {:induction false} ClearIsPrefix(s: seq<Entry>, now: real, age: real) returns (k: nat)
    requires Sorted(s)
    ensures k <= |s| && Clear(s, now, age) == s[k..]
    ensures forall i :: 0 <= i < |s| ==> (i < k <==> now - s[i].ts > age)
  {
    if s == [] {
      k := 0;
    } else if now - s[0].ts > age {
      var m := ClearIsPrefix(s[1..], now, age);
      k := m + 1;
      assert s[1..][m..] == s[k..];
      forall i | 0 <= i < |s| ensures i < k <==> now - s[i].ts > age {
        assert i > 0 ==> s[i] == s[1..][i - 1];
      }
    } else {
      k := 0;
      ClearNone(s, now, age);
    }
  }

  lemma {:induction false} ClearNone(s: seq<Entry>, now: real, age: real)
    requires forall i :: 0 <= i < |s| ==> !(now - s[i].ts > age)
    ensures Clear(s, now, age) == s
  {
    if s != [] {
      ClearNone(s[1..], now, age);
    }
  }

  /** Clearing only from position `p` on. */
  ghost function ClearFrom(s: seq<Entry>, p: nat, now: real, age: real): (r: seq<Entry>)
  {
    if p > |s| then s else s[..p] + Clear(s[p..], now, age)
  }

  lemma {:induction false} ClearStep(s: seq<Entry>, p: nat, now: real, age: real)
    requires p < |s|
    ensures ClearFrom(s, p, now, age) ==
              if now - s[p].ts > age then ClearFrom(Drop(s, p), p, now, age) else ClearFrom(s, p + 1, now, age)
  {
    assert s[p..][1..] == s[p + 1..] == Drop(s, p)[p..];
    assert s[..p] == Drop(s, p)[..p];
    assert s[..p] + ([s[p]] + Clear(s[p + 1..], now, age)) == s[..p + 1] + Clear(s[p + 1..], now, age);
  }

  lemma {:induction false} ClearEnds(s: seq<Entry>, now: real, age: real)
    ensures ClearFrom(s, 0, now, age) == Clear(s, now, age) && ClearFrom(s, |s|, now, age) == s
  {
    assert s[0..] == s && s[..|s|] == s && s[|s|..] == [];
  }

  lemma {:induction false} StepGood(s: seq<Entry>, calls: seq<Call>, c: Call, max: nat)
    requires Good(s, calls, max)
    requires forall i :: 0 <= i < |calls| ==> calls[i].now <= c.now
    requires c.op.InsertOp? ==> IndexOf(s, c.op.key) == |s|
    ensures Good(Step(s, c, max), calls + [c], max)
  {
    hide Good, IndexOf, Clear, Touch, Insert, Remove;
    match c.op
    case InsertOp(key, data) => InsertGood(s, calls, c, max);
    case LookupOp(key) => TouchGood(s, calls, c, max);
    case ExistOp(key) => TouchGood(s, calls, c, max);
    case RemoveOp(key) => RemoveGood(s, calls, c, max);
    case ClearOp(age) => ClearGood(s, calls, c, max);
  }

  lemma {:induction false} InsertGood(s: seq<Entry>, calls: seq<Call>, c: Call, max: nat)
    requires Good(s, calls, max) && c.op.InsertOp?
    requires forall i :: 0 <= i < |calls| ==> calls[i].now <= c.now
    requires IndexOf(s, c.op.key) == |s|
    ensures Good(Insert(s, Entry(c.op.key, c.op.data, c.now), max), calls + [c], max)
  {
    hide Stamped;
    var e := Entry(c.op.key, c.op.data, c.now);
    StampsKept(s, calls, c);
    StampInserted(calls, c);
    AppendKeeps(s, e);
    SuffixKeeps(s + [e], 1);
    hide UniqueKeys, Sorted, IndexOf;
  }

  lemma {:induction false} TouchGood(s: seq<Entry>, calls: seq<Call>, c: Call, max: nat)
    requires Good(s, calls, max) && (c.op.LookupOp? || c.op.ExistOp?)
    requires forall i :: 0 <= i < |calls| ==> calls[i].now <= c.now
    ensures Good(Touch(s, c.op.key, c.now), calls + [c], max)
  {
    hide Stamped;
    var i := IndexOf(s, c.op.key);
    if i == |s| {
      StampsKept(s, calls, c);
    } else {
      var r, e := Drop(s, i), s[i].(ts := c.now);
      DropKeeps(s, i);
      hide Drop, Sorted, UniqueKeys;
      StampsKept(r, calls, c);
      StampTouched(s[i], calls, c);
      AppendKeeps(r, e);
    }
  }

  lemma {:induction false} RemoveGood(s: seq<Entry>, calls: seq<Call>, c: Call, max: nat)
    requires Good(s, calls, max) && c.op.RemoveOp?
    requires forall i :: 0 <= i < |calls| ==> calls[i].now <= c.now
    ensures Good(Remove(s, c.op.key), calls + [c], max)
  {
    hide Stamped;
    StampsKept(s, calls, c);
    var i := IndexOf(s, c.op.key);
    if i < |s| {
      DropKeeps(s, i);
      hide Drop, Sorted, UniqueKeys;
    }
  }

  lemma {:induction false} ClearGood(s: seq<Entry>, calls: seq<Call>, c: Call, max: nat)
    requires Good(s, calls, max) && c.op.ClearOp?
    requires forall i :: 0 <= i < |calls| ==> calls[i].now <= c.now
    ensures Good(Clear(s, c.now, c.op.age), calls + [c], max)
  {
    hide Stamped, Clear;
    StampsKept(s, calls, c);
    var k := ClearIsPrefix(s, c.now, c.op.age);
    SuffixKeeps(s, k);
  }

  /** Every run of proper calls keeps the list good. */
  lemma {:induction false} RunGood(calls: seq<Call>, max: nat)
    requires Proper(calls, max)
    ensures Good(After(calls, max), calls, max)
  {
    if calls != [] {
      var prev, c := calls[..|calls| - 1], calls[|calls| - 1];
      forall i | 0 <= i < |prev| ensures prev[..i] == calls[..i] {
      }
      RunGood(prev, max);
      assert calls == prev + [c] && calls[..|calls| - 1] == prev;
      StepGood(After(prev, max), prev, c, max);
    }
  }

  // ---------- order by the last touching call, whatever the clock ----------

  /** Index of the last call that touched a key, -1 if none did. */
  function Rank(calls: seq<Call>, key: bytes): (r: int)
    ensures -1 <= r < |calls|
  {
    if calls == [] then -1
    else if Touches(calls[|calls| - 1], key) then |calls| - 1
    else Rank(calls[..|calls| - 1], key)
  }

  /** Every key was touched, and the list is ordered strictly by the last touching call. */
  ghost predicate Ranked(s: seq<Entry>, calls: seq<Call>)
  {
    && (forall i :: 0 <= i < |s| ==> Rank(calls, s[i].key) >= 0)
    && (forall i, j :: 0 <= i < j < |s| ==> Rank(calls, s[i].key) < Rank(calls, s[j].key))
  }

  lemma {:induction false} RankStep(calls: seq<Call>, c: Call, key: bytes)
    ensures Rank(calls + [c], key) == if Touches(c, key) then |calls| else Rank(calls, key)
  {
    assert (calls + [c])[..|calls|] == calls;
  }

  lemma {:induction false} RankedUnique(s: seq<Entry>, calls: seq<Call>)
    requires Ranked(s, calls)
    ensures UniqueKeys(s)
  {
    hide Rank;
  }

  /** Entries whose keys are not touched keep their order. */
  lemma {:induction false} RankedKept(s: seq<Entry>, calls: seq<Call>, c: Call)
    requires Ranked(s, calls) && forall i :: 0 <= i < |s| ==> !Touches(c, s[i].key)
    ensures Ranked(s, calls + [c])
  {
    hide Rank, Touches;
    forall i | 0 <= i < |s| ensures Rank(calls + [c], s[i].key) == Rank(calls, s[i].key) {
      RankStep(calls, c, s[i].key);
    }
  }

  lemma {:induction false} RankedDrop(s: seq<Entry>, calls: seq<Call>, i: nat)
    requires Ranked(s, calls) && i < |s|
    ensures Ranked(Drop(s, i), calls) && forall j :: 0 <= j < |s| - 1 ==> Drop(s, i)[j].key != s[i].key
  {
    hide Rank;
    var r := Drop(s, i);
    forall j, k | 0 <= j < k < |r| ensures Rank(calls, r[j].key) < Rank(calls, r[k].key) {
      var j', k' := if j < i then j else j + 1, if k < i then k else k + 1;
      assert r[j] == s[j'] && r[k] == s[k'];
    }
  }

  /** A touched entry goes to the end. */
  lemma {:induction false} RankedAppend(s: seq<Entry>, calls: seq<Call>, c: Call, e: Entry)
    requires Ranked(s, calls) && Touches(c, e.key)
    requires forall i :: 0 <= i < |s| ==> !Touches(c, s[i].key)
    ensures Ranked(s + [e], calls + [c])
  {
    RankedKept(s, calls, c);
    RankStep(calls, c, e.key);
    forall i | 0 <= i < |s| ensures Rank(calls + [c], s[i].key) < |calls| {
      RankStep(calls, c, s[i].key);
    }
    hide Rank;
  }

  lemma {:induction false} ClearMember(s: seq<Entry>, now: real, age: real, i: nat)
    requires i < |Clear(s, now, age)|
    ensures Clear(s, now, age)[i] in s
  {
    var rest := Clear(s[1..], now, age);
    var k := if now - s[0].ts > age then i else i - 1;
    if k >= 0 {
      ClearMember(s[1..], now, age, k);
      assert rest[k] in s[1..];
    }
  }

  lemma {:induction false} RankedClear(s: seq<Entry>, calls: seq<Call>, now: real, age: real)
    requires Ranked(s, calls)
    ensures Ranked(Clear(s, now, age), calls)
  {
    hide Rank;
    if s != [] {
      var rest := Clear(s[1..], now, age);
      RankedClear(s[1..], calls, now, age);
      forall i | 0 <= i < |rest| ensures Rank(calls, s[0].key) < Rank(calls, rest[i].key) {
        ClearMember(s[1..], now, age, i);
      }
      RankedFirst(s[0], rest, calls);
      assert Clear(s, now, age) == (if now - s[0].ts > age then [] else [s[0]]) + rest;
      hide Clear;
      assert [] + rest == rest;
    }
  }

  lemma {:induction false} RankedFirst(e: Entry, s: seq<Entry>, calls: seq<Call>)
    requires Ranked(s, calls) && Rank(calls, e.key) >= 0
    requires forall i :: 0 <= i < |s| ==> Rank(calls, e.key) < Rank(calls, s[i].key)
    ensures Ranked([e] + s, calls)
  {
    hide Rank;
  }

  lemma {:induction false} StepRanked(s: seq<Entry>, calls: seq<Call>, c: Call, max: nat)
    requires Ranked(s, calls) && (c.op.InsertOp? ==> IndexOf(s, c.op.key) == |s|)
    ensures Ranked(Step(s, c, max), calls + [c])
  {
    hide Rank, Ranked, Clear, IndexOf;
    match c.op
    case InsertOp(key, data) =>
      var e := Entry(key, data, c.now);
      RankedAppend(s, calls, c, e);
      RankedSuffix(s + [e], calls + [c]);
    case LookupOp(key) => TouchRanked(s, calls, c);
    case ExistOp(key) => TouchRanked(s, calls, c);
    case RemoveOp(key) =>
      RankedKept(s, calls, c);
      if IndexOf(s, key) < |s| {
        RankedDrop(s, calls + [c], IndexOf(s, key));
      }
    case ClearOp(age) =>
      RankedKept(s, calls, c);
      RankedClear(s, calls + [c], c.now, age);
  }

  lemma {:induction false} RankedSuffix(s: seq<Entry>, calls: seq<Call>)
    requires Ranked(s, calls) && s != []
    ensures Ranked(s[1..], calls)
  {
    hide Rank;
  }

  lemma {:induction false} TouchRanked(s: seq<Entry>, calls: seq<Call>, c: Call)
    requires Ranked(s, calls) && (c.op.LookupOp? || c.op.ExistOp?)
    ensures Ranked(Touch(s, c.op.key, c.now), calls + [c])
  {
    hide Rank, Ranked;
    var i := IndexOf(s, c.op.key);
    if i == |s| {
      RankedKept(s, calls, c);
    } else {
      RankedDrop(s, calls, i);
      hide Drop, IndexOf;
      RankedAppend(Drop(s, i), calls, c, s[i].(ts := c.now));
    }
  }

  /** After every run with fresh inserts, whatever the clock, the list is ordered strictly by the
      last touching call. */
  lemma {:induction false} RunRanked(calls: seq<Call>, max: nat)
    requires FreshInserts(calls, max)
    ensures Ranked(After(calls, max), calls)
  {
    hide Step, Rank, IndexOf;
    if calls != [] {
      var prev, c := calls[..|calls| - 1], calls[|calls| - 1];
      forall i | 0 <= i < |prev| ensures prev[..i] == calls[..i] {
      }
      RunRanked(prev, max);
      assert calls == prev + [c];
      StepRanked(After(prev, max), prev, c, max);
    }
  }

  lemma {:induction false} RunUnique(calls: seq<Call>, max: nat, n: nat)
    requires FreshInserts(calls, max) && n < |calls|
    ensures UniqueKeys(After(calls[..n], max))
    ensures After(calls[..n + 1], max) == Step(After(calls[..n], max), calls[n], max)
  {
    hide Step, IndexOf;
    forall i | 0 <= i <= n ensures calls[..n][..i] == calls[..i] {
    }
    RunRanked(calls[..n], max);
    RankedUnique(After(calls[..n], max), calls[..n]);
    assert calls[..n + 1][..n] == calls[..n];
  }

  /** A full insert evicts exactly the least recently touched entry: every other one was touched
      by a later call. */
  lemma {:induction false} EvictsOldest(calls: seq<Call>, max: nat, e: Entry)
    requires FreshInserts(calls, max) && max >= 2 && |After(calls, max)| + 1 >= max
    ensures var s := After(calls, max);
            && s != [] && Insert(s, e, max) == s[1..] + [e] && Rank(calls, s[0].key) >= 0
            && forall i :: 0 < i < |s| ==> Rank(calls, s[0].key) < Rank(calls, s[i].key)
  {
    RunRanked(calls, max);
    hide Rank, After;
    var s := After(calls, max);
    assert (s + [e])[1..] == s[1..] + [e];
  }

  /** A key found in the cache yields the data last inserted under it. */
  lemma {:induction false} FoundIsLastInserted(calls: seq<Call>, max: nat, key: bytes)
    requires Proper(calls, max)
    ensures var s := After(calls, max);
            Found(s, key) == if Has(s, key) then LastData(calls, key) else None
  {
    RunGood(calls, max);
  }

  predicate Has(s: seq<Entry>, key: bytes)
  {
    exists i :: 0 <= i < |s| && s[i].key == key
  }

  /** When a key that was in the list is gone after a call. */
  ghost predicate Leaves(s: seq<Entry>, calls: seq<Call>, c: Call, max: nat, key: bytes)
  {
    match c.op
    case InsertOp(_, _) => |s| + 1 >= max && s != [] && s[0].key == key
    case RemoveOp(k) => k == key
    case ClearOp(age) => LastTouch(calls, key).Some? && c.now - LastTouch(calls, key).value > age
    case _ => false
  }

  /** A key leaves the cache by removal, by being the oldest at a full insert, or by its last
      touch being too long ago at a clear, and in no other way. It enters by insertion. */
  lemma {:induction false} Membership(calls: seq<Call>, c: Call, max: nat, key: bytes)
    requires Proper(calls + [c], max)
    ensures var s := After(calls, max);
            var r := After(calls + [c], max);
            && (Has(s, key) ==> (Has(r, key) <==> !Leaves(s, calls, c, max, key)))
            && (!Has(s, key) ==> (Has(r, key) <==> c.op.InsertOp? && c.op.key == key && max >= 2))
  {
    var all := calls + [c];
    forall i | 0 <= i <= |calls| ensures calls[..i] == all[..i] {
    }
    assert calls == all[..|calls|] && forall i :: 0 <= i < |calls| ==> calls[i] == all[i];
    RunGood(calls, max);
    MembershipStep(After(calls, max), calls, c, max, key);
  }

  lemma {:induction false} MembershipStep(s: seq<Entry>, calls: seq<Call>, c: Call, max: nat, key: bytes)
    requires Good(s, calls, max) && (c.op.InsertOp? ==> IndexOf(s, c.op.key) == |s|)
    ensures Has(s, key) ==> (Has(Step(s, c, max), key) <==> !Leaves(s, calls, c, max, key))
    ensures !Has(s, key) ==> (Has(Step(s, c, max), key) <==> c.op.InsertOp? && c.op.key == key && max >= 2)
  {
    hide LastTouch, LastData, Sorted, Clear;
    match c.op
    case InsertOp(k, d) => InsertMembers(s, Entry(k, d, c.now), max, key);
    case LookupOp(k) => TouchMembers(s, k, c.now, key);
    case ExistOp(k) => TouchMembers(s, k, c.now, key);
    case RemoveOp(k) => RemoveMembers(s, k, key);
    case ClearOp(age) => ClearMembers(s, c.now, age, key);
  }

  lemma {:induction false} InsertMembers(s: seq<Entry>, e: Entry, max: nat, key: bytes)
    requires UniqueKeys(s) && IndexOf(s, e.key) == |s| && Bounded(s, max)
    ensures Has(Insert(s, e, max), key) <==>
              if |s| + 1 < max then Has(s, key) || key == e.key
              else s != [] && (Has(s, key) || key == e.key) && s[0].key != key
  {
    hide IndexOf;
    var r := Insert(s, e, max);
    if |s| + 1 >= max {
      assert |r| == |s| && forall i :: 1 <= i < |s| ==> r[i - 1] == s[i];
      assert s != [] ==> r[|r| - 1] == e;
    } else {
      assert forall i :: 0 <= i < |s| ==> r[i] == s[i];
      assert r[|s|] == e;
    }
  }

  lemma {:induction false} TouchMembers(s: seq<Entry>, k: bytes, now: real, key: bytes)
    ensures Has(Touch(s, k, now), key) <==> Has(s, key)
  {
    var i := IndexOf(s, k);
    hide IndexOf;
    if i < |s| {
      var r := Touch(s, k, now);
      assert r[|r| - 1].key == k;
      assert forall j :: 0 <= j < i ==> r[j] == s[j];
      assert forall j :: i < j < |s| ==> r[j - 1] == s[j];
    }
  }

  lemma {:induction false} RemoveMembers(s: seq<Entry>, k: bytes, key: bytes)
    requires UniqueKeys(s)
    ensures Has(Remove(s, k), key) <==> Has(s, key) && key != k
  {
    var i := IndexOf(s, k);
    hide IndexOf;
    if i < |s| {
      var r := Remove(s, k);
      assert forall j :: 0 <= j < i ==> r[j] == s[j];
      assert forall j :: i < j < |s| ==> r[j - 1] == s[j];
    }
  }

  lemma {:induction false} ClearMembers(s: seq<Entry>, now: real, age: real, key: bytes)
    requires UniqueKeys(s) && Sorted(s)
    ensures Has(Clear(s, now, age), key) <==> exists i :: 0 <= i < |s| && s[i].key == key && !(now - s[i].ts > age)
  {
    var k := ClearIsPrefix(s, now, age);
    hide Clear, Sorted, UniqueKeys;
    assert forall i :: k <= i < |s| ==> s[k..][i - k] == s[i];
  }

  /** Inserting keeps keys unique exactly when the key is not among the entries kept. */
  lemma {:induction false} InsertUnique(s: seq<Entry>, e: Entry, max: nat)
    requires UniqueKeys(s)
    ensures UniqueKeys(Insert(s, e, max)) <==>
              (|s| + 1 < max ==> forall i :: 0 <= i < |s| ==> s[i].key != e.key)
              && (|s| + 1 >= max ==> forall i :: 1 <= i < |s| ==> s[i].key != e.key)
  {
    var r := Insert(s, e, max);
    if |s| + 1 >= max {
      assert |r| == |s| && forall i :: 1 <= i < |s| ==> r[i - 1] == s[i];
      assert s != [] ==> r[|r| - 1] == e;
    } else {
      assert forall i :: 0 <= i < |s| ==> r[i] == s[i];
      assert r[|s|] == e;
    }
  }
}
