/** The cache of `src/cache.c`: the entry table with eviction, proved against the list
    operations of `Lru`. The clock reading of `uv_time` is a parameter. */
module Cache {
  import opened Wrappers
  import opened Bytes
  import opened Uthash
  import Lru

  ghost function EntryOf(x: Item): (e: Lru.Entry)
    reads x`ts
  {
    Lru.Entry(x.key, x.data, x.ts)
  }

  ghost function ViewOf(s: seq<Item>): (r: seq<Lru.Entry>)
    reads s`ts
    ensures |r| == |s| && forall i :: 0 <= i < |s| ==> r[i] == EntryOf(s[i])
  {
    if s == [] then [] else [EntryOf(s[0])] + ViewOf(s[1..])
  }

  lemma {:induction false} ViewDrop(s: seq<Item>, k: nat)
    requires k < |s|
    ensures ViewOf(Without(s, k)) == Lru.Drop(ViewOf(s), k)
  {
    hide ViewOf, Without;
  }

  lemma {:induction false} ViewAppend(s: seq<Item>, x: Item)
    ensures ViewOf(s + [x]) == ViewOf(s) + [EntryOf(x)]
  {
    hide ViewOf;
  }

  lemma {:induction false} FirstDropped(s: seq<Lru.Entry>)
    requires s != []
    ensures Lru.Drop(s, 0) == s[1..]
  {
  }

  /** The position of an item in a list. */
  lemma {:induction false} Where(s: seq<Item>, x: Item) returns (k: nat)
    requires x in s
    ensures k < |s| && s[k] == x
  {
    k :| 0 <= k < |s| && s[k] == x;
  }

  lemma {:induction false} UniqueIndex(s: seq<Lru.Entry>, key: bytes, i: nat)
    requires i < |s| && s[i].key == key
    ensures Lru.IndexOf(s, key) < |s|
    ensures Lru.UniqueKeys(s) ==> Lru.IndexOf(s, key) == i
  {
    hide Lru.IndexOf;
  }

  /** The entry at `i` has the key and moved to the end with a new stamp. */
  ghost predicate MovedUp(s: seq<Lru.Entry>, r: seq<Lru.Entry>, key: bytes, now: real, i: nat)
  {
    i < |s| && s[i].key == key && r == Lru.Drop(s, i) + [s[i].(ts := now)]
  }

  ghost predicate Dropped(s: seq<Lru.Entry>, r: seq<Lru.Entry>, key: bytes, i: nat)
  {
    i < |s| && s[i].key == key && r == Lru.Drop(s, i)
  }

  class Cache {
    const maxEntries: nat
    const table: Table

    ghost predicate Valid()
      reads this, table, table.buckets, table.order`next, table.order`prev, table.order`hashv,
            (set b, i | 0 <= b < |table.chains| && 0 <= i < |table.chains[b]| :: table.chains[b][i])`hhNext,
            (set b, i | 0 <= b < |table.chains| && 0 <= i < |table.chains[b]| :: table.chains[b][i])`hhPrev
    {
      table.Valid()
    }

    /** The entries in application order. */
    ghost function View(): (s: seq<Lru.Entry>)
      reads this, table, table.order`ts
      ensures |s| == |table.order|
    {
      ViewOf(table.order)
    }

    /** cache_create. */
    constructor (capacity: nat, hash: bytes -> nat)
      ensures Valid() && View() == [] && maxEntries == capacity && fresh(table) && fresh(table.buckets)
      ensures table.order == []
    {
      maxEntries := capacity;
      table := new Table(hash);
    }

    /** HASH_DEL of an entry. */
    method DropAt(item: Item, ghost k: nat)
      requires Valid() && k < |table.order| && table.order[k] == item
      modifies table, table.buckets, Items(table.order)`next, Items(table.order)`prev,
               Items(table.order)`hhNext, Items(table.order)`hhPrev
      ensures Valid() && View() == Lru.Drop(old(View()), k)
      ensures table.order == Without(old(table.order), k) && table.buckets == old(table.buckets)
    {
      hide ViewOf, Without, Table.ListOk, Table.BucketsOk, Table.Hashed, Lru.Drop;
      ViewDrop(table.order, k);
      table.Delete(item, k);
    }

    /** HASH_ADD_KEYPTR of an entry. */
    method Append(item: Item)
      requires Valid() && item !in table.order
      modifies table, table.buckets, item`hashv, Items(table.order + [item])`next, Items(table.order + [item])`prev,
               Items(table.order + [item])`hhNext, Items(table.order + [item])`hhPrev
      ensures Valid() && View() == old(View()) + [EntryOf(item)]
      ensures table.order == old(table.order) + [item]
      ensures table.buckets == old(table.buckets) || fresh(table.buckets)
    {
      hide ViewOf, Table.ListOk, Table.BucketsOk, Table.Hashed;
      ViewAppend(table.order, item);
      table.Add(item);
    }

    /** cache_insert, src/cache.c:270-309. */
    method Insert(key: bytes, data: nat, now: real)
      requires Valid()
      modifies table, table.buckets, Items(table.order)
      ensures Valid() && View() == Lru.Insert(old(View()), Lru.Entry(key, data, now), maxEntries)
      ensures table.buckets == old(table.buckets) || fresh(table.buckets)
      ensures forall x :: x in table.order ==> x in old(table.order) || fresh(x)
    {
      hide ViewOf, Without, Table.Valid, Lru.Drop;
      var entry := new Item(key, data, now);
      ghost var s := old(View());
      assert Valid() && View() == s;
      Append(entry);
      table.Outline();
      if table.tbl.numItems >= maxEntries {
        FirstDropped(View());
        DropAt(table.head, 0);
      }
    }

    /** What cache_lookup and cache_key_exist do with a found entry, src/cache.c:224-227. */
    method MoveUp(item: Item, now: real, ghost k: nat)
      requires Valid() && k < |table.order| && table.order[k] == item
      modifies table, table.buckets, Items(table.order)
      ensures Valid() && MovedUp(old(View()), View(), item.key, now, k)
      ensures table.buckets == old(table.buckets) || fresh(table.buckets)
      ensures forall x :: x in table.order ==> x in old(table.order) || fresh(x)
    {
      hide ViewOf, Without, Table.ListOk, Table.BucketsOk, Table.Hashed, Lru.Drop;
      table.Outline();
      DropAt(item, k);
      ghost var rest, r := table.order, View();
      assert item !in rest;
      item.ts := now;
      assert View() == r;
      Append(item);
    }

    /** cache_lookup, src/cache.c:213-233: the data of an entry with the key, which moves up. */
    method Lookup(key: bytes, now: real) returns (result: Option<nat>)
      requires Valid()
      modifies table, table.buckets, Items(table.order)
      ensures Valid()
      ensures result == None <==> !Lru.Has(old(View()), key)
      ensures result == None ==> View() == old(View())
      ensures result != None ==>
                exists i: nat :: MovedUp(old(View()), View(), key, now, i) && result.value == old(View())[i].data
                                 && i < |old(table.order)| && old(table.order)[i] == old(table.Chosen(key))
      ensures Lru.UniqueKeys(old(View())) ==> View() == Lru.Touch(old(View()), key, now)
      ensures Lru.UniqueKeys(old(View())) ==> result == Lru.Found(old(View()), key)
      ensures table.buckets == old(table.buckets) || fresh(table.buckets)
      ensures forall x :: x in table.order ==> x in old(table.order) || fresh(x)
    {
      hide ViewOf, Table.ListOk, Table.BucketsOk, Table.Hashed, Lru.IndexOf;
      var tmp := table.Find(key);
      ghost var s := View();
      if tmp != null {
        ghost var k := Where(table.order, tmp);
        assert s[k].key == key;
        UniqueIndex(s, key, k);
        MoveUp(tmp, now, k);
        result := Some(tmp.data);
      } else {
        result := None;
      }
    }

    /** cache_key_exist, src/cache.c:235-252. */
    method KeyExist(key: bytes, now: real) returns (found: bool)
      requires Valid()
      modifies table, table.buckets, Items(table.order)
      ensures Valid()
      ensures found <==> Lru.Has(old(View()), key)
      ensures !found ==> View() == old(View())
      ensures found ==>
                exists i: nat :: MovedUp(old(View()), View(), key, now, i)
                                 && i < |old(table.order)| && old(table.order)[i] == old(table.Chosen(key))
      ensures Lru.UniqueKeys(old(View())) ==> View() == Lru.Touch(old(View()), key, now)
      ensures table.buckets == old(table.buckets) || fresh(table.buckets)
      ensures forall x :: x in table.order ==> x in old(table.order) || fresh(x)
    {
      hide ViewOf, Table.ListOk, Table.BucketsOk, Table.Hashed, Lru.IndexOf;
      var tmp := table.Find(key);
      ghost var s := View();
      if tmp != null {
        ghost var k := Where(table.order, tmp);
        assert s[k].key == key;
        UniqueIndex(s, key, k);
        MoveUp(tmp, now, k);
        found := true;
      } else {
        found := false;
      }
    }

    /** cache_remove, src/cache.c:167-191. */
    method Remove(key: bytes)
      requires Valid()
      modifies table, table.buckets, Items(table.order)
      ensures Valid()
      ensures if !Lru.Has(old(View()), key) then View() == old(View())
              else exists i: nat :: Dropped(old(View()), View(), key, i)
                                    && i < |old(table.order)| && old(table.order)[i] == old(table.Chosen(key))
      ensures Lru.UniqueKeys(old(View())) ==> View() == Lru.Remove(old(View()), key)
      ensures table.buckets == old(table.buckets) || fresh(table.buckets)
      ensures forall x :: x in table.order ==> x in old(table.order) || fresh(x)
    {
      hide ViewOf, Without, Table.ListOk, Table.BucketsOk, Table.Hashed, Lru.IndexOf;
      var tmp := table.Find(key);
      ghost var s := View();
      if tmp != null {
        ghost var k := Where(table.order, tmp);
        assert s[k].key == key;
        UniqueIndex(s, key, k);
        DropAt(tmp, k);
        assert Dropped(s, View(), key, k);
      }
    }

    /** One round of cache_clear: the successor is known before the entry may go. */
    method Visit(entry: Item, tmp: Item?, now: real, age: real, ghost p: nat) returns (tmp': Item?, ghost p': nat)
      requires Valid() && p < |table.order| && entry == table.order[p] && tmp == At(table.order, p + 1)
      modifies table, table.buckets, Items(table.order)`next, Items(table.order)`prev,
               Items(table.order)`hhNext, Items(table.order)`hhPrev
      ensures Valid() && table.buckets == old(table.buckets)
      ensures p' <= |table.order| && |table.order| - p' < old(|table.order|) - p
      ensures tmp == At(table.order, p') && tmp' == At(table.order, p' + 1)
      ensures Lru.ClearFrom(View(), p', now, age) == Lru.ClearFrom(old(View()), p, now, age)
      ensures forall x :: x in table.order ==> x in old(table.order)
    {
      hide ViewOf, Without, Table.Valid, Lru.ClearFrom, Lru.Drop;
      Lru.ClearStep(View(), p, now, age);
      if now - entry.ts > age {
        DropAt(entry, p);
        p' := p;
      } else {
        p' := p + 1;
      }
      table.Outline();
      tmp' := if tmp != null then tmp.next else null;
    }

    /** cache_clear, src/cache.c:125-152, as HASH_ITER walks the table. */
    method Clear(now: real, age: real)
      requires Valid()
      modifies table, table.buckets, Items(table.order)`next, Items(table.order)`prev,
               Items(table.order)`hhNext, Items(table.order)`hhPrev
      ensures Valid() && View() == Lru.Clear(old(View()), now, age)
      ensures table.buckets == old(table.buckets)
      ensures forall x :: x in table.order ==> x in old(table.order)
    {
      hide ViewOf, Table.Valid, Lru.Clear, Lru.ClearFrom;
      table.Outline();
      var entry := table.head;
      var tmp := if entry != null then entry.next else null;
      ghost var p: nat := 0;
      Lru.ClearEnds(View(), now, age);
      while entry != null
        invariant Valid() && table.buckets == old(table.buckets)
        invariant forall x :: x in table.order ==> x in old(table.order)
        invariant p <= |table.order| && entry == At(table.order, p) && tmp == At(table.order, p + 1)
        invariant Lru.ClearFrom(View(), p, now, age) == Lru.Clear(old(View()), now, age)
        decreases |table.order| - p
      {
        var tmp', p' := Visit(entry, tmp, now, age, p);
        entry, tmp, p := tmp, tmp', p';
      }
      Lru.ClearEnds(View(), now, age);
    }
  }

  /** A cache driven by a list of calls from its creation on, whatever the clock. */
  method Serve(calls: seq<Lru.Call>, capacity: nat, hash: bytes -> nat)
    returns (cache: Cache, answers: seq<Lru.Answer>)
    requires Lru.FreshInserts(calls, capacity)
    ensures fresh(cache) && cache.Valid() && cache.View() == Lru.After(calls, capacity)
    ensures |answers| == |calls|
    ensures forall i :: 0 <= i < |calls| ==> answers[i] == Lru.Reply(Lru.After(calls[..i], capacity), calls[i].op)
  {
    hide ViewOf, Cache.Valid, Cache.View, Lru.FreshInserts, Lru.UniqueKeys, Lru.Step, Lru.Reply;
    cache := new Cache(capacity, hash);
    answers := [];
    for n := 0 to |calls|
      invariant fresh(cache) && fresh(cache.table) && fresh(cache.table.buckets) && cache.maxEntries == capacity
      invariant forall x :: x in cache.table.order ==> fresh(x)
      invariant cache.Valid() && cache.View() == Lru.After(calls[..n], capacity)
      invariant |answers| == n
      invariant forall i :: 0 <= i < n ==> answers[i] == Lru.Reply(Lru.After(calls[..i], capacity), calls[i].op)
    {
      Lru.RunUnique(calls, capacity, n);
      assert forall x :: x in cache.table.order ==> fresh(x);
      var answer := Dispatch(cache, calls[n]);
      answers := answers + [answer];
    }
    assert calls[..|calls|] == calls;
  }

  method Dispatch(cache: Cache, c: Lru.Call) returns (answer: Lru.Answer)
    requires cache.Valid() && Lru.UniqueKeys(cache.View())
    modifies cache.table, cache.table.buckets, Items(cache.table.order)
    ensures cache.Valid() && cache.View() == Lru.Step(old(cache.View()), c, cache.maxEntries)
    ensures answer == Lru.Reply(old(cache.View()), c.op)
    ensures cache.table.buckets == old(cache.table.buckets) || fresh(cache.table.buckets)
    ensures forall x :: x in cache.table.order ==> x in old(cache.table.order) || fresh(x)
  {
    hide ViewOf, Table.ListOk, Table.BucketsOk, Table.Hashed;
    hide Lru.IndexOf, Lru.Clear, Lru.Touch, Lru.Remove, Lru.Insert, Lru.Found, Lru.Has;
    answer := Lru.Nothing;
    match c.op
    case InsertOp(key, data) => cache.Insert(key, data, c.now);
    case LookupOp(key) =>
      var data := cache.Lookup(key, c.now);
      answer := Lru.Data(data);
    case ExistOp(key) =>
      var found := cache.KeyExist(key, c.now);
      answer := Lru.Exists(found);
    case RemoveOp(key) => cache.Remove(key);
    case ClearOp(age) => cache.Clear(c.now, age);
  }
}
