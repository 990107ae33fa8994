/** TimedLruCache of ds/timed_lru_cache.h: a hash map, a recency list and a
    set ordered by expiry that share their nodes, against LruSpec. */
module TimedLru {
  import opened Prelude
  import opened LruSpec
  import opened OrderedSets

  class Item<V> {
    const key: int
    var val: V
    var ts: uint64

    constructor (k: int, v: V, ms: uint64)
      ensures key == k && val == v && ts == ms
    {
      key, val, ts := k, v, ms;
    }
  }

  // ----- nodes -----

  function Stamps<V>(s: seq<Item<V>>): (r: seq<Stamp>)
    reads s
    ensures |r| == |s| && forall i :: 0 <= i < |s| ==> r[i] == Stamp(s[i].ts, s[i].key)
  {
    seq(|s|, i requires 0 <= i < |s| reads s => Stamp(s[i].ts, s[i].key))
  }

  function Entries<V>(s: seq<Item<V>>): (r: seq<Entry<V>>)
    reads s
    ensures |r| == |s| && forall i :: 0 <= i < |s| ==> r[i] == Entry(s[i].key, s[i].val, s[i].ts)
  {
    seq(|s|, i requires 0 <= i < |s| reads s => Entry(s[i].key, s[i].val, s[i].ts))
  }

  ghost predicate DistinctKeys<V>(s: seq<Item<V>>) {
    forall i, j :: 0 <= i < j < |s| ==> s[i].key != s[j].key
  }

  /** The list without node x. */
  function Unlinked<V>(s: seq<Item<V>>, x: Item<V>): (r: seq<Item<V>>) {
    if s == [] then [] else if s[0] == x then s[1..] else [s[0]] + Unlinked(s[1..], x)
  }

  lemma {:induction false} UnlinkedSubset<V>(s: seq<Item<V>>, x: Item<V>)
    ensures forall y :: y in Unlinked(s, x) ==> y in s
  {
    if s != [] && s[0] != x {
      UnlinkedSubset(s[1..], x);
    }
  }

  lemma {:induction false} UnlinkedAt<V>(s: seq<Item<V>>, i: nat)
    requires DistinctKeys(s) && i < |s|
    ensures Unlinked(s, s[i]) == s[..i] + s[i + 1..]
  {
    if i > 0 {
      assert s[0].key != s[i].key;
      UnlinkedAt(s[1..], i - 1);
      assert s[..i] + s[i + 1..] == [s[0]] + (s[1..][..i - 1] + s[1..][i..]);
    }
  }

  lemma UnlinkedNodes<V>(s: seq<Item<V>>, x: Item<V>)
    requires DistinctKeys(s) && x in s
    ensures DistinctKeys(Unlinked(s, x)) && Elements(Unlinked(s, x)) == Elements(s) - {x}
    ensures |Unlinked(s, x)| == |s| - 1
  {
    var i :| 0 <= i < |s| && s[i] == x;
    UnlinkedAt(s, i);
    DropAt(s, i);
  }

  lemma DropEntries<V>(s: seq<Item<V>>, i: nat)
    requires i < |s|
    ensures Entries(s[..i] + s[i + 1..]) == Entries(s)[..i] + Entries(s)[i + 1..]
    ensures Stamps(s[..i] + s[i + 1..]) == Stamps(s)[..i] + Stamps(s)[i + 1..]
  {
  }

  lemma EntriesCons<V>(x: Item<V>, s: seq<Item<V>>)
    ensures Entries([x] + s) == [Entry(x.key, x.val, x.ts)] + Entries(s)
  {
  }

  lemma UnlinkedEntries<V>(s: seq<Item<V>>, x: Item<V>)
    requires DistinctKeys(s) && x in s
    ensures Entries(Unlinked(s, x)) == Without(Entries(s), x.key)
    ensures Lookup(Entries(s), x.key) == Some(Entry(x.key, x.val, x.ts))
  {
    var i :| 0 <= i < |s| && s[i] == x;
    UnlinkedAt(s, i);
    DropEntries(s, i);
    WithoutAt(Entries(s), i);
  }

  lemma SortedDistinct<V>(s: seq<Item<V>>)
    requires Sorted(Stamps(s))
    ensures Distinct(s)
  {
    forall i, j | 0 <= i < j < |s| ensures s[i] != s[j] {
      assert Before(Stamps(s)[i], Stamps(s)[j]);
    }
  }

  lemma TimedTail<V>(s: seq<Item<V>>)
    requires Sorted(Stamps(s)) && s != []
    ensures Sorted(Stamps(s[1..])) && Elements(s[1..]) == Elements(s) - {s[0]}
  {
    SortedDistinct(s);
    DropAt(s, 0);
    DropEntries(s, 0);
    assert s[..0] + s[1..] == s[1..];
  }

  /** set::erase of a node that is in the set: it is looked up by the order. */
  method Erase<V>(timed: seq<Item<V>>, x: Item<V>) returns (r: seq<Item<V>>)
    requires Sorted(Stamps(timed)) && x in timed
    ensures Sorted(Stamps(r)) && Elements(r) == Elements(timed) - {x} && forall y :: y in r ==> y in timed
  {
    var s, t := Stamps(timed), Stamp(x.ts, x.key);
    var i := LowerBound(s, t);
    ghost var j :| 0 <= j < |timed| && timed[j] == x;
    LowerBoundFinds(s, j);
    r := timed;
    if i < |timed| && !Before(t, s[i]) {
      r := timed[..i] + timed[i + 1..];
    }
    SortedDistinct(timed);
    DropAt(timed, i);
    DropEntries(timed, i);
    SortedRemove(s, i);
  }

  lemma InsertStamps<V>(s: seq<Item<V>>, i: nat, x: Item<V>)
    requires i <= |s|
    ensures Stamps(s[..i] + [x] + s[i..]) == Stamps(s)[..i] + [Stamp(x.ts, x.key)] + Stamps(s)[i..]
  {
  }

  /** set::insert; nothing is inserted when an equal node is there. */
  method Insert<V>(timed: seq<Item<V>>, x: Item<V>) returns (r: seq<Item<V>>)
    requires Sorted(Stamps(timed))
    ensures Sorted(Stamps(r))
    ensures if Stamp(x.ts, x.key) in Stamps(timed) then r == timed else Elements(r) == Elements(timed) + {x}
    ensures forall y :: y in r ==> y in timed || y == x
  {
    var s, t := Stamps(timed), Stamp(x.ts, x.key);
    var i := LowerBound(s, t);
    if i < |timed| && !Before(t, s[i]) {
      assert s[i] in s;
      return timed;
    }
    LowerBoundMisses(s, t);
    SortedInsert(s, t);
    InsertAt(timed, i, x);
    InsertStamps(timed, i, x);
    r := timed[..i] + [x] + timed[i..];
  }

  lemma SameEntries<V>(s: seq<Item<V>>, t: seq<Item<V>>)
    requires Elements(s) == Elements(t)
    ensures forall e :: e in Entries(s) <==> e in Entries(t)
  {
    forall e | e in Entries(s) ensures e in Entries(t) {
      SameEntry(s, t, e);
    }
    forall e | e in Entries(t) ensures e in Entries(s) {
      SameEntry(t, s, e);
    }
  }

  lemma SameEntry<V>(s: seq<Item<V>>, t: seq<Item<V>>, e: Entry<V>)
    requires Elements(s) == Elements(t) && e in Entries(s)
    ensures e in Entries(t)
  {
    var i :| 0 <= i < |s| && Entries(s)[i] == e;
    assert s[i] in Elements(t);
    var j :| 0 <= j < |t| && t[j] == s[i];
    assert Entries(t)[j] == e;
  }

  /** When the first k entries in the order of expiry have expired and no other one has, the callbacks for these are
      made with exactly the expired entries. */
  lemma CallbacksAre<V>(s: seq<Entry<V>>, order: seq<Entry<V>>, k: nat, t: uint64, callbacks: seq<(int, V)>)
    requires Unique(s) && (forall e :: e in s <==> e in order) && k == |callbacks| <= |order|
    requires forall i :: 0 <= i < |order| ==> (i < k <==> order[i].ts <= t)
    requires forall i :: 0 <= i < k ==> callbacks[i] == (order[i].key, order[i].val)
    ensures forall e :: e in s ==> (e.ts <= t <==> (e.key, e.val) in callbacks)
  {
    forall e | e in s ensures e.ts <= t <==> (e.key, e.val) in callbacks {
      var i :| 0 <= i < |order| && order[i] == e;
      if (e.key, e.val) in callbacks {
        var j :| 0 <= j < k && callbacks[j] == (e.key, e.val);
        assert order[j] in s;
      }
      if i < k {
        assert callbacks[i] in callbacks;
      }
    }
  }

  // ----- the three containers -----

  /** They hold the same nodes, under the same, unique keys. */
  ghost predicate Shared<V>(cache: map<int, Item<V>>, keys: seq<Item<V>>, timed: seq<Item<V>>) {
    && DistinctKeys(keys) && Elements(timed) == Elements(keys) && |cache| == |keys|
    && (forall k :: k in cache ==> cache[k].key == k && cache[k] in keys)
    && (forall x :: x in keys ==> x.key in cache && cache[x.key] == x)
  }

  lemma NodesIn<V>(s: seq<Item<V>>, t: seq<Item<V>>, x: Item<V>)
    requires Elements(s) == Elements(t)
    ensures x in s <==> x in t
  {
    assert x in s <==> x in Elements(s);
    assert x in t <==> x in Elements(t);
  }

  lemma SharedFront<V>(cache: map<int, Item<V>>, keys: seq<Item<V>>, timed: seq<Item<V>>, x: Item<V>)
    requires Shared(cache, keys, timed) && x in keys
    ensures Shared(cache, [x] + Unlinked(keys, x), timed)
  {
    UnlinkedNodes(keys, x);
    var rest := Unlinked(keys, x);
    var s := [x] + rest;
    forall y ensures y in s <==> y in keys {
      assert y in rest <==> y in Elements(rest);
      assert y in keys <==> y in Elements(keys);
    }
    assert Elements(s) == Elements(keys);
    forall i | 0 <= i < |rest| ensures rest[i].key != x.key {
      assert rest[i] in s && rest[i] in Elements(rest);
    }
  }

  lemma SharedDrop<V>(cache: map<int, Item<V>>, keys: seq<Item<V>>, timed: seq<Item<V>>, x: Item<V>,
        timed': seq<Item<V>>)
    requires Shared(cache, keys, timed) && x in keys && Elements(timed') == Elements(timed) - {x}
    ensures Shared(cache - {x.key}, Unlinked(keys, x), timed')
  {
    UnlinkedNodes(keys, x);
    var rest := Unlinked(keys, x);
    forall y ensures y in rest <==> y in keys && y != x {
      assert y in rest <==> y in Elements(rest);
      assert y in keys <==> y in Elements(keys);
    }
    forall y | y in rest ensures y.key in cache - {x.key} && (cache - {x.key})[y.key] == y {
      assert y in Elements(rest) && y in Elements(keys);
      assert cache[y.key] == y && cache[x.key] == x;
    }
  }

  lemma SharedAdd<V>(cache: map<int, Item<V>>, keys: seq<Item<V>>, timed: seq<Item<V>>, x: Item<V>,
        timed': seq<Item<V>>)
    requires Shared(cache, keys, timed) && x.key !in cache && Elements(timed') == Elements(timed) + {x}
    ensures Shared(cache[x.key := x], [x] + keys, timed')
  {
    forall i | 0 <= i < |keys| ensures keys[i].key != x.key {
      assert keys[i] in keys;
    }
    assert Elements([x] + keys) == {x} + Elements(keys);
  }

  /** No node of the set has the key of one that is not in it, so none is equal to it. */
  lemma StampFree<V>(cache: map<int, Item<V>>, timed: seq<Item<V>>, x: Item<V>)
    requires forall y :: y in timed ==> y != x && y.key in cache && cache[y.key] == y
    requires x.key in cache ==> cache[x.key] == x
    ensures Stamp(x.ts, x.key) !in Stamps(timed)
  {
    forall i | 0 <= i < |timed| ensures Stamps(timed)[i] != Stamp(x.ts, x.key) {
      assert timed[i] in timed;
    }
  }

  lemma Others<V>(cache: map<int, Item<V>>, keys: seq<Item<V>>, timed: seq<Item<V>>, x: Item<V>, rest: seq<Item<V>>)
    requires Shared(cache, keys, timed) && Elements(rest) == Elements(timed) - {x}
    ensures forall y :: y in rest ==> y != x && y.key in cache && cache[y.key] == y
  {
    forall y | y in rest ensures y != x && y in keys {
      assert y in Elements(rest) && y in Elements(keys);
    }
  }

  lemma NodesSubset<V>(cache: map<int, Item<V>>, keys: seq<Item<V>>, timed: seq<Item<V>>)
    requires Shared(cache, keys, timed)
    ensures forall y :: y in timed ==> y in keys && y.key in cache && cache[y.key] == y
  {
    forall y | y in timed ensures y in keys {
      assert y in Elements(timed) && y in Elements(keys);
    }
  }

  // ----- the cache -----

  class TimedLruCache<V> {
    const m_maxSize: nat
    const m_elasticity: nat
    var m_cache: map<int, Item<V>>
    var m_keys: seq<Item<V>>
    var m_timed: seq<Item<V>>
    ghost var Repr: set<object>

    ghost predicate Valid()
      reads this, Repr
      ensures Valid() ==> this in Repr
    {
      && this in Repr && (forall x :: x in m_keys ==> x in Repr) && (forall x :: x in m_timed ==> x in Repr)
      && Shared(m_cache, m_keys, m_timed) && Sorted(Stamps(m_timed))
    }

    /** The entries, the most recently used first. */
    function View(): (r: seq<Entry<V>>)
      requires Valid()
      reads this, Repr
    {
      Entries(m_keys)
    }

    constructor (maxSize: nat, elasticity: nat)
      ensures Valid() && fresh(Repr) && View() == [] && m_maxSize == maxSize && m_elasticity == elasticity
    {
      m_maxSize, m_elasticity := maxSize, elasticity;
      m_cache, m_keys, m_timed, Repr := map[], [], [], {this};
    }

    /** Whether k is in the map is whether an entry has it. */
    lemma Found(k: int)
      requires Valid()
      ensures k in m_cache <==> Lookup(View(), k).Some?
      ensures k in m_cache ==> Lookup(View(), k) == Some(Entry(k, m_cache[k].val, m_cache[k].ts))
    {
      LookupIn(View(), k);
      if k in m_cache {
        UnlinkedEntries(m_keys, m_cache[k]);
      } else {
        forall e | e in View() ensures e.key != k {
          var i :| 0 <= i < |m_keys| && View()[i] == e;
          assert m_keys[i] in m_keys;
        }
      }
    }

    method Reorder(keys: seq<Item<V>>)
      requires Valid() && Shared(m_cache, keys, m_timed) && forall x :: x in keys ==> x in Repr
      modifies `m_keys
      ensures Valid() && m_keys == keys && View() == old(Entries(keys))
    {
      m_keys := keys;
    }

    /** The containers are these from now on. */
    method Hold(cache: map<int, Item<V>>, keys: seq<Item<V>>, timed: seq<Item<V>>)
      requires Shared(cache, keys, timed) && Sorted(Stamps(timed)) && this in Repr
      requires (forall x :: x in keys ==> x in Repr) && (forall x :: x in timed ==> x in Repr)
      modifies `m_cache, `m_keys, `m_timed
      ensures Valid() && m_cache == cache && m_keys == keys && m_timed == timed && View() == old(Entries(keys))
    {
      m_cache, m_keys, m_timed := cache, keys, timed;
    }

    /** The node of k comes to the front of the list. */
    method MoveFront(x: Item<V>)
      requires Valid() && x in m_keys
      modifies `m_keys
      ensures Valid() && View() == [Entry(x.key, x.val, x.ts)] + Without(old(View()), x.key)
      ensures m_keys != [] && m_keys[0] == x
    {
      UnlinkedEntries(m_keys, x);
      SharedFront(m_cache, m_keys, m_timed, x);
      UnlinkedSubset(m_keys, x);
      EntriesCons(x, Unlinked(m_keys, x));
      Reorder([x] + Unlinked(m_keys, x));
    }

    method Get(k: int) returns (v: Option<V>)
      requires Valid()
      modifies `m_keys
      ensures Valid() && View() == GetSpec(old(View()), k)
      ensures v == if Lookup(old(View()), k).Some? then Some(Lookup(old(View()), k).value.val) else None
    {
      Found(k);
      if k !in m_cache {
        return None;
      }
      MoveFront(m_cache[k]);
      v := Some(m_cache[k].val);
    }

    method Exist(k: int) returns (b: bool)
      requires Valid()
      ensures b == Lookup(View(), k).Some?
    {
      Found(k);
      b := k in m_cache;
    }

    method Size() returns (n: nat)
      requires Valid()
      ensures n == |View()|
    {
      n := |m_cache|;
    }

    method Del(k: int) returns (b: bool)
      requires Valid()
      modifies `m_cache, `m_keys, `m_timed
      ensures Valid() && View() == Without(old(View()), k) && b == Lookup(old(View()), k).Some?
    {
      Found(k);
      if k !in m_cache {
        LookupIn(View(), k);
        FilterAll(View(), OtherThan(k));
        return false;
      }
      DropNode(m_cache[k]);
      b := true;
    }

    /** A node leaves all three containers. */
    method DropNode(x: Item<V>)
      requires Valid() && x in m_keys
      modifies `m_cache, `m_keys, `m_timed
      ensures Valid() && View() == Without(old(View()), x.key) && m_keys == Unlinked(old(m_keys), x)
    {
      UnlinkedEntries(m_keys, x);
      NodesIn(m_keys, m_timed, x);
      UnlinkedSubset(m_keys, x);
      var timed := Erase(m_timed, x);
      SharedDrop(m_cache, m_keys, m_timed, x, timed);
      Hold(m_cache - {x.key}, Unlinked(m_keys, x), timed);
    }

    method Clear()
      requires Valid()
      modifies `m_cache, `m_keys, `m_timed
      ensures Valid() && View() == []
    {
      m_cache, m_timed, m_keys := map[], [], [];
    }

    /** The body of the loop of prune: the last node goes. */
    method DropBack() returns (back: Item<V>)
      requires Valid() && m_keys != []
      modifies `m_cache, `m_keys, `m_timed
      ensures Valid() && back == old(m_keys)[|old(m_keys)| - 1] && m_keys == old(m_keys)[..|old(m_keys)| - 1]
      ensures View() == old(View())[..|old(View())| - 1]
    {
      var i := |m_keys| - 1;
      back := m_keys[i];
      UnlinkedAt(m_keys, i);
      DropEntries(m_keys, i);
      assert m_keys[..i] + m_keys[i + 1..] == m_keys[..i];
      NodesIn(m_keys, m_timed, back);
      DropNode(back);
    }

    /** prune; the callbacks are made for the entries that go, from the back. */
    method Prune() returns (callbacks: seq<(int, V)>)
      requires Valid()
      modifies `m_cache, `m_keys, `m_timed
      ensures Valid() && View() == Pruned(old(View()), m_maxSize, m_elasticity)
      ensures callbacks == Dropped(old(View()), |View()|)
    {
      callbacks := [];
      if m_maxSize == 0 || |m_cache| < m_maxSize + m_elasticity {
        return;
      }
      ghost var s := View();
      while |m_cache| > m_maxSize
        invariant Valid() && |m_keys| <= |s| && View() == s[..|m_keys|] && callbacks == Dropped(s, |m_keys|)
        invariant |s| > m_maxSize ==> |m_keys| >= m_maxSize
        invariant |s| <= m_maxSize ==> |m_keys| == |s|
        decreases |m_keys|
      {
        assert View()[|m_keys| - 1] == s[|m_keys| - 1];
        callbacks := callbacks + [(m_keys[|m_keys| - 1].key, m_keys[|m_keys| - 1].val)];
        var _ := DropBack();
      }
    }

    /** An existing node gets a new value and a new expiry; it is out of the timed set while that happens. */
    method Renew(x: Item<V>, v: V, ts: uint64)
      requires Valid() && m_keys != [] && m_keys[0] == x
      modifies `m_timed, x
      ensures Valid() && View() == [Entry(x.key, v, ts)] + old(View())[1..]
    {
      NodesIn(m_keys, m_timed, x);
      var timed := Erase(m_timed, x);
      Others(m_cache, m_keys, m_timed, x, timed);
      x.val := v;
      x.ts := ts;
      StampFree(m_cache, timed, x);
      var timed' := Insert(timed, x);
      m_timed := timed';
    }

    /** A new node for a key that is not there. */
    method Add(k: int, v: V, ts: uint64)
      requires Valid() && k !in m_cache
      modifies this
      ensures Valid() && fresh(Repr - old(Repr)) && View() == [Entry(k, v, ts)] + old(View())
    {
      var x := new Item(k, v, ts);
      AddNode(x);
    }

    method AddNode(x: Item<V>)
      requires Valid() && x.key !in m_cache
      modifies this
      ensures Valid() && m_keys == [x] + old(m_keys) && Repr == old(Repr) + {x}
    {
      NodesSubset(m_cache, m_keys, m_timed);
      StampFree(m_cache, m_timed, x);
      var timed := Insert(m_timed, x);
      SharedAdd(m_cache, m_keys, m_timed, x, timed);
      m_keys := [x] + m_keys;
      m_cache := m_cache[x.key := x];
      m_timed := timed;
      Repr := Repr + {x};
    }

    /** set at time now; the sum of two uint64 values wraps around. */
    method Set(k: int, v: V, expired: uint64, now: uint64) returns (callbacks: seq<(int, V)>)
      requires Valid()
      modifies Repr
      ensures Valid() && fresh(Repr - old(Repr))
      ensures View() == SetSpec(old(View()), Entry(k, v, (expired + now) % 0x1_0000_0000_0000_0000),
                                m_maxSize, m_elasticity)
      ensures callbacks == if Lookup(old(View()), k).Some? then []
                           else Dropped([Entry(k, v, (expired + now) % 0x1_0000_0000_0000_0000)] + old(View()),
                                        |View()|)
    {
      var ts: uint64 := (expired + now) % 0x1_0000_0000_0000_0000;
      Found(k);
      callbacks := [];
      if k in m_cache {
        NodesIn(m_keys, m_timed, m_cache[k]);
        MoveFront(m_cache[k]);
        Renew(m_cache[k], v, ts);
        return;
      }
      Add(k, v, ts);
      callbacks := Prune();
    }

    /** The body of the loop of checkTimeout: the node that expires first goes. */
    method DropFirst(ghost t: uint64)
      requires Valid() && m_timed != [] && m_timed[0].ts <= t
      modifies `m_cache, `m_keys, `m_timed
      ensures Valid() && m_timed == old(m_timed)[1..] && |m_keys| == |old(m_keys)| - 1
      ensures Alive(View(), t) == Alive(old(View()), t)
    {
      var x := m_timed[0];
      NodesIn(m_keys, m_timed, x);
      UnlinkedEntries(m_keys, x);
      assert Alive(Without(View(), x.key), t) == Alive(View(), t) by {
        ExpiredKey(x, t);
        AliveWithout(View(), x.key, t);
      }
      assert |Unlinked(m_keys, x)| == |m_keys| - 1 by { UnlinkedNodes(m_keys, x); }
      UnlinkedSubset(m_keys, x);
      TimedTail(m_timed);
      SharedDrop(m_cache, m_keys, m_timed, x, m_timed[1..]);
      Hold(m_cache - {x.key}, Unlinked(m_keys, x), m_timed[1..]);
    }

    lemma ExpiredKey(x: Item<V>, t: uint64)
      requires Valid() && x in m_keys && x.ts <= t
      ensures forall e :: e in View() && e.key == x.key ==> e.ts <= t
    {
      forall e | e in View() && e.key == x.key ensures e.ts <= t {
        var i :| 0 <= i < |m_keys| && View()[i] == e;
        assert m_keys[i] in m_keys;
      }
    }

    lemma AllAlive(t: uint64)
      requires Valid() && (m_timed != [] ==> m_timed[0].ts > t)
      ensures Alive(View(), t) == View()
    {
      forall e | e in View() ensures e.ts > t {
        var i :| 0 <= i < |m_keys| && View()[i] == e;
        assert m_keys[i] in m_keys;
        NodesIn(m_keys, m_timed, m_keys[i]);
        var j :| 0 <= j < |m_timed| && m_timed[j] == m_keys[i];
        assert j > 0 ==> Before(Stamps(m_timed)[0], Stamps(m_timed)[j]);
      }
      FilterAll(View(), ExpiresAfter(t));
    }

    /** The loop of checkTimeout. */
    method DropExpired(t: uint64) returns (size: nat, callbacks: seq<(int, V)>)
      requires Valid()
      modifies `m_cache, `m_keys, `m_timed
      ensures Valid() && View() == Alive(old(View()), t)
      ensures size == |callbacks| == |old(View())| - |View()| <= |old(m_timed)| && m_timed == old(m_timed)[size..]
      ensures forall i :: 0 <= i < size ==>
                callbacks[i] == (old(m_timed)[i].key, old(m_timed[i].val)) && old(m_timed[i].ts) <= t
      ensures m_timed != [] ==> m_timed[0].ts > t
    {
      ghost var s, timed := View(), m_timed;
      size, callbacks := 0, [];
      while m_timed != [] && m_timed[0].ts <= t
        invariant Valid() && Alive(View(), t) == Alive(s, t)
        invariant size == |callbacks| && size + |m_keys| == |s| && size <= |timed| && m_timed == timed[size..]
        invariant forall i :: 0 <= i < size ==> callbacks[i] == (timed[i].key, timed[i].val) && timed[i].ts <= t
        decreases |m_keys|
      {
        callbacks := callbacks + [(m_timed[0].key, m_timed[0].val)];
        DropFirst(t);
        size := size + 1;
      }
      AllAlive(t);
    }

    /** checkTimeout stops early, but misses nothing; the callbacks are made in the order of expiry, and with exactly
        the expired entries. */
    method CheckTimeout(t: uint64) returns (size: nat, callbacks: seq<(int, V)>)
      requires Valid()
      modifies `m_cache, `m_keys, `m_timed
      ensures Valid() && View() == Alive(old(View()), t)
      ensures size == |callbacks| == |old(View())| - |View()| <= |old(m_timed)| && m_timed == old(m_timed)[size..]
      ensures forall i :: 0 <= i < size ==> callbacks[i] == (old(m_timed)[i].key, old(m_timed[i].val))
      ensures forall e :: e in old(View()) ==> (e.ts <= t <==> (e.key, e.val) in callbacks)
    {
      ghost var s, timed, order := View(), m_timed, Entries(m_timed);
      SameEntries(m_keys, m_timed);
      size, callbacks := DropExpired(t);
      AllLate(timed, size, t);
      CallbacksAre(s, order, size, t, callbacks);
    }

    /** The set is ordered, so nothing behind its first node expires earlier. */
    lemma AllLate(timed: seq<Item<V>>, k: nat, t: uint64)
      requires Valid() && k <= |timed| && m_timed == timed[k..] && (m_timed != [] ==> m_timed[0].ts > t)
      ensures forall i :: k <= i < |timed| ==> timed[i].ts > t
    {
      forall i | k <= i < |timed| ensures timed[i].ts > t {
        assert m_timed[i - k] == timed[i];
        assert i > k ==> Before(Stamps(m_timed)[0], Stamps(m_timed)[i - k]);
      }
    }
  }

  /** What an operation returns. */
  datatype Outcome<+V> = Done | Got(val: Option<V>) | Deleted(ok: bool) | Swept(size: nat)

  function OutcomeOf<V>(s: seq<Entry<V>>, op: Op<V>): (r: Outcome<V>) {
    match op
    case Get(k) => Got(if Lookup(s, k).Some? then Some(Lookup(s, k).value.val) else None)
    case Del(k) => Deleted(Lookup(s, k).Some?)
    case CheckTimeout(t) => Swept(|s| - |Alive(s, t)|)
    case _ => Done
  }

  /** checkTimeout for its result. */
  method Sweep<V>(cache: TimedLruCache<V>, t: uint64) returns (size: nat)
    requires cache.Valid()
    modifies cache`m_cache, cache`m_keys, cache`m_timed
    ensures cache.Valid()
    ensures cache.View() == Alive(old(cache.View()), t) && size == |old(cache.View())| - |cache.View()|
  {
    var n, _ := cache.CheckTimeout(t);
    size := n;
  }

  /** The operations that make no node. */
  method DoInPlace<V>(cache: TimedLruCache<V>, op: Op<V>) returns (out: Outcome<V>)
    requires cache.Valid() && (op.Get? || op.Del? || op.CheckTimeout?)
    modifies cache`m_cache, cache`m_keys, cache`m_timed
    ensures cache.Valid()
    ensures cache.View() == Step(old(cache.View()), op, cache.m_maxSize, cache.m_elasticity)
    ensures out == OutcomeOf(old(cache.View()), op)
  {
    match op
    case Get(k) =>
      var v := cache.Get(k);
      out := Got(v);
    case Del(k) =>
      var ok := cache.Del(k);
      out := Deleted(ok);
    case CheckTimeout(t) =>
      var size := Sweep(cache, t);
      out := Swept(size);
  }

  method Do<V>(cache: TimedLruCache<V>, op: Op<V>) returns (out: Outcome<V>)
    requires cache.Valid()
    modifies cache.Repr
    ensures cache.Valid() && fresh(cache.Repr - old(cache.Repr))
    ensures cache.View() == Step(old(cache.View()), op, cache.m_maxSize, cache.m_elasticity)
    ensures out == OutcomeOf(old(cache.View()), op)
  {
    out := Done;
    match op
    case Set(e) => var _ := cache.Set(e.key, e.val, e.ts, 0);
    case Clear => cache.Clear();
    case _ => out := DoInPlace(cache, op);
  }

  /** A run of operations on a new cache leaves the entries that LruSpec says. */
  method Replay<V>(ops: seq<Op<V>>, maxSize: nat, elasticity: nat) returns (out: seq<Entry<V>>)
    ensures out == Run(ops, maxSize, elasticity)
  {
    var cache := new TimedLruCache<V>(maxSize, elasticity);
    for n := 0 to |ops|
      invariant cache.Valid() && cache.View() == Run(ops[..n], maxSize, elasticity)
      invariant fresh(cache.Repr)
    {
      assert ops[..n + 1][..n] == ops[..n];
      var _ := Do(cache, ops[n]);
    }
    assert ops[..|ops|] == ops;
    out := cache.View();
  }
}
