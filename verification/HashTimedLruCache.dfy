/** HashTimedLruCache of ds/timed_lru_cache.h: keys spread over independent
    caches by their hash, as one map. */
module HashTimedLru {
  import opened Prelude
  import opened LruSpec
  import opened TimedLru

  type Hash = int -> nat

  function Shard(h: Hash, k: int, n: nat): (i: nat)
    requires 0 < n
    ensures i < n
  {
    h(k) % n
  }

  /** Two keys share a shard if and only if their hashes differ by a multiple of the number of shards. */
  lemma SameShard(h: Hash, j: int, k: int, n: nat)
    requires 0 < n
    ensures Shard(h, j, n) == Shard(h, k, n) <==> exists q: int :: h(j) == h(k) + q * n
  {
    if Shard(h, j, n) == Shard(h, k, n) {
      var q := h(j) / n - h(k) / n;
      assert h(j) == h(k) + q * n;
    }
    if exists q: int :: h(j) == h(k) + q * n {
      var q: int :| h(j) == h(k) + q * n;
      var d := h(k) / n + q;
      assert h(j) == d * n + h(k) % n;
      Multiple(d, n, h(k) % n);
      DivUnique(h(j), n, d, h(k) % n);
    }
  }

  lemma Multiple(d: int, n: nat, r: nat)
    requires r < n && 0 <= d * n + r
    ensures 0 <= d
  {
    if d < 0 {
      MulMono(1, -d, n);
    }
  }

  /** Rounded up, as the constructor does it. */
  function CeilOf(a: nat, n: nat): (c: nat)
    requires 0 < n
    ensures a <= c * n < a + n
  {
    var q := if a % n == 0 then a / n else a / n + 1;
    assert a == a / n * n + a % n;
    q
  }

  // ----- shards as sequences -----

  /** The operations that reach shard i: its keys, and what goes to every shard. */
  function Reaching<V>(ops: seq<Op<V>>, h: Hash, i: nat, n: nat): (r: seq<Op<V>>)
    requires 0 < n
  {
    if ops == [] then [] else
      var before, op := Reaching(ops[..|ops| - 1], h, i, n), ops[|ops| - 1];
      if Reaches(op, h, i, n) then before + [op] else before
  }

  predicate Reaches<V>(op: Op<V>, h: Hash, i: nat, n: nat)
    requires 0 < n
  {
    match op
    case Set(e) => Shard(h, e.key, n) == i
    case Get(k) => Shard(h, k, n) == i
    case Del(k) => Shard(h, k, n) == i
    case CheckTimeout(_) => true
    case Clear => true
  }

  function StepAll<V>(ss: seq<seq<Entry<V>>>, h: Hash, op: Op<V>, maxSize: nat, elasticity: nat)
    : (r: seq<seq<Entry<V>>>)
    requires 0 < |ss|
    ensures |r| == |ss|
  {
    seq(|ss|, i requires 0 <= i < |ss| =>
      if Reaches(op, h, i, |ss|) then Step(ss[i], op, maxSize, elasticity) else ss[i])
  }

  function RunAll<V>(ops: seq<Op<V>>, h: Hash, n: nat, maxSize: nat, elasticity: nat): (r: seq<seq<Entry<V>>>)
    requires 0 < n
    ensures |r| == n
  {
    if ops == [] then seq(n, _ => [])
    else StepAll(RunAll(ops[..|ops| - 1], h, n, maxSize, elasticity), h, ops[|ops| - 1], maxSize, elasticity)
  }

  lemma RunAllNone<V>(h: Hash, ss: seq<seq<Entry<V>>>, maxSize: nat, elasticity: nat)
    requires 0 < |ss| && forall i :: 0 <= i < |ss| ==> ss[i] == []
    ensures RunAll([], h, |ss|, maxSize, elasticity) == ss
  {
  }

  /** Each shard is a cache of its own, which sees only the operations that reach it. */
  lemma {:induction false} ShardsAreCaches<V>(ops: seq<Op<V>>, h: Hash, i: nat, n: nat, maxSize: nat, elasticity: nat)
    requires i < n
    ensures RunAll(ops, h, n, maxSize, elasticity)[i] == Run(Reaching(ops, h, i, n), maxSize, elasticity)
  {
    if ops != [] {
      var before := Reaching(ops[..|ops| - 1], h, i, n);
      ShardsAreCaches(ops[..|ops| - 1], h, i, n, maxSize, elasticity);
      assert (before + [ops[|ops| - 1]])[..|before|] == before;
    }
  }

  /** Every key is in its own shard only. */
  ghost predicate Placed<V>(ss: seq<seq<Entry<V>>>, h: Hash)
    requires 0 < |ss|
  {
    forall i, e :: 0 <= i < |ss| && e in ss[i] ==> Shard(h, e.key, |ss|) == i
  }

  lemma StepPlaced<V>(ss: seq<seq<Entry<V>>>, h: Hash, op: Op<V>, maxSize: nat, elasticity: nat)
    requires 0 < |ss| && Placed(ss, h)
    ensures Placed(StepAll(ss, h, op, maxSize, elasticity), h)
  {
    forall i, e | 0 <= i < |ss| && e in StepAll(ss, h, op, maxSize, elasticity)[i]
      ensures Shard(h, e.key, |ss|) == i
    {
      if Reaches(op, h, i, |ss|) {
        StepIn(ss[i], op, maxSize, elasticity, e);
      }
    }
  }

  /** An entry behind a step is the one that was set, or was there before. */
  lemma StepIn<V>(s: seq<Entry<V>>, op: Op<V>, maxSize: nat, elasticity: nat, e: Entry<V>)
    requires e in Step(s, op, maxSize, elasticity)
    ensures e in s || (op.Set? && op.e == e)
  {
    match op
    case Set(x) => FilterIn(s, OtherThan(x.key));
    case Get(k) =>
      FilterIn(s, OtherThan(k));
      LookupIn(s, k);
    case Del(k) => FilterIn(s, OtherThan(k));
    case CheckTimeout(t) => FilterIn(s, ExpiresAfter(t));
    case Clear =>
  }

  lemma {:induction false} RunPlaced<V>(ops: seq<Op<V>>, h: Hash, n: nat, maxSize: nat, elasticity: nat)
    requires 0 < n
    ensures Placed(RunAll(ops, h, n, maxSize, elasticity), h)
  {
    if ops != [] {
      RunPlaced(ops[..|ops| - 1], h, n, maxSize, elasticity);
      StepPlaced(RunAll(ops[..|ops| - 1], h, n, maxSize, elasticity), h, ops[|ops| - 1], maxSize, elasticity);
    }
  }

  // ----- one map -----

  ghost function KeySet<V>(s: seq<Entry<V>>): (r: set<int>) {
    set e | e in s :: e.key
  }

  ghost function AllKeys<V>(ss: seq<seq<Entry<V>>>): (r: set<int>) {
    if ss == [] then {} else AllKeys(ss[..|ss| - 1]) + KeySet(ss[|ss| - 1])
  }

  /** The loop of size. */
  function TotalSize<V>(ss: seq<seq<Entry<V>>>): (r: nat) {
    if ss == [] then 0 else TotalSize(ss[..|ss| - 1]) + |ss[|ss| - 1]|
  }

  lemma KeySetCons<V>(s: seq<Entry<V>>)
    requires s != []
    ensures KeySet(s) == {s[0].key} + KeySet(s[1..])
  {
    assert s == [s[0]] + s[1..];
  }

  lemma {:induction false} KeySetSize<V>(s: seq<Entry<V>>)
    requires Unique(s)
    ensures |KeySet(s)| == |s|
  {
    if s != [] {
      KeySetSize(s[1..]);
      KeySetCons(s);
      assert s[0].key !in KeySet(s[1..]) by {
        forall e | e in s[1..] ensures e.key != s[0].key {
          var j :| 0 <= j < |s| - 1 && s[1..][j] == e;
          assert s[j + 1].key != s[0].key;
        }
      }
    }
  }

  lemma {:induction false} AllKeysIn<V>(ss: seq<seq<Entry<V>>>, k: int)
    ensures k in AllKeys(ss) <==> exists i :: 0 <= i < |ss| && k in KeySet(ss[i])
  {
    if ss != [] {
      var init, n := ss[..|ss| - 1], |ss| - 1;
      AllKeysIn(init, k);
      if k in AllKeys(ss) {
        if k in KeySet(ss[n]) {
        } else {
          var i :| 0 <= i < |init| && k in KeySet(init[i]);
          assert k in KeySet(ss[i]);
        }
      } else {
        forall i | 0 <= i < |ss| ensures k !in KeySet(ss[i]) {
          if i < n {
            assert init[i] == ss[i];
          }
        }
      }
    }
  }

  /** Disjoint shards: no key is counted twice. */
  lemma {:induction false} SizeIsCardinality<V>(ss: seq<seq<Entry<V>>>)
    requires forall i :: 0 <= i < |ss| ==> Unique(ss[i])
    requires forall i, j :: 0 <= i < j < |ss| ==> KeySet(ss[i]) !! KeySet(ss[j])
    ensures TotalSize(ss) == |AllKeys(ss)|
  {
    if ss != [] {
      var init, n := ss[..|ss| - 1], |ss| - 1;
      SizeIsCardinality(init);
      KeySetSize(ss[n]);
      forall k | k in AllKeys(init) ensures k !in KeySet(ss[n]) {
        AllKeysIn(init, k);
        var i :| 0 <= i < |init| && k in KeySet(init[i]);
        assert KeySet(ss[i]) !! KeySet(ss[n]);
      }
    }
  }

  /** After every run, a key is found in its own shard or nowhere. */
  lemma KeysOfRun<V>(ops: seq<Op<V>>, h: Hash, n: nat, maxSize: nat, elasticity: nat, k: int)
    requires 0 < n
    ensures k in AllKeys(RunAll(ops, h, n, maxSize, elasticity)) <==>
            Lookup(RunAll(ops, h, n, maxSize, elasticity)[Shard(h, k, n)], k).Some?
  {
    RunPlaced(ops, h, n, maxSize, elasticity);
    FoundInShard(RunAll(ops, h, n, maxSize, elasticity), h, k);
  }

  /** After every run, what was set last is found in its shard, whatever the limit is. */
  lemma JustSetIsFound<V>(ops: seq<Op<V>>, e: Entry<V>, h: Hash, n: nat, maxSize: nat, elasticity: nat)
    requires 0 < n
    ensures Lookup(RunAll(ops + [Op.Set(e)], h, n, maxSize, elasticity)[Shard(h, e.key, n)], e.key) == Some(e)
  {
    var i, more := Shard(h, e.key, n), ops + [Op.Set(e)];
    assert more[..|ops|] == ops;
    ShardsAreCaches(more, h, i, n, maxSize, elasticity);
    SetIsFound(Reaching(ops, h, i, n), e, maxSize, elasticity);
  }

  /** After every run, size counts the keys. */
  lemma SizeOfRun<V>(ops: seq<Op<V>>, h: Hash, n: nat, maxSize: nat, elasticity: nat)
    requires 0 < n
    ensures TotalSize(RunAll(ops, h, n, maxSize, elasticity)) == |AllKeys(RunAll(ops, h, n, maxSize, elasticity))|
  {
    var ss := RunAll(ops, h, n, maxSize, elasticity);
    forall i | 0 <= i < n ensures Unique(ss[i]) {
      ShardsAreCaches(ops, h, i, n, maxSize, elasticity);
      NeverStale(Reaching(ops, h, i, n), 0, maxSize, elasticity);
    }
    RunPlaced(ops, h, n, maxSize, elasticity);
    PlacedDisjoint(ss, h);
    SizeIsCardinality(ss);
  }

  /** After every run with a limit, the total is at most what getMaxAllowedSize says. */
  lemma BoundOfRun<V>(ops: seq<Op<V>>, h: Hash, n: nat, maxSize: nat, elasticity: nat)
    requires 0 < n && 0 < maxSize
    ensures TotalSize(RunAll(ops, h, n, maxSize, elasticity)) <= maxSize * n + elasticity * n
  {
    var ss := RunAll(ops, h, n, maxSize, elasticity);
    forall i | 0 <= i < n ensures |ss[i]| <= maxSize + elasticity {
      ShardsAreCaches(ops, h, i, n, maxSize, elasticity);
      RunSize(Reaching(ops, h, i, n), maxSize, elasticity);
    }
    TotalBound(ss, maxSize + elasticity);
    assert (maxSize + elasticity) * n == maxSize * n + elasticity * n;
  }

  lemma {:induction false} LastSetReaching<V>(ops: seq<Op<V>>, h: Hash, n: nat, k: int)
    requires 0 < n
    ensures LastSet(Reaching(ops, h, Shard(h, k, n), n), k) == LastSet(ops, k)
  {
    if ops != [] {
      LastSetReaching(ops[..|ops| - 1], h, n, k);
      var before := Reaching(ops[..|ops| - 1], h, Shard(h, k, n), n);
      assert (before + [ops[|ops| - 1]])[..|before|] == before;
    }
  }

  /** So the shards together never return a stale value either. */
  lemma ShardsNeverStale<V>(ops: seq<Op<V>>, h: Hash, n: nat, maxSize: nat, elasticity: nat, k: int)
    requires 0 < n
    ensures var found := Lookup(RunAll(ops, h, n, maxSize, elasticity)[Shard(h, k, n)], k);
            found.Some? ==> found == LastSet(ops, k)
  {
    var i := Shard(h, k, n);
    ShardsAreCaches(ops, h, i, n, maxSize, elasticity);
    NeverStale(Reaching(ops, h, i, n), k, maxSize, elasticity);
    LastSetReaching(ops, h, n, k);
  }

  lemma PlacedDisjoint<V>(ss: seq<seq<Entry<V>>>, h: Hash)
    requires 0 < |ss| && Placed(ss, h)
    ensures forall i, j :: 0 <= i < j < |ss| ==> KeySet(ss[i]) !! KeySet(ss[j])
  {
  }

  lemma FoundInShard<V>(ss: seq<seq<Entry<V>>>, h: Hash, k: int)
    requires 0 < |ss| && Placed(ss, h)
    ensures k in AllKeys(ss) <==> Lookup(ss[Shard(h, k, |ss|)], k).Some?
  {
    AllKeysIn(ss, k);
    var b := Shard(h, k, |ss|);
    LookupIn(ss[b], k);
    if Lookup(ss[b], k).Some? {
      assert k in KeySet(ss[b]);
    }
  }

  lemma {:induction false} TotalBound<V>(ss: seq<seq<Entry<V>>>, m: nat)
    requires forall i :: 0 <= i < |ss| ==> |ss[i]| <= m
    ensures TotalSize(ss) <= m * |ss|
  {
    if ss != [] {
      TotalBound(ss[..|ss| - 1], m);
    }
  }

  // ----- the class -----

  /** Caches that share nothing, each with those limits. */
  ghost predicate Separate<V>(cs: seq<TimedLruCache<V>>, maxSize: nat, elasticity: nat)
    reads cs, set c, o | c in cs && o in c.Repr :: o
  {
    && (forall i :: 0 <= i < |cs| ==>
          cs[i].Valid() && cs[i].m_maxSize == maxSize && cs[i].m_elasticity == elasticity)
    && (forall i, j :: 0 <= i < j < |cs| ==> cs[i].Repr !! cs[j].Repr)
  }

  /** What the caches hold. */
  function Views<V>(cs: seq<TimedLruCache<V>>): (ss: seq<seq<Entry<V>>>)
    requires forall c :: c in cs ==> c.Valid()
    reads cs, set c, o | c in cs && o in c.Repr :: o
    ensures |ss| == |cs| && forall i :: 0 <= i < |cs| ==> ss[i] == cs[i].View()
  {
    if cs == [] then [] else
      Views(cs[..|cs| - 1]) + [cs[|cs| - 1].View()]
  }

  /** One operation on one cache; the others do not notice. */
  method DoAt<V>(cs: seq<TimedLruCache<V>>, i: nat, op: Op<V>, ghost maxSize: nat, ghost elasticity: nat)
    returns (out: Outcome<V>)
    requires Separate(cs, maxSize, elasticity) && i < |cs|
    modifies cs[i].Repr
    ensures Separate(cs, maxSize, elasticity) && fresh(cs[i].Repr - old(cs[i].Repr))
    ensures Views(cs) == old(Views(cs))[i := Step(old(Views(cs))[i], op, maxSize, elasticity)]
    ensures out == OutcomeOf(old(Views(cs))[i], op)
    ensures forall j :: 0 <= j < |cs| && j != i ==> cs[j].Repr == old(cs[j].Repr)
  {
    out := Do(cs[i], op);
    forall j | 0 <= j < |cs| && j != i
      ensures cs[j].Valid() && cs[j].Repr == old(cs[j].Repr) && cs[j].View() == old(cs[j].View())
    {
      assert old(cs[j].Repr !! cs[i].Repr);
    }
  }

  /** Steps from shard i on. */
  ghost function StepFrom<V>(ss: seq<seq<Entry<V>>>, i: nat, op: Op<V>, maxSize: nat, elasticity: nat)
    : (r: seq<seq<Entry<V>>>)
    requires i <= |ss|
    ensures |r| == |ss|
    ensures forall j :: 0 <= j < |ss| ==> r[j] == if i <= j then Step(ss[j], op, maxSize, elasticity) else ss[j]
    decreases |ss| - i
  {
    if i == |ss| then ss else StepFrom(ss[i := Step(ss[i], op, maxSize, elasticity)], i + 1, op, maxSize, elasticity)
  }

  /** The same, with whatever the caches own. */
  method DoOne<V>(cs: seq<TimedLruCache<V>>, i: nat, op: Op<V>, ghost maxSize: nat, ghost elasticity: nat,
                  ghost all: set<object>) returns (ghost more: set<object>)
    requires Separate(cs, maxSize, elasticity) && i < |cs| && forall j :: 0 <= j < |cs| ==> cs[j].Repr <= all
    modifies cs[i].Repr
    ensures Separate(cs, maxSize, elasticity) && fresh(more - all)
    ensures all <= more && forall j :: 0 <= j < |cs| ==> cs[j].Repr <= more
    ensures Views(cs) == old(Views(cs))[i := Step(old(Views(cs))[i], op, maxSize, elasticity)]
  {
    var _ := DoAt(cs, i, op, maxSize, elasticity);
    more := all + cs[i].Repr;
  }

  /** The loops of checkTimeout and of clear, from shard i on; all is whatever the caches own. */
  method DoFrom<V>(cs: seq<TimedLruCache<V>>, i: nat, op: Op<V>, ghost maxSize: nat, ghost elasticity: nat,
                   ghost all: set<object>) returns (ghost more: set<object>)
    requires Separate(cs, maxSize, elasticity) && i <= |cs| && forall j :: 0 <= j < |cs| ==> cs[j].Repr <= all
    modifies all
    ensures Separate(cs, maxSize, elasticity) && fresh(more - all)
    ensures all <= more && forall j :: 0 <= j < |cs| ==> cs[j].Repr <= more
    ensures Views(cs) == StepFrom(old(Views(cs)), i, op, maxSize, elasticity)
    decreases |cs| - i
  {
    more := all;
    if i < |cs| {
      ghost var ss := Views(cs);
      more := DoOne(cs, i, op, maxSize, elasticity, all);
      assert StepFrom(ss, i, op, maxSize, elasticity) == StepFrom(Views(cs), i + 1, op, maxSize, elasticity);
      more := DoFrom(cs, i + 1, op, maxSize, elasticity, more);
    }
  }

  /** The loop of the constructor. */
  method MakeCaches<V>(n: nat, maxSize: nat, elasticity: nat)
    returns (cs: seq<TimedLruCache<V>>, ghost owned: set<object>)
    ensures |cs| == n && Separate(cs, maxSize, elasticity) && Views(cs) == seq(n, _ => [])
    ensures fresh(owned) && forall i :: 0 <= i < n ==> cs[i].Repr <= owned
  {
    cs, owned := [], {};
    for i := 0 to n
      invariant |cs| == i && Separate(cs, maxSize, elasticity)
      invariant fresh(owned) && forall j :: 0 <= j < i ==> cs[j].Repr <= owned && cs[j].View() == []
    {
      var c := new TimedLruCache<V>(maxSize, elasticity);
      cs, owned := cs + [c], owned + c.Repr;
    }
  }

  class HashTimedLruCache<V> {
    const m_bucket: nat
    const m_maxSize: nat
    const m_elasticity: nat
    const m_hash: Hash
    const m_datas: seq<TimedLruCache<V>>
    ghost const perMaxSize: nat
    ghost const perElasticity: nat
    ghost var Repr: set<object>

    ghost predicate Valid()
      reads `Repr, m_datas, set c, o | c in m_datas && o in c.Repr :: o
    {
      && this !in Repr && (forall i :: 0 <= i < |m_datas| ==> m_datas[i].Repr <= Repr)
      && 0 < m_bucket == |m_datas|
      && m_maxSize == perMaxSize * m_bucket && m_elasticity == perElasticity * m_bucket
      && Separate(m_datas, perMaxSize, perElasticity) && Placed(Views(m_datas), m_hash)
    }

    function Shards(): (ss: seq<seq<Entry<V>>>)
      requires Valid()
      reads `Repr, m_datas, set c, o | c in m_datas && o in c.Repr :: o
    {
      Views(m_datas)
    }

    constructor (bucket: nat, maxSize: nat, elasticity: nat, hash: Hash)
      requires 0 < bucket
      ensures Valid() && m_hash == hash && m_bucket == bucket && Shards() == seq(bucket, _ => [])
      ensures maxSize <= m_maxSize < maxSize + bucket && elasticity <= m_elasticity < elasticity + bucket
      ensures perMaxSize == CeilOf(maxSize, bucket) && perElasticity == CeilOf(elasticity, bucket)
      ensures fresh(Repr)
    {
      m_bucket, m_hash := bucket, hash;
      var preMaxSize, preElasticity := CeilOf(maxSize, bucket), CeilOf(elasticity, bucket);
      m_maxSize, m_elasticity := preMaxSize * bucket, preElasticity * bucket;
      perMaxSize, perElasticity := preMaxSize, preElasticity;
      var datas, owned := MakeCaches<V>(bucket, preMaxSize, preElasticity);
      m_datas, Repr := datas, owned;
    }

    /** What the key of an operation picks. */
    method Route(op: Op<V>, k: int) returns (out: Outcome<V>)
      requires Valid() && (Uses(op, k) || (op.Del? && op.k == k))
      modifies `Repr, m_datas[Shard(m_hash, k, m_bucket)].Repr
      ensures fresh(Repr - old(Repr))
      ensures Valid() && Shards() == StepAll(old(Shards()), m_hash, op, perMaxSize, perElasticity)
      ensures out == OutcomeOf(old(Shards())[Shard(m_hash, k, m_bucket)], op)
    {
      ghost var ss := Shards();
      var i := Shard(m_hash, k, m_bucket);
      out := DoAt(m_datas, i, op, perMaxSize, perElasticity);
      assert Views(m_datas) == StepAll(ss, m_hash, op, perMaxSize, perElasticity);
      StepPlaced(ss, m_hash, op, perMaxSize, perElasticity);
      Own(Repr + m_datas[i].Repr);
    }

    /** What the caches own now. */
    ghost method Own(more: set<object>)
      requires this !in more && forall i :: 0 <= i < |m_datas| ==> m_datas[i].Repr <= more
      requires 0 < m_bucket == |m_datas|
      requires m_maxSize == perMaxSize * m_bucket && m_elasticity == perElasticity * m_bucket
      requires Separate(m_datas, perMaxSize, perElasticity) && Placed(Views(m_datas), m_hash)
      modifies `Repr
      ensures Valid() && Shards() == old(Views(m_datas)) && Repr == more
    {
      Repr := more;
    }

    method Set(k: int, v: V, expired: uint64, now: uint64)
      requires Valid()
      modifies `Repr, m_datas[Shard(m_hash, k, m_bucket)].Repr
      ensures Valid() && Shards() == StepAll(old(Shards()), m_hash,
        Op.Set(Entry(k, v, (expired + now) % 0x1_0000_0000_0000_0000)), perMaxSize, perElasticity)
    {
      var _ := Route(Op.Set(Entry(k, v, (expired + now) % 0x1_0000_0000_0000_0000)), k);
    }

    /** What get finds is what the union of the shards holds. */
    method Get(k: int) returns (v: Option<V>)
      requires Valid()
      modifies `Repr, m_datas[Shard(m_hash, k, m_bucket)].Repr
      ensures Valid() && Shards() == StepAll(old(Shards()), m_hash, Op.Get(k), perMaxSize, perElasticity)
      ensures v.Some? <==> k in AllKeys(old(Shards()))
      ensures v.Some? ==> Lookup(old(Shards())[Shard(m_hash, k, m_bucket)], k).Some?
                          && v.value == Lookup(old(Shards())[Shard(m_hash, k, m_bucket)], k).value.val
    {
      FoundInShard(Shards(), m_hash, k);
      var out := Route(Op.Get(k), k);
      v := out.val;
    }

    method Del(k: int) returns (b: bool)
      requires Valid()
      modifies `Repr, m_datas[Shard(m_hash, k, m_bucket)].Repr
      ensures Valid() && Shards() == StepAll(old(Shards()), m_hash, Op.Del(k), perMaxSize, perElasticity)
      ensures b <==> k in AllKeys(old(Shards()))
    {
      FoundInShard(Shards(), m_hash, k);
      var out := Route(Op.Del(k), k);
      b := out.ok;
    }

    /** The loop of size counts every key once. */
    method Size() returns (total: nat)
      requires Valid()
      ensures total == |AllKeys(Shards())|
    {
      ghost var ss := Shards();
      forall i | 0 <= i < m_bucket ensures Unique(ss[i]) {
        assert m_datas[i].Valid();
      }
      total := 0;
      for i := 0 to m_bucket
        invariant total == TotalSize(ss[..i])
      {
        var n := m_datas[i].Size();
        assert ss[..i + 1][..i] == ss[..i];
        total := total + n;
      }
      assert ss[..m_bucket] == ss;
      PlacedDisjoint(ss, m_hash);
      SizeIsCardinality(ss);
    }

    /** checkTimeout and clear go to every shard. */
    method All(op: Op<V>)
      requires Valid() && (op.CheckTimeout? || op.Clear?)
      modifies `Repr, Repr
      ensures fresh(Repr - old(Repr))
      ensures Valid() && Shards() == StepAll(old(Shards()), m_hash, op, perMaxSize, perElasticity)
    {
      ghost var ss := Shards();
      ghost var more := DoFrom(m_datas, 0, op, perMaxSize, perElasticity, Repr);
      assert Views(m_datas) == StepAll(ss, m_hash, op, perMaxSize, perElasticity);
      StepPlaced(ss, m_hash, op, perMaxSize, perElasticity);
      Own(more);
    }

    /** Any operation of the interface, on the shards that it reaches. */
    method Apply(op: Op<V>)
      requires Valid()
      modifies `Repr, Repr
      ensures fresh(Repr - old(Repr))
      ensures Valid() && Shards() == StepAll(old(Shards()), m_hash, op, perMaxSize, perElasticity)
    {
      match op
      case Set(e) => var _ := Route(op, e.key);
      case Get(k) => var _ := Route(op, k);
      case Del(k) => var _ := Route(op, k);
      case CheckTimeout(_) => All(op);
      case Clear => All(op);
    }
  }

  /** The operations, one after the other, on a new cache. */
  method ApplyAll<V>(cache: HashTimedLruCache<V>, ops: seq<Op<V>>)
    requires cache.Valid() && forall i :: 0 <= i < cache.m_bucket ==> cache.Shards()[i] == []
    modifies cache, cache.Repr
    ensures cache.Valid() && fresh(cache.Repr - old(cache.Repr))
    ensures cache.Shards() == RunAll(ops, cache.m_hash, cache.m_bucket, cache.perMaxSize, cache.perElasticity)
    decreases |ops|
  {
    if ops == [] {
      RunAllNone(cache.m_hash, cache.Shards(), cache.perMaxSize, cache.perElasticity);
      return;
    }
    ApplyAll(cache, ops[..|ops| - 1]);
    cache.Apply(ops[|ops| - 1]);
  }

  /** A run of operations on a new cache leaves in the shards what RunAll says, and size then counts the keys. */
  method Replay<V>(ops: seq<Op<V>>, bucket: nat, maxSize: nat, elasticity: nat, hash: Hash)
    returns (shards: seq<seq<Entry<V>>>, total: nat)
    requires 0 < bucket
    ensures shards == RunAll(ops, hash, bucket, CeilOf(maxSize, bucket), CeilOf(elasticity, bucket))
    ensures total == |AllKeys(shards)|
  {
    var cache := new HashTimedLruCache<V>(bucket, maxSize, elasticity, hash);
    ApplyAll(cache, ops);
    shards := cache.Shards();
    total := cache.Size();
  }
}
