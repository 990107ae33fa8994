/** What the cache of ds/timed_lru_cache.h is for: a sequence of entries, the
    most recently used first, and what a run of operations makes of it. */
module LruSpec {
  import opened Prelude

  /** One entry; keys are integers and stand for any totally ordered type. */
  datatype Entry<V> = Entry(key: int, val: V, ts: uint64)

  function Lookup<V>(s: seq<Entry<V>>, k: int): (r: Option<Entry<V>>) {
    if s == [] then None else if s[0].key == k then Some(s[0]) else Lookup(s[1..], k)
  }

  function Filter<V>(s: seq<Entry<V>>, p: Entry<V> -> bool): (r: seq<Entry<V>>)
    ensures |r| <= |s|
  {
    if s == [] then [] else if p(s[0]) then [s[0]] + Filter(s[1..], p) else Filter(s[1..], p)
  }

  function OtherThan<V>(k: int): (r: Entry<V> -> bool) {
    (e: Entry<V>) => e.key != k
  }

  function ExpiresAfter<V>(t: uint64): (r: Entry<V> -> bool) {
    (e: Entry<V>) => e.ts > t
  }

  /** The entries with other keys. */
  function Without<V>(s: seq<Entry<V>>, k: int): (r: seq<Entry<V>>) {
    Filter(s, OtherThan(k))
  }

  /** The entries that expire after t. */
  function Alive<V>(s: seq<Entry<V>>, t: uint64): (r: seq<Entry<V>>) {
    Filter(s, ExpiresAfter(t))
  }

  /** prune does nothing below the allowed size or without a limit; else the maxSize most recently used stay. */
  function Pruned<V>(s: seq<Entry<V>>, maxSize: nat, elasticity: nat): (r: seq<Entry<V>>) {
    if maxSize == 0 || |s| < maxSize + elasticity || |s| <= maxSize then s else s[..maxSize]
  }

  /** What the prune callback gets, the least recently used first, when n entries of s are left. */
  function Dropped<V>(s: seq<Entry<V>>, n: nat): (r: seq<(int, V)>)
    requires n <= |s|
    ensures |r| == |s| - n
  {
    seq(|s| - n, i requires 0 <= i < |s| - n => (s[|s| - 1 - i].key, s[|s| - 1 - i].val))
  }

  function SetSpec<V>(s: seq<Entry<V>>, e: Entry<V>, maxSize: nat, elasticity: nat): (r: seq<Entry<V>>) {
    if Lookup(s, e.key).Some? then [e] + Without(s, e.key) else Pruned([e] + s, maxSize, elasticity)
  }

  function GetSpec<V>(s: seq<Entry<V>>, k: int): (r: seq<Entry<V>>) {
    if Lookup(s, k).Some? then [Lookup(s, k).value] + Without(s, k) else s
  }

  // ----- runs -----

  datatype Op<V> = Set(e: Entry<V>) | Get(k: int) | Del(k: int) | CheckTimeout(t: uint64) | Clear

  function Step<V>(s: seq<Entry<V>>, op: Op<V>, maxSize: nat, elasticity: nat): (r: seq<Entry<V>>) {
    match op
    case Set(e) => SetSpec(s, e, maxSize, elasticity)
    case Get(k) => GetSpec(s, k)
    case Del(k) => Without(s, k)
    case CheckTimeout(t) => Alive(s, t)
    case Clear => []
  }

  /** The entries after all of ops, from an empty cache on. */
  function Run<V>(ops: seq<Op<V>>, maxSize: nat, elasticity: nat): (r: seq<Entry<V>>) {
    if ops == [] then []
    else Step(Run(ops[..|ops| - 1], maxSize, elasticity), ops[|ops| - 1], maxSize, elasticity)
  }

  predicate Uses<V>(op: Op<V>, k: int) {
    (op.Set? && op.e.key == k) || (op.Get? && op.k == k)
  }

  /** When k was used last, counting from 1. */
  function LastUse<V>(ops: seq<Op<V>>, k: int): (n: nat)
    ensures n <= |ops|
  {
    if ops == [] then 0
    else if Uses(ops[|ops| - 1], k) then |ops|
    else LastUse(ops[..|ops| - 1], k)
  }

  /** The entry of the latest set of k that no del or clear follows. */
  function LastSet<V>(ops: seq<Op<V>>, k: int): (r: Option<Entry<V>>) {
    if ops == [] then None
    else
      var op := ops[|ops| - 1];
      if op.Set? && op.e.key == k then Some(op.e)
      else if op == Clear || (op.Del? && op.k == k) then None
      else LastSet(ops[..|ops| - 1], k)
  }

  // ----- facts about filters -----

  /** Strictly descending under u. */
  ghost predicate Recent<V>(s: seq<Entry<V>>, u: int -> nat) {
    forall i, j :: 0 <= i < j < |s| ==> u(s[i].key) > u(s[j].key)
  }

  predicate Unique<V>(s: seq<Entry<V>>) {
    forall i, j :: 0 <= i < j < |s| ==> s[i].key != s[j].key
  }

  lemma {:induction false} FilterIn<V>(s: seq<Entry<V>>, p: Entry<V> -> bool)
    ensures forall e :: e in Filter(s, p) ==> e in s && p(e)
    ensures forall e :: e in s && p(e) ==> e in Filter(s, p)
  {
    if s != [] {
      FilterIn(s[1..], p);
      assert s == [s[0]] + s[1..];
    }
  }

  lemma {:induction false} FilterAt<V>(s: seq<Entry<V>>, p: Entry<V> -> bool, j: nat) returns (i: nat)
    requires j < |Filter(s, p)|
    ensures i < |s| && s[i] == Filter(s, p)[j]
  {
    if !p(s[0]) {
      i := FilterAt(s[1..], p, j);
      i := i + 1;
    } else if j == 0 {
      i := 0;
    } else {
      i := FilterAt(s[1..], p, j - 1);
      i := i + 1;
    }
  }

  lemma {:induction false} FilterRecent<V>(s: seq<Entry<V>>, p: Entry<V> -> bool, u: int -> nat)
    requires Recent(s, u)
    ensures Recent(Filter(s, p), u)
  {
    if s != [] {
      FilterRecent(s[1..], p, u);
      var t := Filter(s[1..], p);
      forall j | 0 <= j < |t| ensures u(s[0].key) > u(t[j].key) {
        var i := FilterAt(s[1..], p, j);
        assert u(s[0].key) > u(s[i + 1].key);
      }
    }
  }

  lemma {:induction false} LookupIn<V>(s: seq<Entry<V>>, k: int)
    ensures Lookup(s, k).Some? ==> Lookup(s, k).value in s && Lookup(s, k).value.key == k
    ensures Lookup(s, k).None? ==> forall e :: e in s ==> e.key != k
  {
    if s != [] {
      LookupIn(s[1..], k);
      assert s == [s[0]] + s[1..];
    }
  }

  lemma {:induction false} WithoutAt<V>(s: seq<Entry<V>>, i: nat)
    requires Unique(s) && i < |s|
    ensures Without(s, s[i].key) == s[..i] + s[i + 1..] && Lookup(s, s[i].key) == Some(s[i])
  {
    if i == 0 {
      forall e | e in s[1..] ensures e.key != s[0].key {
        var j :| 0 <= j < |s| - 1 && s[1..][j] == e;
        assert s[j + 1].key != s[0].key;
      }
      FilterAll(s[1..], OtherThan(s[0].key));
    } else {
      assert s[0].key != s[i].key;
      WithoutAt(s[1..], i - 1);
      assert s[..i] + s[i + 1..] == [s[0]] + (s[1..][..i - 1] + s[1..][i..]);
    }
  }

  /** Dropping expired entries by key first does not change what is alive. */
  lemma {:induction false} AliveWithout<V>(s: seq<Entry<V>>, k: int, t: uint64)
    requires forall e :: e in s && e.key == k ==> e.ts <= t
    ensures Alive(Without(s, k), t) == Alive(s, t)
  {
    if s != [] {
      assert s[0] in s;
      AliveWithout(s[1..], k, t);
      if s[0].key != k {
        assert Without(s, k)[1..] == Without(s[1..], k);
      }
    }
  }

  // ----- every run -----

  lemma RecentCons<V>(e: Entry<V>, s: seq<Entry<V>>, u: int -> nat)
    requires Recent(s, u) && forall x :: x in s ==> u(x.key) < u(e.key)
    ensures Recent([e] + s, u)
  {
    var t := [e] + s;
    forall i, j | 0 <= i < j < |t| ensures u(t[i].key) > u(t[j].key) {
      assert t[j] == s[j - 1] && s[j - 1] in s;
    }
  }

  function UseOf<V>(ops: seq<Op<V>>): (r: int -> nat) {
    k => LastUse(ops, k)
  }

  /** What every run keeps about its entries. */
  ghost predicate Faithful<V>(s: seq<Entry<V>>, ops: seq<Op<V>>) {
    && Recent(s, UseOf(ops))
    && forall e :: e in s ==> LastSet(ops, e.key) == Some(e)
  }

  /** The last operation leaves k alone. */
  predicate Spares<V>(op: Op<V>, k: int) {
    !Uses(op, k) && op != Clear && !(op.Del? && op.k == k)
  }

  /** Entries that the last operation leaves alone. */
  lemma FilterFaithful<V>(s: seq<Entry<V>>, p: Entry<V> -> bool, ops: seq<Op<V>>)
    requires ops != [] && Faithful(s, ops[..|ops| - 1])
    requires forall e :: e in s && p(e) ==> Spares(ops[|ops| - 1], e.key)
    ensures Faithful(Filter(s, p), ops)
  {
    var before, t := ops[..|ops| - 1], Filter(s, p);
    FilterRecent(s, p, UseOf(before));
    FilterIn(s, p);
    forall e | e in t ensures UseOf(ops)(e.key) == UseOf(before)(e.key) && LastSet(ops, e.key) == Some(e) {
      assert e in s && p(e);
      assert Spares(ops[|ops| - 1], e.key);
      assert LastUse(ops, e.key) == LastUse(before, e.key);
    }
    forall i, j | 0 <= i < j < |t| ensures UseOf(ops)(t[i].key) > UseOf(ops)(t[j].key) {
      assert t[i] in t && t[j] in t;
    }
  }

  /** The entry that the last operation uses comes to the front. */
  lemma FrontFaithful<V>(e: Entry<V>, t: seq<Entry<V>>, ops: seq<Op<V>>)
    requires ops != [] && Faithful(t, ops) && Uses(ops[|ops| - 1], e.key) && LastSet(ops, e.key) == Some(e)
    requires forall x :: x in t ==> x.key != e.key
    ensures Faithful([e] + t, ops)
  {
    RecentCons(e, t, UseOf(ops));
  }

  lemma {:induction false} FilterAll<V>(s: seq<Entry<V>>, p: Entry<V> -> bool)
    requires forall e :: e in s ==> p(e)
    ensures Filter(s, p) == s
  {
    if s != [] {
      assert s[0] in s;
      FilterAll(s[1..], p);
    }
  }

  lemma UseFaithful<V>(s: seq<Entry<V>>, e: Entry<V>, ops: seq<Op<V>>)
    requires ops != [] && Faithful(s, ops[..|ops| - 1])
    requires Uses(ops[|ops| - 1], e.key) && LastSet(ops, e.key) == Some(e)
    ensures Faithful([e] + Without(s, e.key), ops)
    ensures Lookup(s, e.key).None? ==> Without(s, e.key) == s
  {
    LookupIn(s, e.key);
    FilterIn(s, OtherThan(e.key));
    FilterFaithful(s, OtherThan(e.key), ops);
    FrontFaithful(e, Without(s, e.key), ops);
    if Lookup(s, e.key).None? {
      FilterAll(s, OtherThan(e.key));
    }
  }

  lemma PrefixFaithful<V>(s: seq<Entry<V>>, n: nat, ops: seq<Op<V>>)
    requires Faithful(s, ops) && n <= |s|
    ensures Faithful(s[..n], ops)
  {
  }

  lemma StepFaithful<V>(s: seq<Entry<V>>, ops: seq<Op<V>>, maxSize: nat, elasticity: nat)
    requires ops != [] && Faithful(s, ops[..|ops| - 1])
    ensures Faithful(Step(s, ops[|ops| - 1], maxSize, elasticity), ops)
  {
    match ops[|ops| - 1]
    case Set(e) =>
      UseFaithful(s, e, ops);
      if Lookup(s, e.key).None? {
        PrefixFaithful([e] + s, |Pruned([e] + s, maxSize, elasticity)|, ops);
      }
    case Get(k) =>
      LookupIn(s, k);
      if Lookup(s, k).Some? {
        UseFaithful(s, Lookup(s, k).value, ops);
      } else {
        FilterFaithful(s, OtherThan(k), ops);
        FilterAll(s, OtherThan(k));
      }
    case Del(k) =>
      FilterFaithful(s, OtherThan(k), ops);
    case CheckTimeout(t) =>
      FilterFaithful(s, ExpiresAfter(t), ops);
    case Clear =>
  }

  /** In every run the entries are in the order of their last use, and each of them is what was set last. */
  lemma {:induction false} RunFaithful<V>(ops: seq<Op<V>>, maxSize: nat, elasticity: nat)
    ensures Faithful(Run(ops, maxSize, elasticity), ops)
  {
    if ops != [] {
      RunFaithful(ops[..|ops| - 1], maxSize, elasticity);
      StepFaithful(Run(ops[..|ops| - 1], maxSize, elasticity), ops, maxSize, elasticity);
    }
  }

  /** So a key is there at most once, and what a get returns is never stale. */
  lemma NeverStale<V>(ops: seq<Op<V>>, k: int, maxSize: nat, elasticity: nat)
    ensures Unique(Run(ops, maxSize, elasticity))
    ensures Lookup(Run(ops, maxSize, elasticity), k).Some? ==>
              Lookup(Run(ops, maxSize, elasticity), k) == LastSet(ops, k)
  {
    RunFaithful(ops, maxSize, elasticity);
    LookupIn(Run(ops, maxSize, elasticity), k);
  }

  /** The size that a cache with these limits can reach; one more is only there inside set. */
  lemma {:induction false} RunSize<V>(ops: seq<Op<V>>, maxSize: nat, elasticity: nat)
    requires 0 < maxSize
    ensures |Run(ops, maxSize, elasticity)| <= maxSize + Max(elasticity - 1, 0)
  {
    if ops != [] {
      RunSize(ops[..|ops| - 1], maxSize, elasticity);
      var s, op := Run(ops[..|ops| - 1], maxSize, elasticity), ops[|ops| - 1];
      if op.Set? && Lookup(s, op.e.key).Some? {
        WithoutSize(s, op.e.key);
      } else if op.Get? && Lookup(s, op.k).Some? {
        WithoutSize(s, op.k);
      }
    }
  }

  lemma {:induction false} WithoutSize<V>(s: seq<Entry<V>>, k: int)
    requires Lookup(s, k).Some?
    ensures |Without(s, k)| < |s|
  {
    if s[0].key != k {
      WithoutSize(s[1..], k);
    }
  }

  lemma StaysIn<V>(s: seq<Entry<V>>, op: Op<V>, e: Entry<V>, maxSize: nat, elasticity: nat)
    requires maxSize == 0 && !op.CheckTimeout? && op != Clear && !(op.Del? && op.k == e.key)
    requires (op.Set? && op.e.key == e.key && op.e == e) || (e in s && Lookup(s, e.key) == Some(e))
    requires op.Set? && op.e.key == e.key ==> op.e == e
    ensures e in Step(s, op, maxSize, elasticity)
  {
    match op
    case Set(x) => FilterIn(s, OtherThan(x.key));
    case Get(k) => FilterIn(s, OtherThan(k));
    case Del(k) => FilterIn(s, OtherThan(k));
  }

  /** Nothing is dropped but by a del, a clear, a timeout or a prune: without the last two, a get finds what
      was set last. */
  lemma {:induction false} NothingLost<V>(ops: seq<Op<V>>, k: int, maxSize: nat, elasticity: nat)
    requires maxSize == 0 && forall op :: op in ops ==> !op.CheckTimeout?
    ensures Lookup(Run(ops, maxSize, elasticity), k) == LastSet(ops, k)
  {
    if ops != [] {
      var before, op := ops[..|ops| - 1], ops[|ops| - 1];
      assert op in ops;
      NothingLost(before, k, maxSize, elasticity);
      NeverStale(ops, k, maxSize, elasticity);
      var s, t := Run(before, maxSize, elasticity), Run(ops, maxSize, elasticity);
      LookupIn(s, k);
      LookupIn(t, k);
      if LastSet(ops, k).Some? {
        var e := LastSet(ops, k).value;
        assert e in t by { StaysIn(s, op, e, maxSize, elasticity); }
      }
    }
  }

  // ----- what stays -----

  lemma RunMore<V>(ops: seq<Op<V>>, op: Op<V>, maxSize: nat, elasticity: nat)
    ensures Run(ops + [op], maxSize, elasticity) == Step(Run(ops, maxSize, elasticity), op, maxSize, elasticity)
  {
    assert (ops + [op])[..|ops|] == ops;
  }

  /** What was set at last is there, whatever the limit is. */
  lemma SetIsFound<V>(ops: seq<Op<V>>, e: Entry<V>, maxSize: nat, elasticity: nat)
    ensures Lookup(Run(ops + [Set(e)], maxSize, elasticity), e.key) == Some(e)
  {
    RunMore(ops, Set(e), maxSize, elasticity);
  }

  /** A new key drops nothing without a limit, below the allowed size, or when all fit; else exactly the entries behind
      the maxSize that were used last, itself included. The entries are in the order of their last use (RunFaithful). */
  lemma SetDropsExactly<V>(ops: seq<Op<V>>, e: Entry<V>, maxSize: nat, elasticity: nat)
    requires Lookup(Run(ops, maxSize, elasticity), e.key).None?
    ensures var s, t := Run(ops, maxSize, elasticity), Run(ops + [Set(e)], maxSize, elasticity);
            var roomy := maxSize == 0 || |s| + 1 < maxSize + elasticity || |s| + 1 <= maxSize;
            && |t| == (if roomy then |s| + 1 else maxSize)
            && forall i :: 0 <= i < |s| ==> (s[i] in t <==> roomy || i + 1 < maxSize)
  {
    var s, t := Run(ops, maxSize, elasticity), Run(ops + [Set(e)], maxSize, elasticity);
    RunMore(ops, Set(e), maxSize, elasticity);
    NeverStale(ops, e.key, maxSize, elasticity);
    LookupIn(s, e.key);
    forall i | 0 <= i < |s| ensures s[i] in t <==> i + 1 < |t| {
      InFront(e, s, i, |t|);
    }
  }

  lemma InFront<V>(e: Entry<V>, s: seq<Entry<V>>, i: nat, n: nat)
    requires Unique(s) && (forall x :: x in s ==> x.key != e.key) && i < |s| && n <= |s| + 1
    ensures s[i] in ([e] + s)[..n] <==> i + 1 < n
  {
    var t := ([e] + s)[..n];
    assert s[i] in s;
    if i + 1 < n {
      assert t[i + 1] == s[i];
    }
    if s[i] in t {
      var j :| 0 <= j < n && t[j] == s[i];
    }
  }

  lemma {:induction false} LookupWithout<V>(s: seq<Entry<V>>, j: int, k: int)
    requires j != k
    ensures Lookup(Without(s, j), k) == Lookup(s, k)
  {
    if s != [] {
      LookupWithout(s[1..], j, k);
    }
  }

  /** And a key that is there already drops nothing. */
  lemma SetAgainKeeps<V>(ops: seq<Op<V>>, e: Entry<V>, k: int, maxSize: nat, elasticity: nat)
    requires Lookup(Run(ops, maxSize, elasticity), e.key).Some? && k != e.key
    ensures Lookup(Run(ops + [Set(e)], maxSize, elasticity), k) == Lookup(Run(ops, maxSize, elasticity), k)
  {
    RunMore(ops, Set(e), maxSize, elasticity);
    LookupWithout(Run(ops, maxSize, elasticity), e.key, k);
    assert ([e] + Without(Run(ops, maxSize, elasticity), e.key))[1..] == Without(Run(ops, maxSize, elasticity), e.key);
  }

  function UsedBy<V>(op: Op<V>): (r: set<int>) {
    if op.Set? then {op.e.key} else if op.Get? then {op.k} else {}
  }

  /** The other keys that were used since the last use of k. */
  function UsedSince<V>(ops: seq<Op<V>>, k: int): (r: set<int>) {
    if ops == [] || Uses(ops[|ops| - 1], k) then {}
    else UsedSince(ops[..|ops| - 1], k) + UsedBy(ops[|ops| - 1])
  }

  /** Key k was set, and since then was not deleted, cleared or timed out, and was never left with as many as n other
      keys used since its own last use. */
  predicate Near<V>(ops: seq<Op<V>>, k: int, n: nat) {
    ops != [] &&
    var init, op := ops[..|ops| - 1], ops[|ops| - 1];
    (op.Set? && op.e.key == k) ||
    (&& Near(init, k, n) && op != Clear && !(op.Del? && op.k == k)
     && (op.CheckTimeout? ==> LastSet(init, k).Some? && LastSet(init, k).value.ts > op.t)
     && |UsedSince(ops, k)| < n)
  }

  lemma {:induction false} LaterIsUsed<V>(ops: seq<Op<V>>, j: int, k: int)
    requires LastUse(ops, k) < LastUse(ops, j)
    ensures j in UsedSince(ops, k)
  {
    if !Uses(ops[|ops| - 1], j) {
      LaterIsUsed(ops[..|ops| - 1], j, k);
    }
  }

  function KeysOf<V>(s: seq<Entry<V>>): (r: set<int>) {
    if s == [] then {} else KeysOf(s[..|s| - 1]) + {s[|s| - 1].key}
  }

  lemma {:induction false} KeysCount<V>(s: seq<Entry<V>>)
    requires Unique(s)
    ensures |KeysOf(s)| == |s| && forall k :: k in KeysOf(s) ==> exists i :: 0 <= i < |s| && s[i].key == k
  {
    if s != [] {
      KeysCount(s[..|s| - 1]);
      assert s[|s| - 1].key !in KeysOf(s[..|s| - 1]);
    }
  }

  lemma SubsetCount(a: set<int>, b: set<int>)
    requires a <= b
    ensures |a| <= |b|
  {
    assert b == a + (b - a);
  }

  /** No more entries are ahead of one than keys were used since its last use. */
  lemma AheadAreUsed<V>(s: seq<Entry<V>>, ops: seq<Op<V>>, i: nat)
    requires Faithful(s, ops) && i < |s|
    ensures i <= |UsedSince(ops, s[i].key)|
  {
    var t, k := s[..i], s[i].key;
    forall a, b | 0 <= a < b < |t| ensures t[a].key != t[b].key {
      assert UseOf(ops)(s[a].key) > UseOf(ops)(s[b].key);
    }
    KeysCount(t);
    forall j | j in KeysOf(t) ensures j in UsedSince(ops, k) {
      var a :| 0 <= a < |t| && t[a].key == j;
      assert UseOf(ops)(s[a].key) > UseOf(ops)(s[i].key);
      LaterIsUsed(ops, j, k);
    }
    SubsetCount(KeysOf(t), UsedSince(ops, k));
  }

  lemma PruneSpares<V>(t: seq<Entry<V>>, i: nat, maxSize: nat, elasticity: nat)
    requires i < |t| && i < maxSize
    ensures t[i] in Pruned(t, maxSize, elasticity)
  {
    assert maxSize < |t| ==> t[..maxSize][i] == t[i];
  }

  /** An entry with fewer than maxSize keys used since its last use is among the first maxSize ones. */
  lemma {:induction false} PlaceOf<V>(t: seq<Entry<V>>, e: Entry<V>, ops: seq<Op<V>>, maxSize: nat) returns (i: nat)
    requires Faithful(t, ops) && e in t && |UsedSince(ops, e.key)| < maxSize
    ensures i < |t| && i < maxSize && t[i] == e
  {
    i :| 0 <= i < |t| && t[i] == e;
    AheadAreUsed(t, ops, i);
  }

  /** So it survives the set of another key. */
  lemma {:induction false} SetSpares<V>(s: seq<Entry<V>>, x: Entry<V>, e: Entry<V>, ops: seq<Op<V>>, maxSize: nat,
        elasticity: nat)
    requires ops != [] && ops[|ops| - 1] == Set(x) && Faithful(s, ops[..|ops| - 1])
    requires e in s && e.key != x.key && |UsedSince(ops, e.key)| < maxSize
    ensures e in SetSpec(s, x, maxSize, elasticity)
  {
    UseFaithful(s, x, ops);
    FilterIn(s, OtherThan(x.key));
    var t := [x] + Without(s, x.key);
    assert e in t;
    if Lookup(s, x.key).None? {
      var i := PlaceOf(t, e, ops, maxSize);
      PruneSpares(t, i, maxSize, elasticity);
    }
  }

  lemma {:induction false} StepSpares<V>(s: seq<Entry<V>>, e: Entry<V>, ops: seq<Op<V>>, maxSize: nat, elasticity: nat)
    requires ops != [] && Faithful(s, ops[..|ops| - 1]) && e in s && LastSet(ops[..|ops| - 1], e.key) == Some(e)
    requires Near(ops, e.key, maxSize) && !(ops[|ops| - 1].Set? && ops[|ops| - 1].e.key == e.key)
    ensures e in Step(s, ops[|ops| - 1], maxSize, elasticity) && LastSet(ops, e.key) == Some(e)
  {
    match ops[|ops| - 1]
    case Set(x) => SetSpares(s, x, e, ops, maxSize, elasticity);
    case Get(k) => FilterIn(s, OtherThan(k)); LookupIn(s, k); InOnce(s, e, ops[..|ops| - 1]);
    case Del(k) => FilterIn(s, OtherThan(k));
    case CheckTimeout(t) => FilterIn(s, ExpiresAfter(t));
  }

  lemma InOnce<V>(s: seq<Entry<V>>, e: Entry<V>, ops: seq<Op<V>>)
    requires Faithful(s, ops) && e in s
    ensures Lookup(s, e.key) == Some(e)
  {
    LookupIn(s, e.key);
  }

  /** In every run with a limit, a key that stays among the maxSize ones that were used last is found with what was set
      last. */
  lemma {:induction false} NearIsFound<V>(ops: seq<Op<V>>, k: int, maxSize: nat, elasticity: nat)
    requires Near(ops, k, maxSize)
    ensures LastSet(ops, k).Some? && Lookup(Run(ops, maxSize, elasticity), k) == LastSet(ops, k)
  {
    var init, op := ops[..|ops| - 1], ops[|ops| - 1];
    if op.Set? && op.e.key == k {
      assert ops == init + [Set(op.e)];
      SetIsFound(init, op.e, maxSize, elasticity);
    } else {
      NearIsFound(init, k, maxSize, elasticity);
      var s, e := Run(init, maxSize, elasticity), LastSet(init, k).value;
      RunFaithful(init, maxSize, elasticity);
      LookupIn(s, k);
      StepSpares(s, e, ops, maxSize, elasticity);
      RunFaithful(ops, maxSize, elasticity);
      InOnce(Run(ops, maxSize, elasticity), e, ops);
    }
  }
}
