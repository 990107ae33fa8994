/** std::set as an ordered sequence, looked up and changed by its order only. */
module OrderedSets {

  // ----- the order -----

  /** What the two sets are ordered by: a time, and an identity among equal times. */
  datatype Stamp = Stamp(ts: nat, key: int)

  /** ItemTimeOp and TimerCmp on what they compare. */
  predicate Before(a: Stamp, b: Stamp) {
    if a == b then false else if a.ts != b.ts then a.ts < b.ts else a.key < b.key
  }

  predicate Sorted(s: seq<Stamp>) {
    forall i, j :: 0 <= i < j < |s| ==> Before(s[i], s[j])
  }

  /** lower_bound: the first place that is not before t. */
  function LowerBound(s: seq<Stamp>, t: Stamp): (n: nat)
    ensures n <= |s|
    ensures forall i :: 0 <= i < n ==> Before(s[i], t)
    ensures n < |s| ==> !Before(s[n], t)
  {
    if s == [] || !Before(s[0], t) then 0 else 1 + LowerBound(s[1..], t)
  }

  /** In a sorted set lower_bound finds what is there. */
  lemma LowerBoundFinds(s: seq<Stamp>, i: nat)
    requires Sorted(s) && i < |s|
    ensures LowerBound(s, s[i]) == i
  {
    var n := LowerBound(s, s[i]);
    assert n <= i;
  }

  lemma LowerBoundMisses(s: seq<Stamp>, t: Stamp)
    requires Sorted(s) && (LowerBound(s, t) < |s| ==> Before(t, s[LowerBound(s, t)]))
    ensures t !in s
  {
    if t in s {
      var i :| 0 <= i < |s| && s[i] == t;
      LowerBoundFinds(s, i);
      assert false;
    }
  }

  lemma SortedRemove(s: seq<Stamp>, i: nat)
    requires Sorted(s) && i < |s|
    ensures Sorted(s[..i] + s[i + 1..])
  {
  }

  /** Inserting at lower_bound keeps the order. */
  lemma SortedInsert(s: seq<Stamp>, t: Stamp)
    requires Sorted(s) && t !in s
    ensures Sorted(s[..LowerBound(s, t)] + [t] + s[LowerBound(s, t)..])
  {
    var n := LowerBound(s, t);
    forall j | n <= j < |s| ensures Before(t, s[j]) {
      assert s[j] in s;
      if n < j {
        assert Before(s[n], s[j]);
      }
      assert s[n] in s;
    }
  }

  // ----- sequences as sets -----

  ghost function Elements<T>(s: seq<T>): (r: set<T>) {
    set x | x in s
  }

  ghost predicate Distinct<T>(s: seq<T>) {
    forall i, j :: 0 <= i < j < |s| ==> s[i] != s[j]
  }

  lemma DropAt<T>(s: seq<T>, i: nat)
    requires Distinct(s) && i < |s|
    ensures Elements(s[..i] + s[i + 1..]) == Elements(s) - {s[i]}
  {
    var t := s[..i] + s[i + 1..];
    forall x | x in t ensures x in s && x != s[i] {
      var j :| 0 <= j < |t| && t[j] == x;
      assert x == s[if j < i then j else j + 1];
    }
    forall x | x in s && x != s[i] ensures x in t {
      var j :| 0 <= j < |s| && s[j] == x;
      assert x == t[if j < i then j else j - 1];
    }
  }

  lemma InsertAt<T>(s: seq<T>, i: nat, x: T)
    requires i <= |s|
    ensures Elements(s[..i] + [x] + s[i..]) == Elements(s) + {x}
  {
    assert s == s[..i] + s[i..];
  }
}
