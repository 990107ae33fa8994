/** Types and small facts shared by the models of seaice. */
module Prelude {

  datatype Option<+T> = None | Some(value: T)

  /** The two ways an operation of ByteArray can end. */
  datatype Result<+T> = Ok(value: T) | OutOfRange

  type byte = x: int | 0 <= x < 0x100
  type uint16 = x: int | 0 <= x < 0x1_0000
  type uint32 = x: int | 0 <= x < 0x1_0000_0000
  type uint64 = x: int | 0 <= x < 0x1_0000_0000_0000_0000
  type int32 = x: int | -0x8000_0000 <= x < 0x8000_0000
  type int64 = x: int | -0x8000_0000_0000_0000 <= x < 0x8000_0000_0000_0000

  function Min(a: int, b: int): (r: int) {
    if a <= b then a else b
  }

  function Max(a: int, b: int): (r: int) {
    if a <= b then b else a
  }

  lemma EmptyOrNot<T>(m: set<T>)
    ensures m == {} || exists x :: x in m
  {
    if forall x :: x !in m {
      assert m == {};
    }
  }

  /** One of the elements of a set. */
  lemma Member<T>(m: set<T>) returns (x: T)
    requires m != {}
    ensures x in m
  {
    EmptyOrNot(m);
    x :| x in m;
  }

  lemma MulMono(x: nat, y: nat, p: nat)
    requires x <= y
    ensures x * p <= y * p
  {
  }

  const TWO32 := 0x1_0000_0000

  /** A wider integer converted to int. */
  function ToInt(n: int): (i: int)
    ensures -0x8000_0000 <= n < 0x8000_0000 ==> i == n
    ensures 0x8000_0000 <= n < TWO32 ==> i < 0
    ensures -0x8000_0000 <= i < 0x8000_0000
  {
    var u := n % TWO32;
    if u < 0x8000_0000 then u else u - TWO32
  }

  lemma DivUnique(p: nat, b: nat, q: nat, r: nat)
    requires r < b && p == q * b + r
    ensures p / b == q && p % b == r
  {
    if p / b < q {
      MulMono(p / b + 1, q, b);
    } else if q < p / b {
      MulMono(q + 1, p / b, b);
    }
  }

  /** s with the elements from p on replaced by data. */
  function Splice<T>(s: seq<T>, p: nat, data: seq<T>): (r: seq<T>)
    requires p + |data| <= |s|
    ensures |r| == |s|
  {
    s[..p] + data + s[p + |data|..]
  }

  /** g is s with data at p. */
  ghost predicate Spliced<T>(g: seq<T>, s: seq<T>, p: nat, data: seq<T>) {
    p + |data| <= |s| && g == Splice(s, p, data)
  }

  /** g is f, possibly longer, with data at p: what is behind the old end and not in data is arbitrary. */
  ghost predicate Written<T>(g: seq<T>, f: seq<T>, p: nat, data: seq<T>) {
    && p <= |f| <= |g| && p + |data| <= |g|
    && g[p..p + |data|] == data
    && g[..p] == f[..p]
    && (p + |data| <= |f| ==> g[p + |data|..|f|] == f[p + |data|..])
  }

  lemma WrittenFromSplice<T>(g: seq<T>, h: seq<T>, f: seq<T>, p: nat, data: seq<T>)
    requires p <= |f| && f <= h && Spliced(g, h, p, data)
    ensures Written(g, f, p, data)
  {
    assert h[..|f|] == f;
    assert g[..p] == h[..p] == h[..|f|][..p];
    if p + |data| <= |f| {
      assert g[p + |data|..|f|] == h[p + |data|..|f|] == h[..|f|][p + |data|..];
    }
  }

  lemma SamePrefix<T>(h: seq<T>, g: seq<T>, i: nat, p: nat)
    requires p <= i <= |h| && i <= |g| && h[..i] == g[..i]
    ensures h[..p] == g[..p] && h[p..i] == g[p..i]
  {
    forall k | 0 <= k < i ensures h[k] == g[k] {
      assert h[..i][k] == g[..i][k];
    }
  }

  lemma SameRest<T>(h: seq<T>, g: seq<T>, f: seq<T>, i: nat, n: nat)
    requires i <= n <= |f| <= |g| <= |h| && h[n..|g|] == g[n..] && g[i..|f|] == f[i..]
    ensures h[n..|f|] == f[n..]
  {
    forall k | n <= k < |f| ensures h[k] == f[k] {
      assert h[n..|g|][k - n] == g[n..][k - n];
      assert g[i..|f|][k - i] == f[i..][k - i];
    }
  }

  /** Writing behind what was written is writing all of it. */
  lemma WrittenMore<T>(h: seq<T>, g: seq<T>, f: seq<T>, p: nat, a: seq<T>, b: seq<T>)
    requires Written(g, f, p, a) && Written(h, g, p + |a|, b)
    ensures Written(h, f, p, a + b)
  {
    var i, n := p + |a|, p + |a| + |b|;
    assert p + |a + b| == n;
    SamePrefix(h, g, i, p);
    SliceSlice(h, p, i, n);
    assert h[p..n] == a + b;
    if n <= |f| {
      SameRest(h, g, f, i, n);
    }
  }

  lemma SpliceLeft<T>(s: seq<T>, t: seq<T>, p: nat, data: seq<T>)
    requires p + |data| <= |s|
    ensures Splice(s + t, p, data) == Splice(s, p, data) + t
  {
  }

  lemma SpliceRight<T>(s: seq<T>, t: seq<T>, p: nat, data: seq<T>)
    requires p + |data| <= |t|
    ensures Splice(s + t, |s| + p, data) == s + Splice(t, p, data)
  {
  }

  /** Splicing two adjacent pieces is splicing their concatenation. */
  lemma SpliceAdjacent<T>(s: seq<T>, p: nat, a: seq<T>, b: seq<T>)
    requires p + |a| + |b| <= |s|
    ensures Splice(Splice(s, p, a), p + |a|, b) == Splice(s, p, a + b)
  {
  }

  lemma SliceStep<T>(s: seq<T>, i: nat, k: nat)
    requires i + k <= |s|
    ensures |s[i..i + k]| == k && s[..i] + s[i..i + k] == s[..i + k]
  {
  }

  lemma SliceSlice<T>(s: seq<T>, i: nat, j: nat, k: nat)
    requires i <= j <= k <= |s|
    ensures s[i..j] + s[j..k] == s[i..k]
  {
  }

  lemma Assoc<T>(a: seq<T>, b: seq<T>, c: seq<T>)
    ensures (a + b) + c == a + (b + c)
  {
  }

  lemma SuffixSuffix<T>(s: seq<T>, n: nat, m: nat)
    requires n + m <= |s|
    ensures s[n..][m..] == s[n + m..]
  {
  }

  /** r elements more, taken from the front. */
  lemma TakeMore<T>(s: seq<T>, k: nat, r: nat)
    requires k + r <= |s|
    ensures s[..k] + s[k..][..r] == s[..k + r] && s[k..][r..] == s[k + r..]
  {
  }

  /** More of s has been written behind its first k elements. */
  lemma WrittenOn<T>(h: seq<T>, g: seq<T>, f: seq<T>, p: nat, s: seq<T>, k: nat, r: nat)
    requires k + r <= |s| && Written(g, f, p, s[..k]) && Written(h, g, p + k, s[k..][..r])
    ensures Written(h, f, p, s[..k + r]) && s[k..][r..] == s[k + r..]
  {
    TakeMore(s, k, r);
    WrittenMore(h, g, f, p, s[..k], s[k..][..r]);
  }

  lemma DropPrefix<T>(a: seq<T>, b: seq<T>)
    ensures (a + b)[|a|..] == b && (a + b)[..|a|] == a
  {
  }

  lemma SliceMiddle<T>(a: seq<T>, b: seq<T>, c: seq<T>, k: nat)
    requires k <= |b|
    ensures a + b + c == a + (b + c) && (a + b + c)[|a|..|a| + k] == b[..k]
  {
  }

  /** A slice of a slice. */
  lemma SliceWithin<T>(s: seq<T>, i: nat, j: nat, a: nat, b: nat)
    requires i <= j <= |s| && a <= b <= j - i
    ensures s[i..j][a..b] == s[i + a..i + b]
  {
    forall k | 0 <= k < b - a ensures s[i..j][a..b][k] == s[i + a..i + b][k] {
    }
  }
}
