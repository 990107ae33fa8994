/** How IPv6Address::insert of address.cpp prints the eight groups, and how
    section 2.2 of RFC 4291 reads them. */
module Ipv6 {
  import opened Prelude

  /** What is printed between the brackets: colons and groups in hexadecimal. */
  datatype Token = Colon | Hex(group: uint16)

  /** Groups with colons between them. */
  function Joined(gs: seq<uint16>): (ts: seq<Token>)
    ensures |ts| == if gs == [] then 0 else 2 * |gs| - 1
    ensures gs != [] ==> ts[|ts| - 1] == Hex(gs[|gs| - 1]) && ts[0] == Hex(gs[0])
  {
    if |gs| <= 1 then seq(|gs|, i requires 0 <= i < |gs| => Hex(gs[i]))
    else Joined(gs[..|gs| - 1]) + [Colon, Hex(gs[|gs| - 1])]
  }

  /** Where the first run of zeros from i on starts; the length when there is none. */
  function ZeroFrom(gs: seq<uint16>, i: nat): (n: nat)
    requires i <= |gs|
    ensures i <= n <= |gs| && (forall j :: i <= j < n ==> gs[j] != 0) && (n < |gs| ==> gs[n] == 0)
    decreases |gs| - i
  {
    if i == |gs| || gs[i] == 0 then i else ZeroFrom(gs, i + 1)
  }

  function FirstZero(gs: seq<uint16>): (n: nat)
    ensures n <= |gs| && (forall i :: 0 <= i < n ==> gs[i] != 0) && (n < |gs| ==> gs[n] == 0)
  {
    ZeroFrom(gs, 0)
  }

  /** Where the run of zeros that starts at n ends. */
  function RunEnd(gs: seq<uint16>, n: nat): (m: nat)
    requires n <= |gs|
    ensures n <= m <= |gs| && (forall i :: n <= i < m ==> gs[i] == 0) && (m < |gs| ==> gs[m] != 0)
    decreases |gs| - n
  {
    if n == |gs| || gs[n] != 0 then n else RunEnd(gs, n + 1)
  }

  /** The first maximal run of zeros, whole, as two colons. */
  function Compressed(gs: seq<uint16>): (r: seq<Token>) {
    var n := FirstZero(gs);
    if n == |gs| then Joined(gs)
    else Joined(gs[..n]) + [Colon, Colon] + Joined(gs[RunEnd(gs, n)..])
  }

  lemma JoinedSnoc(gs: seq<uint16>, g: uint16)
    ensures Joined(gs + [g]) == (if gs == [] then [] else Joined(gs) + [Colon]) + [Hex(g)]
  {
    assert (gs + [g])[..|gs|] == gs;
    if gs == [] {
      assert gs + [g] == [g];
    }
  }

  /** What is printed when i groups are done: nothing for zeros that may belong to the first run. */
  ghost predicate Printed(gs: seq<uint16>, i: nat, usedZeros: bool, out: seq<Token>)
    requires i <= |gs|
  {
    var n := FirstZero(gs);
    if i <= n then !usedZeros && out == Joined(gs[..i])
    else if i <= RunEnd(gs, n) then !usedZeros && out == Joined(gs[..n])
    else usedZeros && out == Joined(gs[..n]) + [Colon, Colon] + Joined(gs[RunEnd(gs, n)..i])
  }

  /** What one more group adds. */
  lemma PrintedStep(gs: seq<uint16>, i: nat, usedZeros: bool, out: seq<Token>)
    requires i < |gs| && Printed(gs, i, usedZeros, out)
    ensures gs[i] == 0 && !usedZeros ==> Printed(gs, i + 1, false, out)
    ensures !(gs[i] == 0 && !usedZeros) && i > 0 && gs[i - 1] == 0 && !usedZeros ==>
              Printed(gs, i + 1, true, out + [Colon] + [Colon] + [Hex(gs[i])])
    ensures !(gs[i] == 0 && !usedZeros) && !(i > 0 && gs[i - 1] == 0 && !usedZeros) ==>
              Printed(gs, i + 1, usedZeros, out + (if i > 0 then [Colon] else []) + [Hex(gs[i])])
  {
    var n := FirstZero(gs);
    if i < n {
      assert gs[..i + 1] == gs[..i] + [gs[i]];
      JoinedSnoc(gs[..i], gs[i]);
    } else if RunEnd(gs, n) <= i {
      PrintedBehind(gs, RunEnd(gs, n), i);
    }
  }

  lemma PrintedBehind(gs: seq<uint16>, m: nat, i: nat)
    requires m <= i < |gs|
    ensures Joined(gs[m..i + 1]) == (if m == i then [] else Joined(gs[m..i]) + [Colon]) + [Hex(gs[i])]
  {
    assert gs[m..i + 1] == gs[m..i] + [gs[i]];
    JoinedSnoc(gs[m..i], gs[i]);
  }

  method Insert(addr: seq<uint16>) returns (out: seq<Token>)
    requires |addr| == 8
    ensures out == Compressed(addr)
  {
    var usedZeros := false;
    out := [];
    for i := 0 to 8
      invariant Printed(addr, i, usedZeros, out)
    {
      PrintedStep(addr, i, usedZeros, out);
      if addr[i] == 0 && !usedZeros {
        continue;
      }
      if i > 0 && addr[i - 1] == 0 && !usedZeros {
        out := out + [Colon];
        usedZeros := true;
      }
      if i > 0 {
        out := out + [Colon];
      }
      out := out + [Hex(addr[i])];
    }
    assert addr[..8] == addr;
    if !usedZeros && addr[7] == 0 {
      out := out + [Colon, Colon];
    }
  }

  // ----- reading -----

  /** The groups of a part without "::"; None when it is not groups with single colons between them. */
  function Groups(ts: seq<Token>): (r: Option<seq<uint16>>) {
    if ts == [] then Some([])
    else if ts[|ts| - 1].Colon? then None
    else if |ts| == 1 then Some([ts[0].group])
    else if |ts| == 2 || ts[|ts| - 2].Hex? then None
    else
      var front := Groups(ts[..|ts| - 2]);
      if front.None? then None else Some(front.value + [ts[|ts| - 1].group])
  }

  /** Where "::" is from i on; the length when there is none. */
  function DoubleColon(ts: seq<Token>, i: nat): (n: nat)
    requires i <= |ts|
    ensures i <= n <= |ts| && (n < |ts| ==> n + 1 < |ts| && ts[n] == Colon && ts[n + 1] == Colon)
    ensures forall j :: i <= j < n && j + 1 < |ts| ==> !(ts[j] == Colon && ts[j + 1] == Colon)
    decreases |ts| - i
  {
    if |ts| < i + 2 then |ts|
    else if ts[i] == Colon && ts[i + 1] == Colon then i
    else DoubleColon(ts, i + 1)
  }

  function Zeros(n: nat): (z: seq<uint16>)
    ensures |z| == n && forall i :: 0 <= i < n ==> z[i] == 0
  {
    seq(n, _ => 0)
  }

  /** The groups on both sides of "::", with one or more groups of zeros between them. */
  function Filled(left: Option<seq<uint16>>, right: Option<seq<uint16>>): (r: Option<seq<uint16>>) {
    if left.None? || right.None? || |left.value| + |right.value| >= 8 then None
    else Some(left.value + Zeros(8 - |left.value| - |right.value|) + right.value)
  }

  /** Eight groups, or fewer with one "::". */
  function Expand(ts: seq<Token>): (r: Option<seq<uint16>>) {
    var n := DoubleColon(ts, 0);
    if n == |ts| then
      var gs := Groups(ts);
      if gs.Some? && |gs.value| == 8 then gs else None
    else Filled(Groups(ts[..n]), Groups(ts[n + 2..]))
  }

  lemma {:induction false} GroupsOfJoined(gs: seq<uint16>)
    ensures Groups(Joined(gs)) == Some(gs)
  {
    if |gs| > 1 {
      GroupsOfJoined(gs[..|gs| - 1]);
      var ts := Joined(gs);
      assert ts[..|ts| - 2] == Joined(gs[..|gs| - 1]);
      assert gs == gs[..|gs| - 1] + [gs[|gs| - 1]];
    } else if |gs| == 1 {
      assert gs == [gs[0]] && Joined(gs) == [Hex(gs[0])];
    } else {
      assert Joined(gs) == [];
    }
  }

  lemma {:induction false} JoinedAlternates(gs: seq<uint16>)
    ensures forall i :: 0 <= i < |Joined(gs)| ==> (Joined(gs)[i].Colon? <==> i % 2 == 1)
  {
    if |gs| > 1 {
      JoinedAlternates(gs[..|gs| - 1]);
    }
  }

  /** "::" in what is printed is where the run of zeros was. */
  lemma DoubleColonAt(a: seq<uint16>, b: seq<uint16>)
    ensures DoubleColon(Joined(a), 0) == |Joined(a)|
    ensures DoubleColon(Joined(a) + [Colon, Colon] + Joined(b), 0) == |Joined(a)|
  {
    JoinedAlternates(a);
    var ts := Joined(a) + [Colon, Colon] + Joined(b);
    forall i | 0 <= i < |Joined(a)| ensures !(ts[i] == Colon && ts[i + 1] == Colon) {
      assert ts[i] == Joined(a)[i];
      assert i + 1 < |Joined(a)| ==> ts[i + 1] == Joined(a)[i + 1];
    }
    assert ts[|Joined(a)|] == Colon && ts[|Joined(a)| + 1] == Colon;
  }

  /** Groups are printed in their order, with one colon between any two. */
  lemma {:induction false} JoinedAt(gs: seq<uint16>, i: nat)
    requires i < |gs|
    ensures Joined(gs)[2 * i] == Hex(gs[i]) && (i + 1 < |gs| ==> Joined(gs)[2 * i + 1] == Colon)
  {
    if i < |gs| - 1 {
      JoinedAt(gs[..|gs| - 1], i);
    }
  }

  /** Two colons are next to each other if and only if some group is zero; they stand for the first whole run of zeros,
      and every other group is printed. */
  lemma DoubleColonExactly(gs: seq<uint16>)
    ensures (exists i :: 0 <= i < |Compressed(gs)| - 1 && Compressed(gs)[i] == Compressed(gs)[i + 1] == Colon)
            <==> 0 in gs
    ensures 0 !in gs ==> Compressed(gs) == Joined(gs)
    ensures 0 in gs ==>
              exists n, m :: 0 <= n < m <= |gs| && WholeRun(gs, n, m)
                && Compressed(gs) == Joined(gs[..n]) + [Colon, Colon] + Joined(gs[m..])
  {
    var n := FirstZero(gs);
    if n == |gs| {
      JoinedAlternates(gs);
    } else {
      var m, r := RunEnd(gs, n), Compressed(gs);
      var k := |Joined(gs[..n])|;
      assert r[k] == r[k + 1] == Colon;
      assert WholeRun(gs, n, m);
    }
  }

  /** The first run of zeros, as long as it is. */
  predicate WholeRun(gs: seq<uint16>, n: nat, m: nat) {
    && n < m <= |gs| && (forall i :: n <= i < m ==> gs[i] == 0) && (m < |gs| ==> gs[m] != 0)
    && forall i :: 0 <= i < n ==> gs[i] != 0
  }

  lemma ExpandAt(x: seq<Token>, y: seq<Token>)
    requires DoubleColon(x + [Colon, Colon] + y, 0) == |x|
    ensures Expand(x + [Colon, Colon] + y) == Filled(Groups(x), Groups(y))
  {
    var ts := x + [Colon, Colon] + y;
    assert ts[..|x|] == x;
    assert ts[|x| + 2..] == y;
  }

  lemma ExpandParts(a: seq<uint16>, b: seq<uint16>)
    ensures Expand(Joined(a) + [Colon, Colon] + Joined(b)) == Filled(Some(a), Some(b))
  {
    DoubleColonAt(a, b);
    ExpandAt(Joined(a), Joined(b));
    GroupsOfJoined(a);
    GroupsOfJoined(b);
  }

  /** Whatever the address is, what is printed for it reads back as the address. */
  lemma ReadsBack(addr: seq<uint16>)
    requires |addr| == 8
    ensures Expand(Compressed(addr)) == Some(addr)
  {
    var n := FirstZero(addr);
    if n == 8 {
      ReadsPlain(addr);
    } else {
      var m := RunEnd(addr, n);
      Refill(addr, n, m);
      ExpandParts(addr[..n], addr[m..]);
    }
  }

  lemma ReadsPlain(gs: seq<uint16>)
    requires |gs| == 8
    ensures Expand(Joined(gs)) == Some(gs)
  {
    DoubleColonAt(gs, []);
    GroupsOfJoined(gs);
  }

  lemma Refill(gs: seq<uint16>, n: nat, m: nat)
    requires n < m <= |gs| == 8 && forall i :: n <= i < m ==> gs[i] == 0
    ensures Filled(Some(gs[..n]), Some(gs[m..])) == Some(gs)
  {
    assert gs[..n] + Zeros(m - n) + gs[m..] == gs;
  }

  /** Two addresses are never printed alike. */
  lemma PrintsApart(a: seq<uint16>, b: seq<uint16>)
    requires |a| == |b| == 8 && Compressed(a) == Compressed(b)
    ensures a == b
  {
    ReadsBack(a);
    ReadsBack(b);
  }
}
