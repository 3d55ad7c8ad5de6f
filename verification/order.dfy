/** Ordering of discovered hosts: a stable sort by IPv4 address, the one
    ordering every display and export uses (`sort_by_key(|item| item.ipv4)`). */
module TargetOrder {
  import opened Addresses
  import opened Network

  predicate SortedByIpv4(ts: seq<TargetDetails>) {
    forall i, j :: 0 <= i < j < |ts| ==> ts[i].ipv4 <= ts[j].ipv4
  }

  /** Places `t` before the first element whose address is not smaller, so
      that `t` stays ahead of later elements with the same address. */
  function Insert(t: TargetDetails, ts: seq<TargetDetails>): (r: seq<TargetDetails>)
    ensures |r| == |ts| + 1
    ensures r[0] == t || (|ts| > 0 && r[0] == ts[0])
  {
    if |ts| == 0 || t.ipv4 <= ts[0].ipv4 then [t] + ts
    else [ts[0]] + Insert(t, ts[1..])
  }

  lemma {:induction false} InsertPermutes(t: TargetDetails, ts: seq<TargetDetails>)
    ensures multiset(Insert(t, ts)) == multiset(ts) + multiset{t}
    decreases |ts|
  {
    if |ts| > 0 && t.ipv4 > ts[0].ipv4 {
      InsertPermutes(t, ts[1..]);
      assert ts == [ts[0]] + ts[1..];
    }
  }

  lemma {:induction false} InsertSorted(t: TargetDetails, ts: seq<TargetDetails>)
    requires SortedByIpv4(ts)
    ensures SortedByIpv4(Insert(t, ts))
    decreases |ts|
  {
    if |ts| > 0 && t.ipv4 > ts[0].ipv4 {
      var rest := Insert(t, ts[1..]);
      InsertSorted(t, ts[1..]);
      assert ts[0].ipv4 <= rest[0].ipv4;
      assert Insert(t, ts) == [ts[0]] + rest;
    }
  }

  /** Stable insertion sort by IPv4 address. */
  function SortByIpv4(ts: seq<TargetDetails>): (r: seq<TargetDetails>)
    ensures SortedByIpv4(r)
    ensures |r| == |ts|
  {
    if |ts| == 0 then []
    else
      var r := Insert(ts[0], SortByIpv4(ts[1..]));
      InsertSorted(ts[0], SortByIpv4(ts[1..]));
      r
  }

  /** The sorted list holds exactly the input targets, duplicates included. */
  lemma {:induction false} SortPermutes(ts: seq<TargetDetails>)
    ensures multiset(SortByIpv4(ts)) == multiset(ts)
    decreases |ts|
  {
    if |ts| > 0 {
      SortPermutes(ts[1..]);
      InsertPermutes(ts[0], SortByIpv4(ts[1..]));
      assert ts == [ts[0]] + ts[1..];
    }
  }

  /** The targets with the given address, in order. */
  function WithIpv4(ts: seq<TargetDetails>, a: Ipv4): seq<TargetDetails> {
    if |ts| == 0 then []
    else (if ts[0].ipv4 == a then [ts[0]] else []) + WithIpv4(ts[1..], a)
  }

  lemma {:induction false} InsertWithIpv4(t: TargetDetails, ts: seq<TargetDetails>, a: Ipv4)
    ensures WithIpv4(Insert(t, ts), a) == (if t.ipv4 == a then [t] else []) + WithIpv4(ts, a)
    decreases |ts|
  {
    if |ts| == 0 || t.ipv4 <= ts[0].ipv4 {
      var r := [t] + ts;
      assert r[1..] == ts;
    } else {
      var r := Insert(t, ts);
      var head := if ts[0].ipv4 == a then [ts[0]] else [];
      var mid := if t.ipv4 == a then [t] else [];
      assert r[1..] == Insert(t, ts[1..]);
      InsertWithIpv4(t, ts[1..], a);
      assert WithIpv4(r, a) == head + (mid + WithIpv4(ts[1..], a));
      assert head == [] || mid == [];
      assert WithIpv4(ts, a) == head + WithIpv4(ts[1..], a);
    }
  }

  /** Stability: targets sharing an address keep their input order. */
  lemma {:induction false} SortIsStable(ts: seq<TargetDetails>, a: Ipv4)
    ensures WithIpv4(SortByIpv4(ts), a) == WithIpv4(ts, a)
    decreases |ts|
  {
    if |ts| > 0 {
      InsertWithIpv4(ts[0], SortByIpv4(ts[1..]), a);
      SortIsStable(ts[1..], a);
    }
  }

  /** Sorting an already sorted list changes nothing, so sorting twice is
      sorting once. */
  lemma {:induction false} SortKeepsSorted(ts: seq<TargetDetails>)
    requires SortedByIpv4(ts)
    ensures SortByIpv4(ts) == ts
    decreases |ts|
  {
    if |ts| > 0 {
      SortKeepsSorted(ts[1..]);
      assert [ts[0]] + ts[1..] == ts;
    }
  }

  lemma SortIdempotent(ts: seq<TargetDetails>)
    ensures SortByIpv4(SortByIpv4(ts)) == SortByIpv4(ts)
  {
    SortKeepsSorted(SortByIpv4(ts));
  }

  /** No two different targets in the collection share an address. */
  ghost predicate DistinctAddresses(m: multiset<TargetDetails>) {
    forall t, u :: t in m && u in m && t.ipv4 == u.ipv4 ==> t == u
  }

  lemma DistinctSubcollection(m: multiset<TargetDetails>, sub: multiset<TargetDetails>)
    requires sub <= m && DistinctAddresses(m)
    ensures DistinctAddresses(sub)
  {
  }

  lemma SameHead(x: seq<TargetDetails>, y: seq<TargetDetails>)
    requires |x| > 0 && |y| > 0
    requires SortedByIpv4(x) && SortedByIpv4(y)
    requires multiset(x) == multiset(y) && DistinctAddresses(multiset(x))
    ensures x[0] == y[0]
  {
    assert x[0] in multiset(y);
    var j :| 0 <= j < |y| && y[j] == x[0];
    assert y[0] in multiset(x);
    var i :| 0 <= i < |x| && x[i] == y[0];
    assert x[0].ipv4 <= y[0].ipv4 by {
      assert x[0].ipv4 <= x[i].ipv4;
    }
    assert y[0].ipv4 <= x[0].ipv4 by {
      assert y[0].ipv4 <= y[j].ipv4;
    }
  }

  lemma TailsArePermutations(x: seq<TargetDetails>, y: seq<TargetDetails>)
    requires |x| > 0 && |y| > 0 && x[0] == y[0] && multiset(x) == multiset(y)
    ensures multiset(x[1..]) == multiset(y[1..])
    ensures multiset(x[1..]) <= multiset(x)
  {
    assert multiset(x) == multiset{x[0]} + multiset(x[1..]) by {
      assert x == [x[0]] + x[1..];
    }
    assert multiset(y) == multiset{y[0]} + multiset(y[1..]) by {
      assert y == [y[0]] + y[1..];
    }
    assert multiset(x[1..]) == multiset(x) - multiset{x[0]};
    assert multiset(y[1..]) == multiset(y) - multiset{y[0]};
  }

  lemma SortedTail(x: seq<TargetDetails>)
    requires |x| > 0 && SortedByIpv4(x)
    ensures SortedByIpv4(x[1..])
  {
  }

  /** Two sorted arrangements of the same collection with distinct addresses
      are the same sequence. */
  lemma {:induction false} SortedPermutationsAgree(x: seq<TargetDetails>, y: seq<TargetDetails>)
    requires SortedByIpv4(x) && SortedByIpv4(y)
    requires multiset(x) == multiset(y) && DistinctAddresses(multiset(x))
    ensures x == y
    decreases |x|
  {
    assert |x| == |multiset(x)| == |multiset(y)| == |y|;
    if |x| > 0 {
      SameHead(x, y);
      TailsArePermutations(x, y);
      DistinctSubcollection(multiset(x), multiset(x[1..]));
      SortedTail(x);
      SortedTail(y);
      SortedPermutationsAgree(x[1..], y[1..]);
    }
  }

  /** When no two different targets share an address, the sorted order does
      not depend on the order the targets came in. */
  lemma SortIgnoresInputOrder(a: seq<TargetDetails>, b: seq<TargetDetails>)
    requires multiset(a) == multiset(b) && DistinctAddresses(multiset(a))
    ensures SortByIpv4(a) == SortByIpv4(b)
  {
    SortPermutes(a);
    SortPermutes(b);
    SortedPermutationsAgree(SortByIpv4(a), SortByIpv4(b));
  }
}
