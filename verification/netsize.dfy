/** The total number of addresses in the target networks. IPv6 networks are
    refused: the source terminates the process; here the fold yields an error. */
module NetworkSize {
  import opened Wrappers
  import opened Addresses

  /** The one unsupported-input error of this computation. */
  datatype Unsupported = Ipv6NotSupported

  function Pow2(k: nat): (r: nat)
    ensures r >= 1
  {
    if k == 0 then 1 else 2 * Pow2(k - 1)
  }

  /** Number of addresses of an IPv4 network with the given prefix length. */
  function Ipv4Size(p: Prefix4): nat {
    Pow2(32 - p)
  }

  predicate AllIpv4(ns: seq<IpNetwork>) {
    forall i :: 0 <= i < |ns| ==> ns[i].V4Net?
  }

  /** Reference sum of the sizes of IPv4 networks. */
  function TotalSize(ns: seq<IpNetwork>): nat
    requires AllIpv4(ns)
  {
    if |ns| == 0 then 0 else Ipv4Size(ns[0].prefix4) + TotalSize(ns[1..])
  }

  /** The left fold of the source: the running total plus each network's
      size, stopping with an error at the first IPv6 network. */
  function FoldSizes(ns: seq<IpNetwork>, total: nat): (r: Result<nat, Unsupported>)
    ensures r.Failure? <==> exists i :: 0 <= i < |ns| && ns[i].V6Net?
    ensures r.Success? ==> AllIpv4(ns) && r.value == total + TotalSize(ns)
  {
    if |ns| == 0 then Success(total)
    else match ns[0]
      case V6Net(_, _) => Failure(Ipv6NotSupported)
      case V4Net(_, p) =>
        var r := FoldSizes(ns[1..], total + Ipv4Size(p));
        assert forall i :: 1 <= i < |ns| ==> ns[i] == ns[1..][i - 1];
        r
  }

  /** Size of all networks together, or the unsupported-input error when any
      of them, wherever it sits in the list, is an IPv6 network. */
  function ComputeNetworkSize(ns: seq<IpNetwork>): (r: Result<nat, Unsupported>)
    ensures r.Failure? <==> exists i :: 0 <= i < |ns| && ns[i].V6Net?
    ensures r.Success? ==> AllIpv4(ns) && r.value == TotalSize(ns)
  {
    FoldSizes(ns, 0)
  }

  lemma {:induction false} TotalSizeAppend(a: seq<IpNetwork>, b: seq<IpNetwork>)
    requires AllIpv4(a) && AllIpv4(b)
    ensures AllIpv4(a + b)
    ensures TotalSize(a + b) == TotalSize(a) + TotalSize(b)
    decreases |a|
  {
    if |a| == 0 {
      assert a + b == b;
    } else {
      assert (a + b)[0] == a[0];
      assert (a + b)[1..] == a[1..] + b;
      TotalSizeAppend(a[1..], b);
    }
  }

  /** Each IPv4 network holds between 1 and 2^32 addresses, so the total lies
      between the number of networks and that number times 2^32. */
  lemma {:induction false} TotalSizeBounds(ns: seq<IpNetwork>)
    requires AllIpv4(ns)
    ensures |ns| <= TotalSize(ns) <= |ns| * Pow2(32)
    decreases |ns|
  {
    if |ns| > 0 {
      var p := Pow2(32);
      Pow2Monotone(32 - ns[0].prefix4, 32);
      TotalSizeBounds(ns[1..]);
      assert (|ns| - 1) * p + p == |ns| * p;
    }
  }

  lemma {:induction false} Pow2Monotone(j: nat, k: nat)
    requires j <= k
    ensures Pow2(j) <= Pow2(k)
    decreases k
  {
    if j < k {
      Pow2Monotone(j, k - 1);
    }
  }

  /** A worked example of the general contract: two /30 networks hold
      4 + 4 addresses, whatever their addresses. */
  lemma TwoSlash30(a: Ipv4, b: Ipv4)
    ensures ComputeNetworkSize([V4Net(a, 30), V4Net(b, 30)]) == Success(8)
  {
    assert Ipv4Size(30) == Pow2(2) == 4;
    var ns := [V4Net(a, 30), V4Net(b, 30)];
    assert ns[1..] == [V4Net(b, 30)];
    assert FoldSizes([V4Net(b, 30)], 4) == Success(8);
  }
}
