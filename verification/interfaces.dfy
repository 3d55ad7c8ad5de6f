/** Interface selection and the interface listing: which interface is used by
    default for a scan, and how many interfaces look ready. */
module Interfaces {
  import opened Wrappers
  import opened Addresses

  /** The stricter test a default interface must pass: it has a hardware
      address, at least one IP, is up, is not the loopback interface and has
      an IPv4 address among its IPs. */
  predicate QualifiesAsDefault(i: Interface) {
    && i.mac.Some?
    && |i.ips| > 0 && i.isUp && !i.isLoopback
    && exists k :: 0 <= k < |i.ips| && IsIpv4(i.ips[k])
  }

  /** The looser readiness test of the listing: up, not loopback, some IP. */
  predicate IsReady(i: Interface) {
    i.isUp && !i.isLoopback && |i.ips| > 0
  }

  /** The first interface, in system order, that qualifies as a default. */
  function SelectDefault(ifs: seq<Interface>): (r: Option<Interface>)
    ensures r.None? <==> forall k :: 0 <= k < |ifs| ==> !QualifiesAsDefault(ifs[k])
    ensures r.Some? ==>
      exists k :: 0 <= k < |ifs| && ifs[k] == r.value && QualifiesAsDefault(ifs[k])
        && forall j :: 0 <= j < k ==> !QualifiesAsDefault(ifs[j])
  {
    if |ifs| == 0 then None
    else if QualifiesAsDefault(ifs[0]) then Some(ifs[0])
    else
      var r := SelectDefault(ifs[1..]);
      assert forall k :: 1 <= k < |ifs| ==> ifs[k] == ifs[1..][k - 1];
      r
  }

  /** Number of ready interfaces, counted from the front. */
  function CountReady(ifs: seq<Interface>): nat {
    if |ifs| == 0 then 0 else (if IsReady(ifs[0]) then 1 else 0) + CountReady(ifs[1..])
  }

  lemma {:induction false} CountReadyAppend(ifs: seq<Interface>, i: Interface)
    ensures CountReady(ifs + [i]) == CountReady(ifs) + (if IsReady(i) then 1 else 0)
    decreases |ifs|
  {
    if |ifs| > 0 {
      assert (ifs + [i])[1..] == ifs[1..] + [i];
      CountReadyAppend(ifs[1..], i);
    }
  }

  /** One line of the interface listing. */
  datatype InterfaceRow = InterfaceRow(name: string, upText: string, macText: string, firstIp: string)

  /** The listing: one row per interface, the two counters and the default. */
  datatype InterfaceListing = InterfaceListing(
    rows: seq<InterfaceRow>,
    interfaceCount: nat,
    readyCount: nat,
    defaultName: Option<string>)

  function RowOf(i: Interface): InterfaceRow {
    InterfaceRow(
      i.name,
      if i.isUp then "✔ UP" else "✖ DOWN",
      match i.mac { case Some(m) => MacText(m) case None => "No MAC address" },
      if |i.ips| > 0 then NetworkText(i.ips[0]) else "")
  }

  /** The name of the default interface, when there is one. */
  function DefaultName(ifs: seq<Interface>): (r: Option<string>)
    ensures SelectDefault(ifs).None? ==> r.None?
    ensures SelectDefault(ifs).Some? ==> r == Some(SelectDefault(ifs).value.name)
  {
    match SelectDefault(ifs)
    case Some(d) => Some(d.name)
    case None => None
  }

  /** The two counters of the listing, accumulated in one pass over the
      interfaces as the listing prints them. */
  method CountInterfaces(ifs: seq<Interface>) returns (interfaceCount: nat, readyCount: nat)
    ensures interfaceCount == |ifs|
    ensures readyCount == CountReady(ifs)
  {
    interfaceCount := 0;
    readyCount := 0;
    var k := 0;
    while k < |ifs|
      invariant 0 <= k <= |ifs|
      invariant interfaceCount == k
      invariant readyCount == CountReady(ifs[..k])
    {
      interfaceCount := interfaceCount + 1;
      assert ifs[..k + 1] == ifs[..k] + [ifs[k]];
      CountReadyAppend(ifs[..k], ifs[k]);
      if IsReady(ifs[k]) {
        readyCount := readyCount + 1;
      }
      k := k + 1;
    }
    assert ifs[..k] == ifs;
  }

  /** Builds the interface listing: a row per interface in system order, the
      counters, and the name of the default interface when one qualifies. */
  method ShowInterfaces(ifs: seq<Interface>) returns (listing: InterfaceListing)
    ensures |listing.rows| == |ifs|
    ensures forall k :: 0 <= k < |ifs| ==> listing.rows[k] == RowOf(ifs[k])
    ensures listing.interfaceCount == |ifs|
    ensures listing.readyCount == CountReady(ifs)
    ensures SelectDefault(ifs).None? ==> listing.defaultName.None?
    ensures SelectDefault(ifs).Some? ==> listing.defaultName == Some(SelectDefault(ifs).value.name)
  {
    var rows := seq(|ifs|, k requires 0 <= k < |ifs| => RowOf(ifs[k]));
    var interfaceCount, readyCount := CountInterfaces(ifs);
    listing := InterfaceListing(rows, interfaceCount, readyCount, DefaultName(ifs));
  }

  /** Every interface that could be the default is also counted as ready. */
  lemma DefaultIsReady(i: Interface)
    requires QualifiesAsDefault(i)
    ensures IsReady(i)
  {
  }

  /** The ready count never exceeds the number of interfaces. */
  lemma {:induction false} ReadyAtMostTotal(ifs: seq<Interface>)
    ensures CountReady(ifs) <= |ifs|
    decreases |ifs|
  {
    if |ifs| > 0 {
      ReadyAtMostTotal(ifs[1..]);
    }
  }

  /** Whenever a default is selected, at least one interface is reported ready. */
  lemma {:induction false} DefaultImpliesSomeReady(ifs: seq<Interface>)
    requires SelectDefault(ifs).Some?
    ensures CountReady(ifs) >= 1
    decreases |ifs|
  {
    if !QualifiesAsDefault(ifs[0]) {
      DefaultImpliesSomeReady(ifs[1..]);
    }
  }
}
