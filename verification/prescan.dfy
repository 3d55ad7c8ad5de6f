/** The summary shown before a scan starts: the selected interface, the
    target networks (at most five, then a count of the rest) and the forced
    source IPv4 and destination MAC when the options carry them. */
module Prescan {
  import opened Wrappers
  import opened Text
  import opened Addresses
  import opened Network

  /** How many networks are listed by name before the rest are counted. */
  const ListedNetworks := 5

  function NetworkTexts(ns: seq<IpNetwork>): (ts: seq<string>)
    ensures |ts| == |ns|
    ensures forall i :: 0 <= i < |ns| ==> ts[i] == NetworkText(ns[i])
  {
    if |ns| == 0 then [] else [NetworkText(ns[0])] + NetworkTexts(ns[1..])
  }

  /** The networks named in the list: the first five, or all when fewer. */
  function Listed(ns: seq<IpNetwork>): (shown: seq<IpNetwork>)
    ensures |shown| == if |ns| <= ListedNetworks then |ns| else ListedNetworks
    ensures shown == ns[..|shown|]
  {
    if |ns| <= ListedNetworks then ns else ns[..ListedNetworks]
  }

  /** The " (N more)" suffix counting the networks left unnamed. */
  function MoreSuffix(count: nat): string {
    if count > ListedNetworks then " (" + NatToString(count - ListedNetworks) + " more)" else ""
  }

  /** The named part of the network list: the listed networks joined by ", ". */
  function NamedNetworks(ns: seq<IpNetwork>): string {
    Join(NetworkTexts(Listed(ns)), ", ")
  }

  /** The network list of the summary line. */
  function NetworkList(ns: seq<IpNetwork>): string {
    NamedNetworks(ns) + MoreSuffix(|ns|)
  }

  /** The lines printed before a scan. */
  datatype PrescanView = PrescanView(
    interfaceLine: string,
    sourceLine: Option<string>,
    destinationLine: Option<string>)

  function PrescanDetails(ns: seq<IpNetwork>, selected: Interface, options: ScanOptions): (v: PrescanView)
    ensures v.sourceLine.Some? <==> options.sourceIpv4.Some?
    ensures v.destinationLine.Some? <==> options.destinationMac.Some?
    ensures options.sourceIpv4.Some? ==>
      v.sourceLine.value == "The ARP source IPv4 will be forced to " + Ipv4Text(options.sourceIpv4.value)
    ensures options.destinationMac.Some? ==>
      v.destinationLine.value == "The ARP destination MAC will be forced to " + MacText(options.destinationMac.value)
    ensures v.interfaceLine == "Selected interface " + selected.name + " with IP " + NetworkList(ns)
  {
    PrescanView(
      "Selected interface " + selected.name + " with IP " + NetworkList(ns),
      match options.sourceIpv4 {
        case Some(a) => Some("The ARP source IPv4 will be forced to " + Ipv4Text(a))
        case None => None
      },
      match options.destinationMac {
        case Some(m) => Some("The ARP destination MAC will be forced to " + MacText(m))
        case None => None
      })
  }

  /** The count suffix is present exactly when more than five networks are
      given, and then reads back as the number of networks left out. */
  lemma MoreSuffixShape(count: nat)
    ensures MoreSuffix(count) != "" <==> count > ListedNetworks
    ensures count > ListedNetworks ==>
      var s := MoreSuffix(count);
      |s| > 7 && s[..2] == " (" && s[|s| - 6..] == " more)"
      && ParseNat(s[2..|s| - 6]) == Some(count - ListedNetworks)
  {
    if count > ListedNetworks {
      var digits := NatToString(count - ListedNetworks);
      var s := MoreSuffix(count);
      assert s == " (" + digits + " more)";
      assert s[2..|s| - 6] == digits;
      ParseNatToString(count - ListedNetworks);
    }
  }

  /** Splitting the named part of the list at ", " gives back, in order,
      the texts of the first min(5, N) networks. */
  lemma NetworkListRecoversNetworks(ns: seq<IpNetwork>)
    requires |ns| > 0
    requires forall i :: 0 <= i < |ns| && ns[i].V6Net? ==> ',' !in ns[i].addrText
    ensures Split(NamedNetworks(ns), ", ") == NetworkTexts(Listed(ns))
  {
    var shown := Listed(ns);
    var texts := NetworkTexts(shown);
    forall i | 0 <= i < |texts| ensures ", "[0] !in texts[i] {
      NetworkTextHasNoComma(shown[i]);
    }
    SplitJoin(texts, ", ");
  }

  /** With no target networks the list is empty: nothing is named and no
      suffix follows. (Splitting "" would give [""], hence the non-empty
      requirement of the read-back above.) */
  lemma NoNetworksListed()
    ensures NetworkTexts(Listed([])) == []
    ensures NamedNetworks([]) == "" && NetworkList([]) == ""
  {
  }
}
