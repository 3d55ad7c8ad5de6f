/** The address and interface types the utilities consume: IPv4 addresses
    ordered numerically like `Ipv4Addr`, 48-bit hardware addresses, IPv4/IPv6
    networks, and operating-system interfaces. Their `Display` renderings are
    given together with parsers that read them back. */
module Addresses {
  import opened Wrappers
  import opened Text

  /** An IPv4 address as its 32-bit big-endian value; `<=` is `Ipv4Addr`'s order. */
  type Ipv4 = a: int | 0 <= a < 0x1_0000_0000

  /** A hardware (MAC) address: six bytes. */
  type Mac = s: seq<Byte> | |s| == 6 witness [0, 0, 0, 0, 0, 0]

  type Prefix4 = p: int | 0 <= p <= 32
  type Prefix6 = p: int | 0 <= p <= 128

  /** An IP network: an address plus a prefix length. IPv6 addresses are kept
      as their display text, since nothing here computes on them. */
  datatype IpNetwork =
    | V4Net(addr: Ipv4, prefix4: Prefix4)
    | V6Net(addrText: string, prefix6: Prefix6)

  /** An operating-system network interface, in the order the system lists them. */
  datatype Interface = Interface(
    name: string,
    mac: Option<Mac>,
    ips: seq<IpNetwork>,
    isUp: bool,
    isLoopback: bool)

  // ------------------------------------------------------------------ IPv4

  /** The address whose octets, most significant first, are the arguments. */
  function FromOctets(o0: Byte, o1: Byte, o2: Byte, o3: Byte): Ipv4 {
    ((o0 as int * 256 + o1) * 256 + o2) * 256 + o3
  }

  /** The four octets, most significant first. */
  function Octets(a: Ipv4): (o: seq<Byte>)
    ensures |o| == 4
    ensures FromOctets(o[0], o[1], o[2], o[3]) == a
  {
    var b := a / 256;
    var c := b / 256;
    [c / 256, c % 256, b % 256, a % 256]
  }

  function DecimalParts(o: seq<Byte>): (parts: seq<string>)
    ensures |parts| == |o|
    ensures forall i :: 0 <= i < |o| ==> parts[i] == NatToString(o[i])
  {
    if |o| == 0 then [] else [NatToString(o[0])] + DecimalParts(o[1..])
  }

  /** Dotted-decimal text, as `Ipv4Addr` displays. */
  function Ipv4Text(a: Ipv4): string {
    Join(DecimalParts(Octets(a)), ".")
  }

  function ParseOctet(s: string): Option<Byte> {
    match ParseNat(s)
    case Some(v) => if v < 256 then Some(v) else None
    case None => None
  }

  function ParseIpv4(s: string): Option<Ipv4> {
    var parts := Split(s, ".");
    if |parts| != 4 then None
    else match (ParseOctet(parts[0]), ParseOctet(parts[1]), ParseOctet(parts[2]), ParseOctet(parts[3]))
      case (Some(o0), Some(o1), Some(o2), Some(o3)) => Some(FromOctets(o0, o1, o2, o3))
      case _ => None
  }

  lemma DigitsExclude(n: nat, c: char)
    requires !IsDigit(c)
    ensures c !in NatToString(n)
  {
  }

  /** Reading back the dotted-decimal text gives the address. */
  lemma Ipv4TextRoundTrip(a: Ipv4)
    ensures ParseIpv4(Ipv4Text(a)) == Some(a)
  {
    var o := Octets(a);
    var parts := DecimalParts(o);
    forall i | 0 <= i < 4
      ensures '.' !in parts[i]
      ensures ParseOctet(parts[i]) == Some(o[i])
    {
      DigitsExclude(o[i], '.');
      ParseNatToString(o[i]);
    }
    SplitJoin(parts, ".");
  }

  lemma Ipv4TextInjective(a: Ipv4, b: Ipv4)
    requires Ipv4Text(a) == Ipv4Text(b)
    ensures a == b
  {
    Ipv4TextRoundTrip(a);
    Ipv4TextRoundTrip(b);
  }

  lemma Ipv4TextHasNoComma(a: Ipv4)
    ensures ',' !in Ipv4Text(a)
  {
    var parts := DecimalParts(Octets(a));
    forall i | 0 <= i < |parts| ensures ',' !in parts[i] {
      DigitsExclude(Octets(a)[i], ',');
    }
    JoinExcludes(parts, ".", ',');
  }

  // ------------------------------------------------------------------- MAC

  function HexParts(bs: seq<Byte>): (parts: seq<string>)
    ensures |parts| == |bs|
    ensures forall i :: 0 <= i < |bs| ==> parts[i] == HexPair(bs[i])
  {
    if |bs| == 0 then [] else [HexPair(bs[0])] + HexParts(bs[1..])
  }

  /** Colon-separated lower-case hexadecimal, as `MacAddr` displays. */
  function MacText(m: Mac): string {
    Join(HexParts(m), ":")
  }

  function ParseHexParts(parts: seq<string>): (r: Option<seq<Byte>>)
    ensures r.Some? ==> |r.value| == |parts|
  {
    if |parts| == 0 then Some([])
    else match (ParseHexPair(parts[0]), ParseHexParts(parts[1..]))
      case (Some(b), Some(bs)) => Some([b] + bs)
      case _ => None
  }

  function ParseMac(s: string): Option<Mac> {
    var parts := Split(s, ":");
    if |parts| != 6 then None
    else match ParseHexParts(parts)
      case Some(bs) => Some(bs)
      case None => None
  }

  lemma {:induction false} ParseHexPartsRoundTrip(bs: seq<Byte>)
    ensures ParseHexParts(HexParts(bs)) == Some(bs)
    decreases |bs|
  {
    if |bs| > 0 {
      ParseHexPairRoundTrip(bs[0]);
      assert HexParts(bs)[1..] == HexParts(bs[1..]);
      ParseHexPartsRoundTrip(bs[1..]);
      assert [bs[0]] + bs[1..] == bs;
    }
  }

  /** Reading back the colon-separated text gives the hardware address. */
  lemma MacTextRoundTrip(m: Mac)
    ensures ParseMac(MacText(m)) == Some(m)
  {
    var parts := HexParts(m);
    forall i | 0 <= i < |parts| ensures ':' !in parts[i] {
      var p := HexPair(m[i]);
      assert p == [p[0], p[1]];
    }
    SplitJoin(parts, ":");
    ParseHexPartsRoundTrip(m);
  }

  lemma MacTextInjective(a: Mac, b: Mac)
    requires MacText(a) == MacText(b)
    ensures a == b
  {
    MacTextRoundTrip(a);
    MacTextRoundTrip(b);
  }

  // --------------------------------------------------------------- networks

  /** `address/prefix`, as `IpNetwork` displays. */
  function NetworkText(n: IpNetwork): string {
    match n
    case V4Net(a, p) => Ipv4Text(a) + "/" + NatToString(p)
    case V6Net(t, p) => t + "/" + NatToString(p)
  }

  predicate IsIpv4(n: IpNetwork) {
    n.V4Net?
  }

  lemma NetworkTextHasNoComma(n: IpNetwork)
    requires n.V6Net? ==> ',' !in n.addrText
    ensures ',' !in NetworkText(n)
  {
    match n
    case V4Net(a, p) =>
      Ipv4TextHasNoComma(a);
      DigitsExclude(p, ',');
    case V6Net(t, p) =>
      DigitsExclude(p, ',');
  }
}
