/** What the scan engine hands to the presentation layer, and the scan options
    that layer reads. */
module Network {
  import opened Wrappers
  import opened Addresses

  /** Counters of one finished scan. */
  datatype ResponseSummary = ResponseSummary(packetCount: nat, arpCount: nat, durationMs: nat)

  /** One discovered host; the hostname and vendor are present only when the
      corresponding lookup succeeded. */
  datatype TargetDetails = TargetDetails(
    ipv4: Ipv4,
    mac: Mac,
    hostname: Option<string>,
    vendor: Option<string>)

  /** The options this layer reads. */
  datatype ScanOptions = ScanOptions(
    resolveHostname: bool,
    sourceIpv4: Option<Ipv4>,
    destinationMac: Option<Mac>)
}
