/** Export of scan results. Targets are sorted by address and flattened into
    text records whose missing hostname or vendor becomes ""; JSON and YAML
    carry the summary counters with the records, CSV carries the records only.
    The encoders themselves are library code and are not modelled: a
    document here is the structure handed to them. */
module Export {
  import opened Wrappers
  import opened Addresses
  import opened Network
  import opened TargetOrder
  import ResultsTable

  /** One exported host: every field is text. */
  datatype ResultItem = ResultItem(ipv4: string, mac: string, hostname: string, vendor: string)

  /** The exported whole: the summary counters and the records. */
  datatype GlobalResult = GlobalResult(packetCount: nat, arpCount: nat, durationMs: nat, results: seq<ResultItem>)

  datatype Format = Json | Yaml | Csv

  /** What an encoder receives: the whole result, or for CSV the records alone. */
  datatype Document = Full(global: GlobalResult) | RecordsOnly(records: seq<ResultItem>)

  function ItemOf(t: TargetDetails): ResultItem {
    ResultItem(Ipv4Text(t.ipv4), MacText(t.mac), t.hostname.GetOr(""), t.vendor.GetOr(""))
  }

  /** The canonical shape of a result, records in the order given. */
  function SerializableResult(summary: ResponseSummary, targets: seq<TargetDetails>): (g: GlobalResult)
    ensures g.packetCount == summary.packetCount
    ensures g.arpCount == summary.arpCount
    ensures g.durationMs == summary.durationMs
    ensures |g.results| == |targets|
    ensures forall i :: 0 <= i < |targets| ==> g.results[i] == ItemOf(targets[i])
  {
    GlobalResult(
      summary.packetCount,
      summary.arpCount,
      summary.durationMs,
      seq(|targets|, i requires 0 <= i < |targets| => ItemOf(targets[i])))
  }

  /** Sorts the targets by address, canonicalises, and keeps what the format
      serialises. */
  function ExportDocument(format: Format, summary: ResponseSummary, targets: seq<TargetDetails>): (d: Document)
    ensures d.RecordsOnly? <==> format == Csv
  {
    var global := SerializableResult(summary, SortByIpv4(targets));
    match format
    case Json => Full(global)
    case Yaml => Full(global)
    case Csv => RecordsOnly(global.results)
  }

  function Records(d: Document): seq<ResultItem> {
    match d
    case Full(g) => g.results
    case RecordsOnly(rs) => rs
  }

  /** All three formats carry the same records in the same order, JSON and
      YAML carry the summary counters unchanged, and CSV carries no counters. */
  lemma FormatsAgree(summary: ResponseSummary, targets: seq<TargetDetails>)
    ensures Records(ExportDocument(Json, summary, targets)) == Records(ExportDocument(Csv, summary, targets))
    ensures Records(ExportDocument(Yaml, summary, targets)) == Records(ExportDocument(Csv, summary, targets))
    ensures forall f :: f != Csv ==>
      var g := ExportDocument(f, summary, targets).global;
      g.packetCount == summary.packetCount && g.arpCount == summary.arpCount && g.durationMs == summary.durationMs
    ensures |Records(ExportDocument(Csv, summary, targets))| == |targets|
  {
  }

  /** A record read back: address and hardware address parsed from text,
      hostname and vendor as written. */
  datatype Decoded = Decoded(ipv4: Ipv4, mac: Mac, hostname: string, vendor: string)

  function Decode(item: ResultItem): Option<Decoded> {
    match (ParseIpv4(item.ipv4), ParseMac(item.mac))
    case (Some(a), Some(m)) => Some(Decoded(a, m, item.hostname, item.vendor))
    case _ => None
  }

  /** The canonical view of a target: optional text fields flattened to "". */
  function Canonical(t: TargetDetails): Decoded {
    Decoded(t.ipv4, t.mac, t.hostname.GetOr(""), t.vendor.GetOr(""))
  }

  /** Reading the exported records back gives, in order, the canonical views
      of the targets sorted by address: the address order is ascending and
      every record comes from exactly one input target. */
  lemma ExportRoundTrip(format: Format, summary: ResponseSummary, targets: seq<TargetDetails>)
    ensures var rs := Records(ExportDocument(format, summary, targets));
      var sorted := SortByIpv4(targets);
      && |rs| == |targets|
      && (forall i :: 0 <= i < |rs| ==> Decode(rs[i]) == Some(Canonical(sorted[i])))
      && (forall i, j :: 0 <= i < j < |rs| ==> Decode(rs[i]).value.ipv4 <= Decode(rs[j]).value.ipv4)
  {
    var rs := Records(ExportDocument(format, summary, targets));
    var sorted := SortByIpv4(targets);
    forall i | 0 <= i < |rs|
      ensures Decode(rs[i]) == Some(Canonical(sorted[i]))
    {
      Ipv4TextRoundTrip(sorted[i].ipv4);
      MacTextRoundTrip(sorted[i].mac);
    }
  }

  /** When no two different targets share an address, the export does not
      depend on the order the targets arrived in. */
  lemma ExportIgnoresInputOrder(format: Format, summary: ResponseSummary, a: seq<TargetDetails>, b: seq<TargetDetails>)
    requires multiset(a) == multiset(b) && DistinctAddresses(multiset(a))
    ensures ExportDocument(format, summary, a) == ExportDocument(format, summary, b)
  {
    SortIgnoresInputOrder(a, b);
  }

  /** The table and the export show the same address, hardware address and
      vendor in each row; the hostnames differ exactly where the hostname is
      missing with resolution off: the table shows "(disabled)" and the
      export shows "". */
  lemma TableAgreesWithExport(format: Format, summary: ResponseSummary, targets: seq<TargetDetails>,
                              options: ScanOptions, i: nat)
    requires i < |targets|
    ensures var row := ResultsTable.DisplayScanResults(summary, targets, options).rows[i];
      var record := Records(ExportDocument(format, summary, targets))[i];
      var t := SortByIpv4(targets)[i];
      && row.ipv4 == record.ipv4
      && row.mac == record.mac
      && row.vendor == record.vendor
      && (if t.hostname.None? && !options.resolveHostname
          then row.hostname == ResultsTable.DisabledText && record.hostname == ""
          else row.hostname == record.hostname)
  {
    ResultsTable.RowShowsTarget(summary, targets, options, i);
    RecordAt(format, summary, targets, i);
  }

  /** Record i of any format is the i-th target in address order, canonicalised. */
  lemma RecordAt(format: Format, summary: ResponseSummary, targets: seq<TargetDetails>, i: nat)
    requires i < |targets|
    ensures |Records(ExportDocument(format, summary, targets))| == |targets|
    ensures Records(ExportDocument(format, summary, targets))[i] == ItemOf(SortByIpv4(targets)[i])
  {
  }
}
