/** The results table shown after a scan: hosts sorted by IPv4 address,
    hostname and vendor columns sized to their longest value (at least 15
    bytes), a three-way hostname cell, and the pluralised summary lines. */
module ResultsTable {
  import opened Wrappers
  import opened Text
  import opened Addresses
  import opened Network
  import opened TargetOrder

  /** The narrowest the hostname and vendor columns get. */
  const MinColumnWidth: nat := 15

  /** Shown for a missing hostname when hostname resolution is switched off. */
  const DisabledText := "(disabled)"

  // ----------------------------------------------------------- column width

  /** The width loop of the source over one column: the running width grows
      to the byte length of each present value that exceeds it. */
  function WidestFrom(cells: seq<Option<string>>, width: nat): (w: nat)
    ensures w >= width
    ensures forall i :: 0 <= i < |cells| && cells[i].Some? ==> Utf8Len(cells[i].value) <= w
    ensures w == width || exists i :: 0 <= i < |cells| && cells[i].Some? && Utf8Len(cells[i].value) == w
  {
    if |cells| == 0 then width
    else
      var next := if cells[0].Some? && Utf8Len(cells[0].value) > width then Utf8Len(cells[0].value) else width;
      var w := WidestFrom(cells[1..], next);
      assert forall i :: 1 <= i < |cells| ==> cells[i] == cells[1..][i - 1];
      w
  }

  /** Column width: the larger of 15 and the longest present value. */
  function ColumnWidth(cells: seq<Option<string>>): (w: nat)
    ensures w >= MinColumnWidth
    ensures forall i :: 0 <= i < |cells| && cells[i].Some? ==> Utf8Len(cells[i].value) <= w
    ensures w == MinColumnWidth || exists i :: 0 <= i < |cells| && cells[i].Some? && Utf8Len(cells[i].value) == w
  {
    WidestFrom(cells, MinColumnWidth)
  }

  function Hostnames(ts: seq<TargetDetails>): seq<Option<string>> {
    seq(|ts|, i requires 0 <= i < |ts| => ts[i].hostname)
  }

  function Vendors(ts: seq<TargetDetails>): seq<Option<string>> {
    seq(|ts|, i requires 0 <= i < |ts| => ts[i].vendor)
  }

  // ------------------------------------------------------------------ cells

  /** Why a hostname cell shows what it shows. */
  datatype HostnameState = Resolved(text: string) | Disabled | Unresolved

  function HostnameStateOf(t: TargetDetails, options: ScanOptions): (s: HostnameState)
    ensures s.Resolved? <==> t.hostname.Some?
    ensures s.Disabled? <==> t.hostname.None? && !options.resolveHostname
    ensures s.Unresolved? <==> t.hostname.None? && options.resolveHostname
    ensures s.Resolved? ==> s.text == t.hostname.value
  {
    match t.hostname
    case Some(h) => Resolved(h)
    case None => if !options.resolveHostname then Disabled else Unresolved
  }

  function HostnameCell(t: TargetDetails, options: ScanOptions): string {
    match HostnameStateOf(t, options)
    case Resolved(h) => h
    case Disabled => DisabledText
    case Unresolved => ""
  }

  /** The vendor cell has no "(disabled)" case: the value or nothing. */
  function VendorCell(t: TargetDetails): string {
    t.vendor.GetOr("")
  }

  /** The hostname cell reads "(disabled)" exactly when the hostname is
      missing because resolution is off, and is empty exactly when the
      lookup ran and found nothing (or found an empty name). */
  lemma HostnameCellCases(t: TargetDetails, options: ScanOptions)
    requires t.hostname.Some? ==> t.hostname.value != DisabledText
    ensures HostnameCell(t, options) == DisabledText <==> t.hostname.None? && !options.resolveHostname
    ensures HostnameCell(t, options) == "" <==>
      (t.hostname.None? && options.resolveHostname) || t.hostname == Some("")
  {
  }

  // ---------------------------------------------------------------- phrases

  /** A counter in words: the zero form, "1 <singular>", or "<n> <plural>". */
  function CountPhrase(n: nat, zero: string, singular: string, plural: string): string {
    if n == 0 then zero
    else if n == 1 then "1 " + singular
    else NatToString(n) + " " + plural
  }

  function HostsPhrase(n: nat): string {
    CountPhrase(n, "no hosts found", "host found", "hosts found")
  }

  function PacketsPhrase(n: nat): string {
    CountPhrase(n, "No packets received", "packet received", "packets received")
  }

  function ArpPhrase(n: nat): string {
    CountPhrase(n, "no ARP packets filtered", "ARP packet filtered", "ARP packets filtered")
  }

  /** Reads the count back from a phrase built by `CountPhrase`. */
  function ReadCount(phrase: string, zero: string, singular: string, plural: string): Option<nat> {
    var cut := |phrase| - |plural| - 1;
    if phrase == zero then Some(0)
    else if phrase == "1 " + singular then Some(1)
    else if 0 <= cut && phrase[cut..] == " " + plural then ParseNat(phrase[..cut])
    else None
  }

  /** Provided the zero form does not start with a digit, the count can be
      read back from its phrase. */
  lemma ReadCountPhrase(n: nat, zero: string, singular: string, plural: string)
    requires |zero| > 0 && !IsDigit(zero[0])
    ensures ReadCount(CountPhrase(n, zero, singular, plural), zero, singular, plural) == Some(n)
  {
    var one := "1 " + singular;
    if n == 1 {
      assert one[0] == '1';
    } else if n >= 2 {
      var s := NatToString(n);
      var ph := s + " " + plural;
      assert ph[0] == s[0];
      assert ph != one by {
        if |s| == 1 {
          assert s[0] == DigitChar(n);
          assert ph[0] != one[0];
        } else {
          assert ph[1] == s[1];
          assert ph[1] != one[1];
        }
      }
      var cut := |ph| - |plural| - 1;
      assert ph[cut..] == " " + plural;
      assert ph[..cut] == s;
      ParseNatToString(n);
    }
  }

  /** Distinct counts give distinct phrases. */
  lemma CountPhraseInjective(a: nat, b: nat, zero: string, singular: string, plural: string)
    requires |zero| > 0 && !IsDigit(zero[0])
    requires CountPhrase(a, zero, singular, plural) == CountPhrase(b, zero, singular, plural)
    ensures a == b
  {
    ReadCountPhrase(a, zero, singular, plural);
    ReadCountPhrase(b, zero, singular, plural);
  }

  /** The three host-count forms and their boundaries. */
  lemma HostsPhraseForms(n: nat)
    ensures n == 0 ==> HostsPhrase(n) == "no hosts found"
    ensures n == 1 ==> HostsPhrase(n) == "1 host found"
    ensures n >= 2 ==> HostsPhrase(n) == NatToString(n) + " hosts found"
    // A worked instance of the previous clause.
    ensures HostsPhrase(5) == "5 hosts found"
  {
  }

  lemma HostsPhraseInjective(a: nat, b: nat)
    requires HostsPhrase(a) == HostsPhrase(b)
    ensures a == b
  {
    CountPhraseInjective(a, b, "no hosts found", "host found", "hosts found");
  }

  // ------------------------------------------------------------------ table

  /** One table row: address, hardware address, hostname and vendor cells. */
  datatype ResultRow = ResultRow(ipv4: string, mac: string, hostname: string, vendor: string)

  /** What the results display shows. */
  datatype ResultsView = ResultsView(
    hostnameWidth: nat,
    vendorWidth: nat,
    showHeader: bool,
    rows: seq<ResultRow>,
    finishedLine: string,
    packetsLine: string)

  function RowOf(t: TargetDetails, options: ScanOptions): ResultRow {
    ResultRow(Ipv4Text(t.ipv4), MacText(t.mac), HostnameCell(t, options), VendorCell(t))
  }

  /** The fixed opening of the line that reports the host count. */
  const FinishedPrefix := "ARP scan finished, "

  function PacketsLine(summary: ResponseSummary): string {
    PacketsPhrase(summary.packetCount) + ", " + ArpPhrase(summary.arpCount)
  }

  /** The results display: targets sorted by address, widths computed over
      them, a header only when there is at least one target, one row per
      target, and the summary lines. */
  function DisplayScanResults(summary: ResponseSummary, targets: seq<TargetDetails>, options: ScanOptions): (v: ResultsView)
    ensures v.showHeader <==> |targets| > 0
    ensures |v.rows| == |targets|
    ensures v.hostnameWidth >= MinColumnWidth && v.vendorWidth >= MinColumnWidth
  {
    var sorted := SortByIpv4(targets);
    ResultsView(
      ColumnWidth(Hostnames(sorted)),
      ColumnWidth(Vendors(sorted)),
      |sorted| > 0,
      seq(|sorted|, i requires 0 <= i < |sorted| => RowOf(sorted[i], options)),
      FinishedPrefix + HostsPhrase(|sorted|),
      PacketsLine(summary))
  }

  lemma HostnameWidthCovers(targets: seq<TargetDetails>)
    ensures var w := ColumnWidth(Hostnames(SortByIpv4(targets)));
      && (forall t :: t in targets && t.hostname.Some? ==> Utf8Len(t.hostname.value) <= w)
      && (w == MinColumnWidth || exists t :: t in targets && t.hostname.Some? && Utf8Len(t.hostname.value) == w)
  {
    var sorted := SortByIpv4(targets);
    SortPermutes(targets);
    var cells := Hostnames(sorted);
    var w := ColumnWidth(cells);
    forall t | t in targets && t.hostname.Some?
      ensures Utf8Len(t.hostname.value) <= w
    {
      assert t in multiset(sorted);
      var i :| 0 <= i < |sorted| && sorted[i] == t;
      assert cells[i] == t.hostname;
    }
    if w != MinColumnWidth {
      var i :| 0 <= i < |cells| && cells[i].Some? && Utf8Len(cells[i].value) == w;
      assert sorted[i] in multiset(targets);
    }
  }

  lemma VendorWidthCovers(targets: seq<TargetDetails>)
    ensures var w := ColumnWidth(Vendors(SortByIpv4(targets)));
      && (forall t :: t in targets && t.vendor.Some? ==> Utf8Len(t.vendor.value) <= w)
      && (w == MinColumnWidth || exists t :: t in targets && t.vendor.Some? && Utf8Len(t.vendor.value) == w)
  {
    var sorted := SortByIpv4(targets);
    SortPermutes(targets);
    var cells := Vendors(sorted);
    var w := ColumnWidth(cells);
    forall t | t in targets && t.vendor.Some?
      ensures Utf8Len(t.vendor.value) <= w
    {
      assert t in multiset(sorted);
      var i :| 0 <= i < |sorted| && sorted[i] == t;
      assert cells[i] == t.vendor;
    }
    if w != MinColumnWidth {
      var i :| 0 <= i < |cells| && cells[i].Some? && Utf8Len(cells[i].value) == w;
      assert sorted[i] in multiset(targets);
    }
  }

  /** The columns are wide enough for every present hostname and vendor of
      the input, and each width is 15 or the length of one of them. */
  lemma WidthsCoverTargets(summary: ResponseSummary, targets: seq<TargetDetails>, options: ScanOptions)
    ensures var v := DisplayScanResults(summary, targets, options);
      && (forall t :: t in targets && t.hostname.Some? ==> Utf8Len(t.hostname.value) <= v.hostnameWidth)
      && (forall t :: t in targets && t.vendor.Some? ==> Utf8Len(t.vendor.value) <= v.vendorWidth)
      && (v.hostnameWidth == MinColumnWidth ||
          exists t :: t in targets && t.hostname.Some? && Utf8Len(t.hostname.value) == v.hostnameWidth)
      && (v.vendorWidth == MinColumnWidth ||
          exists t :: t in targets && t.vendor.Some? && Utf8Len(t.vendor.value) == v.vendorWidth)
  {
    HostnameWidthCovers(targets);
    VendorWidthCovers(targets);
  }

  lemma DisabledTextLength()
    ensures Utf8Len(DisabledText) == 10
  {
    Utf8LenBounds(DisabledText);
  }

  /** Every hostname and vendor cell fits its column, "(disabled)" included. */
  lemma CellsFitColumns(summary: ResponseSummary, targets: seq<TargetDetails>, options: ScanOptions, i: nat)
    requires i < |targets|
    ensures var v := DisplayScanResults(summary, targets, options);
      Utf8Len(v.rows[i].hostname) <= v.hostnameWidth && Utf8Len(v.rows[i].vendor) <= v.vendorWidth
  {
    var sorted := SortByIpv4(targets);
    DisabledTextLength();
    assert Hostnames(sorted)[i] == sorted[i].hostname;
    assert Vendors(sorted)[i] == sorted[i].vendor;
  }

  /** Reading row i's address cell back gives the i-th address in sorted order. */
  lemma RowAddress(summary: ResponseSummary, targets: seq<TargetDetails>, options: ScanOptions, i: nat)
    requires i < |targets|
    ensures ParseIpv4(DisplayScanResults(summary, targets, options).rows[i].ipv4) == Some(SortByIpv4(targets)[i].ipv4)
  {
    var sorted := SortByIpv4(targets);
    assert DisplayScanResults(summary, targets, options).rows[i].ipv4 == Ipv4Text(sorted[i].ipv4);
    Ipv4TextRoundTrip(sorted[i].ipv4);
  }

  /** The address column, read back, is in ascending order. */
  lemma RowsAscending(summary: ResponseSummary, targets: seq<TargetDetails>, options: ScanOptions, i: nat, j: nat)
    requires i <= j < |targets|
    ensures var rows := DisplayScanResults(summary, targets, options).rows;
      ParseIpv4(rows[i].ipv4).Some? && ParseIpv4(rows[j].ipv4).Some? &&
      ParseIpv4(rows[i].ipv4).value <= ParseIpv4(rows[j].ipv4).value
  {
    RowAddress(summary, targets, options, i);
    RowAddress(summary, targets, options, j);
  }

  lemma PhraseHasNoComma(n: nat, zero: string, singular: string, plural: string)
    requires ',' !in zero && ',' !in singular && ',' !in plural
    ensures ',' !in CountPhrase(n, zero, singular, plural)
  {
    if n >= 2 {
      DigitsExclude(n, ',');
    }
  }

  lemma SplitPair(p: string, a: string, sep: string)
    requires |sep| > 0 && sep[0] !in p && sep[0] !in a
    ensures Split(p + sep + a, sep) == [p, a]
  {
    SplitAtSeparator(p, sep, a);
    SplitWithoutSeparator(a, sep);
  }

  /** The packets line determines both counters it reports. */
  lemma PacketsLineDeterminesCounts(s1: ResponseSummary, s2: ResponseSummary)
    requires PacketsLine(s1) == PacketsLine(s2)
    ensures s1.packetCount == s2.packetCount && s1.arpCount == s2.arpCount
  {
    var p1, a1 := PacketsPhrase(s1.packetCount), ArpPhrase(s1.arpCount);
    var p2, a2 := PacketsPhrase(s2.packetCount), ArpPhrase(s2.arpCount);
    PhraseHasNoComma(s1.packetCount, "No packets received", "packet received", "packets received");
    PhraseHasNoComma(s2.packetCount, "No packets received", "packet received", "packets received");
    PhraseHasNoComma(s1.arpCount, "no ARP packets filtered", "ARP packet filtered", "ARP packets filtered");
    PhraseHasNoComma(s2.arpCount, "no ARP packets filtered", "ARP packet filtered", "ARP packets filtered");
    SplitPair(p1, a1, ", ");
    SplitPair(p2, a2, ", ");
    CountPhraseInjective(s1.packetCount, s2.packetCount, "No packets received", "packet received", "packets received");
    CountPhraseInjective(s1.arpCount, s2.arpCount, "no ARP packets filtered", "ARP packet filtered", "ARP packets filtered");
  }

  /** Row i shows the i-th target in address order: its address and
      hardware address as text, its hostname in the three-way cell, and its
      vendor or nothing. */
  lemma RowShowsTarget(summary: ResponseSummary, targets: seq<TargetDetails>, options: ScanOptions, i: nat)
    requires i < |targets|
    ensures var t := SortByIpv4(targets)[i];
      var row := DisplayScanResults(summary, targets, options).rows[i];
      && row.ipv4 == Ipv4Text(t.ipv4)
      && row.mac == MacText(t.mac)
      && (t.hostname.Some? ==> row.hostname == t.hostname.value)
      && (t.hostname.None? && !options.resolveHostname ==> row.hostname == DisabledText)
      && (t.hostname.None? && options.resolveHostname ==> row.hostname == "")
      && (t.vendor.Some? ==> row.vendor == t.vendor.value)
      && (t.vendor.None? ==> row.vendor == "")
  {
    var sorted := SortByIpv4(targets);
    assert DisplayScanResults(summary, targets, options).rows[i] == RowOf(sorted[i], options);
  }

  /** The two summary lines report the number of targets and both counters
      of the summary, and each of the three counts reads back from the text. */
  lemma SummaryLines(summary: ResponseSummary, targets: seq<TargetDetails>, options: ScanOptions)
    ensures var v := DisplayScanResults(summary, targets, options);
      && v.finishedLine == FinishedPrefix + HostsPhrase(|targets|)
      && v.packetsLine == PacketsLine(summary)
      && ReadCount(v.finishedLine[|FinishedPrefix|..], "no hosts found", "host found", "hosts found") == Some(|targets|)
      && Split(v.packetsLine, ", ") == [PacketsPhrase(summary.packetCount), ArpPhrase(summary.arpCount)]
      && ReadCount(Split(v.packetsLine, ", ")[0], "No packets received", "packet received", "packets received")
           == Some(summary.packetCount)
      && ReadCount(Split(v.packetsLine, ", ")[1], "no ARP packets filtered", "ARP packet filtered", "ARP packets filtered")
           == Some(summary.arpCount)
  {
    var v := DisplayScanResults(summary, targets, options);
    var hosts := HostsPhrase(|targets|);
    assert v.finishedLine[|FinishedPrefix|..] == hosts;
    ReadCountPhrase(|targets|, "no hosts found", "host found", "hosts found");
    var p, a := PacketsPhrase(summary.packetCount), ArpPhrase(summary.arpCount);
    PhraseHasNoComma(summary.packetCount, "No packets received", "packet received", "packets received");
    PhraseHasNoComma(summary.arpCount, "no ARP packets filtered", "ARP packet filtered", "ARP packets filtered");
    SplitPair(p, a, ", ");
    ReadCountPhrase(summary.packetCount, "No packets received", "packet received", "packets received");
    ReadCountPhrase(summary.arpCount, "no ARP packets filtered", "ARP packet filtered", "ARP packets filtered");
  }
}
