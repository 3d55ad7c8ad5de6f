# arp-scan result presentation and export, modelled in Dafny

This project models the presentation and export layer of the `arp-scan`
host-discovery tool, as implemented in `src/utils.rs`. That layer takes the
output of a finished ARP scan and decides what the user sees or what is
exported:

- **Default interface.** It picks the default network interface: the first interface, in system order, that has a MAC address, has an IP, is up, is not loopback, and has an IPv4 address.
- **Interface listing.** It counts interfaces, and counts the interfaces that look ready for a scan (up, not loopback, has an IP).
- **Pre-scan line.** It lists at most five target networks, then " (N more)". It also shows any forced source IPv4 or destination MAC.
- **Network size.** It adds up the sizes of the IPv4 target networks. An IPv6 network is refused.
- **Results table.** Hosts are sorted by IPv4 address. The hostname and vendor columns are at least 15 bytes wide. A missing hostname shows as "(disabled)" or as nothing, depending on whether hostname resolution was on. The host, packet and ARP-packet counts are phrased in singular or plural.
- **Export.** Hosts are sorted by IPv4 address, then flattened into text records in which a missing hostname or vendor becomes "". JSON and YAML carry the summary counters along with the records. CSV carries only the records.

Modules, one file each:

| file | module | models |
|---|---|---|
| wrappers.dfy | `Wrappers` | `Option`, `Result` |
| text.dfy | `Text` | decimal/hex rendering and parsing, join/split, UTF-8 byte length |
| addresses.dfy | `Addresses` | `Ipv4Addr`, `MacAddr`, `IpNetwork`, `NetworkInterface` and their `Display` text |
| network.dfy | `Network` | `ResponseSummary`, `TargetDetails`, the `ScanOptions` fields read here |
| interfaces.dfy | `Interfaces` | `select_default_interface`, the counters of `show_interfaces` |
| prescan.dfy | `Prescan` | `display_prescan_details` |
| netsize.dfy | `NetworkSize` | `compute_network_size` |
| order.dfy | `TargetOrder` | `sort_by_key(|item| item.ipv4)` |
| table.dfy | `ResultsTable` | `display_scan_results` |
| export.dfy | `Export` | `get_serializable_result`, `export_to_json` / `_yaml` / `_csv` |

Modelling choices:

- **IPv4 addresses.** An IPv4 address is its 32-bit value, so `<=` is the same order as `Ipv4Addr`'s.
- **MAC addresses.** A MAC address is six bytes.
- **Display text.** The display text of IPv4 and MAC addresses is written out: dotted decimal, and lower-case hex pairs joined by ':'. This lets the export be read back (`Export.ExportRoundTrip`).
- **IPv6 addresses.** These are kept as opaque text, because nothing here computes on them.
- **String length.** `String::len` is a UTF-8 byte length. It is modelled as `Text.Utf8Len` over Unicode scalar values.
- **Errors instead of exit.** Where the source prints a diagnostic and calls `process::exit(1)` (`compute_network_size`), the model returns `Failure(Ipv6NotSupported)`.
- **Values instead of printing.** Printed output is modelled as the values printed: rows, cells and lines.

## Model

| member | source | states |
|---|---|---|
| `Interfaces.SelectDefault` | src/utils.rs:67-88 | Returns the first interface, in input order, that has a MAC, at least one IP, is up, is not loopback and has an IPv4 address; returns None exactly when no interface qualifies |
| `Interfaces.CountInterfaces` | src/utils.rs:28-53 | The interface counter equals the number of interfaces; the ready counter equals the number of interfaces that are up, not loopback and have an IP |
| `Interfaces.ShowInterfaces` | src/utils.rs:26-61 | One row per interface in order, the two counters as above, and the default interface's name exactly when a default is selected |
| `Interfaces.DefaultIsReady` | src/utils.rs:71-82 | Every interface that qualifies as the default also passes the looser readiness test |
| `Interfaces.ReadyAtMostTotal` | src/utils.rs:49-52 | The ready count never exceeds the interface count |
| `Interfaces.DefaultImpliesSomeReady` | src/utils.rs:50-58 | If a default interface is announced, the ready count is at least one |
| `Prescan.PrescanDetails` | src/utils.rs:94-110 | The source-IPv4 line is present iff the option is set, and the same holds for the destination-MAC line; each carries the forced value's text; the interface line names the interface and the network list |
| `Prescan.MoreSuffixShape` | src/utils.rs:97-100 | The " (N more)" suffix appears exactly when more than five networks are given, and the N read back from it is the count minus five |
| `Prescan.NetworkListRecoversNetworks` | src/utils.rs:96 | For at least one network, splitting the named part of the list at ", " gives back, in order, the texts of the first min(5, N) networks |
| `Prescan.NoNetworksListed` | src/utils.rs:96-101 | With no networks, nothing is named and no suffix follows: the list is empty |
| `NetworkSize.FoldSizes` | src/utils.rs:118-128 | The fold fails iff some network, at any position, is IPv6; otherwise it yields the running total plus the sum of 2^(32 - prefix) |
| `NetworkSize.ComputeNetworkSize` | src/utils.rs:116-129 | The result is the sum of 2^(32 - prefix) over the networks when all are IPv4, and the unsupported-input error iff any entry is IPv6 |
| `NetworkSize.TotalSizeAppend` | src/utils.rs:118-128 | The total of two lists of IPv4 networks put together is the sum of their totals |
| `NetworkSize.TotalSizeBounds` | src/utils.rs:116-129 | The total lies between the number of networks and that number times 2^32, so it fits the u128 result |
| `NetworkSize.TwoSlash30` | src/utils.rs:116-129 | Worked example of the general contract: two /30 networks give 8, whatever their addresses |
| `TargetOrder.InsertPermutes` | src/utils.rs:137 | Inserting one target adds exactly that target to the collection |
| `TargetOrder.InsertSorted` | src/utils.rs:137 | Inserting into a sorted list keeps it sorted |
| `TargetOrder.SortByIpv4` | src/utils.rs:137 | The result is sorted ascending by IPv4 and has the input's length |
| `TargetOrder.SortPermutes` | src/utils.rs:137 | The sorted list is a permutation of the input: the same targets, duplicates included |
| `TargetOrder.SortIsStable` | src/utils.rs:137 | Targets sharing an address keep their input order, as `sort_by_key` is stable |
| `TargetOrder.SortIdempotent` | src/utils.rs:258 | Sorting an already sorted list changes nothing, so repeated exports of the same data agree |
| `TargetOrder.SortedPermutationsAgree` | src/utils.rs:258 | Two lists that are both sorted by address and are permutations of each other are equal, when no two different targets share an address |
| `TargetOrder.SortIgnoresInputOrder` | src/utils.rs:258 | When no two different targets share an address, any two arrangements of the same targets sort to the same list |
| `ResultsTable.WidestFrom` | src/utils.rs:139-154 | The width loop's result is at least its start, at least the byte length of every present value, and equal to the start or to one such length |
| `ResultsTable.ColumnWidth` | src/utils.rs:139-154 | A column width is at least 15, at least every present value's byte length, and equal to 15 or to some present value's length |
| `ResultsTable.WidthsCoverTargets` | src/utils.rs:139-154 | In the table, the hostname and vendor widths cover every present hostname and vendor of the input, and each equals 15 or one of their lengths |
| `ResultsTable.HostnameWidthCovers` | src/utils.rs:141-147 | The hostname width covers every present hostname of the input and is 15 or the length of one of them |
| `ResultsTable.VendorWidthCovers` | src/utils.rs:149-153 | The vendor width covers every present vendor of the input and is 15 or the length of one of them |
| `ResultsTable.HostnameStateOf` | src/utils.rs:164-168 | The hostname cell is in one of three states: resolved exactly when the hostname is present, disabled exactly when it is absent and resolution is off, and unresolved exactly when it is absent and resolution is on |
| `ResultsTable.HostnameCellCases` | src/utils.rs:164-172 | For a host whose resolved name is not itself "(disabled)": the hostname cell reads "(disabled)" iff the hostname is absent and resolution is off, and reads "" iff it is absent with resolution on (or the name itself is empty) |
| `ResultsTable.CellsFitColumns` | src/utils.rs:156-174 | The hostname and vendor cells of every row, "(disabled)" included, fit within their column widths |
| `ResultsTable.DisplayScanResults` | src/utils.rs:135-198 | The header is shown iff there is at least one target; there is one row per target; both widths are at least 15 (row contents and summary lines: `RowShowsTarget`, `SummaryLines`) |
| `ResultsTable.RowShowsTarget` | src/utils.rs:162-173 | Row i shows the i-th target in address order: its address and MAC text, its hostname if present, "(disabled)" if absent with resolution off, "" if absent with resolution on, and its vendor or "" |
| `ResultsTable.SummaryLines` | src/utils.rs:176-196 | The finished line is "ARP scan finished, " followed by the host phrase for the number of targets, and the packets line is the packet phrase, ", ", then the ARP phrase; the host count and both counters read back from the text |
| `ResultsTable.RowAddress` | src/utils.rs:162-173 | Reading row i's address cell back gives the i-th address of the targets sorted by address |
| `ResultsTable.RowsAscending` | src/utils.rs:137-173 | Read back, the address column is in ascending order: for rows i <= j, row i's address is at most row j's |
| `ResultsTable.ReadCountPhrase` | src/utils.rs:179-196 | A count phrase (zero form, "1 <singular>" or "<n> <plural>") reads back to its count |
| `ResultsTable.CountPhraseInjective` | src/utils.rs:179-196 | Different counts give different phrases |
| `ResultsTable.HostsPhraseForms` | src/utils.rs:179-183 | 0 gives "no hosts found", 1 gives "1 host found", n >= 2 gives "n hosts found" |
| `ResultsTable.HostsPhraseInjective` | src/utils.rs:179-183 | The host phrase determines the number of hosts |
| `ResultsTable.PacketsLineDeterminesCounts` | src/utils.rs:187-196 | The packets line ("No packets received"/"1 packet received"/"n packets received", then the ARP phrase) determines both the packet count and the ARP count |
| `Export.SerializableResult` | src/utils.rs:220-250 | The counters are copied unchanged, and there is one record per target in the same order, with absent hostname or vendor as "" |
| `Export.ExportDocument` | src/utils.rs:256-300 | Only CSV drops the summary counters and keeps the records alone |
| `Export.FormatsAgree` | src/utils.rs:256-300 | JSON, YAML and CSV carry the same records in the same order; JSON and YAML carry the counters unchanged |
| `Export.ExportRoundTrip` | src/utils.rs:220-250 | Decoding each exported record gives the canonical view (address, MAC, hostname or "", vendor or "") of the sorted target at that position, in ascending address order |
| `Export.ExportIgnoresInputOrder` | src/utils.rs:256-260 | When no two different targets share an address, the export is the same for any arrangement of the targets |
| `Export.TableAgreesWithExport` | src/utils.rs:225-239 | In every row, the table and the export agree on address, MAC and vendor; the hostnames agree except exactly when the hostname is absent and resolution is off, where the table shows "(disabled)" and the export shows "" |
| `Export.RecordAt` | src/utils.rs:220-260 | Every format's record i is the i-th target in address order, canonicalised, and there is one record per target |
| `Addresses.Ipv4TextRoundTrip` | src/utils.rs:236 | The dotted-decimal text of an address parses back to that address |
| `Addresses.MacTextRoundTrip` | src/utils.rs:237 | The colon-separated hex text of a MAC parses back to that MAC |

## Left out

- `is_root_user` (src/utils.rs:17-19) is not modelled. It reads the `USER` environment variable.
- Printing is not modelled: stdout and stderr, ANSI colouring of the tick, cross and "no hosts found", and blank lines. The model returns the values printed instead. The tick and cross glyphs themselves are kept in the up/down text ("✔ UP", "✖ DOWN"), uncoloured. The finished line stops before " in N seconds" (see the duration line below).
- The exact `{: <N}` padding and the header and separator text are not modelled. Widths are modelled, but the padded strings are not built.
- The duration in seconds (src/utils.rs:184-185) is not modelled. It is an `f32` division printed with three decimals, which is floating point.
- The JSON, YAML and CSV encoders are not modelled, nor is their failure path (`serde_json`, `serde_yaml`, the `csv` writer and `process::exit(1)` on error). They are library code. The model ends at the structure handed to them. Byte-level output is not modelled either, including CSV quoting and the CSV header row, which the `csv` writer emits only with the first record.
- `process::exit(1)` itself is not modelled. It becomes a returned error.
- The interface enumeration is not modelled. It is an operating-system call, and the list is a parameter.
- The `Arc` sharing of the scan options is not modelled. Only the three option fields read here are kept.
- The text of IPv6 addresses is not modelled. It is kept as an opaque string.
- The IPv4 network size follows `ipnetwork`, which is not part of this model. The size is 2^(32 - prefix). How that library represents the /0 size in its 32-bit result is not modelled.
- The `u128` total cannot overflow, so no wrap-around is modelled. `NetworkSize.TotalSizeBounds` bounds it by the number of networks times 2^32.
- `Prescan.NetworkListRecoversNetworks` also requires at least one network: splitting the empty list's text "" gives [""], not []. The empty case is stated separately by `Prescan.NoNetworksListed`.
- `Prescan.NetworkListRecoversNetworks` requires that IPv6 address texts contain no comma. IPv6 text never does, but the model keeps that text opaque, so the fact has to be assumed.
- `ResultsTable.HostnameCellCases` requires that a present hostname is not itself "(disabled)". The source prints a resolved name as it is, so a host whose name is "(disabled)" shows the same cell as a host with resolution off; the two cases cannot be told apart from the table. `ResultsTable.HostnameStateOf` and `ResultsTable.RowShowsTarget` state the cell for every input without this condition.
