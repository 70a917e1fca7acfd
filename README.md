# Interfaces report: grouping and per-device aggregation

This project models the core of the IP Fabric interfaces report
(`interfaces_report.py`). The script takes a flat list of interface records
from the inventory. It groups them by device hostname and reduces each
device's group to one report row. A row holds the hostname, the serial number
and site of the first record, the interface total, four link-state counters,
two reason-based counters and two percentages.

- `interfaces.dfy` (module `Interfaces`) holds the interface `Record`, the
  admin-down reason list, and the per-record tests. These are the four
  link-state tests on `(l1, l2)`, the exact admin-down match, and the `"err"`
  substring test on a non-null reason.
- `comprehension.dfy` (module `Comprehension`) holds `Filter` and `Count`.
  They are Python's `[i for i in g if p(i)]` and `len(...)`, with lemmas on
  what a filter keeps and in which order.
- `grouping.dfy` (module `Grouping`) holds the grouping loop as a method,
  `GroupByHostname`. It also holds the value the loop builds, `Group`, with the
  properties of that value. The insertion-ordered dictionary is a `Grouped`:
  a key sequence in insertion order plus a `map`.
- `report.dfy` (module `Report`) holds the row of one group (`Row`), the
  report loop (`BuildInterfaceReport`) and the two steps run back to back
  (`InterfacesReport`).

The four link-state tests (interfaces_report.py:149-154) are not a
partition: a record with `l1 == "down"` and `l2 == "up"` matches none of them.
`Report.LinkStateCounts` proves that the counters fall short of the total by
exactly the number of such records. The same records count neither as in use
nor as not used, so the two percentages can add up to less than 100.

An empty group cannot reach the report's zero guards on the percentages.
Reading the group's first record (interfaces_report.py:166) would fail first.
`BuildInterfaceReport` models that failure as an `EmptyGroup` result.
`InterfacesReport` proves that grouped input never produces it.

## Model

| member | source | states |
|---|---|---|
| `Interfaces.LinkStateCellsPartition` | interfaces_report.py:149-154 | the up/up, down/down, up/down and unknown tests are pairwise disjoint, and the down/up combination is the only case none of them matches |
| `Interfaces.AdminDownReasonHasNoErr` | interfaces_report.py:16-22 | none of the five admin-down reasons contains the substring "err" |
| `Interfaces.ReasonOverlaysDisjoint` | interfaces_report.py:155-158 | no record is both admin-down and err-disabled, and a null reason is neither |
| `Interfaces.ReasonExamples` | interfaces_report.py:155-158 | "disabled" is admin-down whatever the link state, "err-disabled-foo" is err-disabled, and "Admin" is not admin-down (the match is case-sensitive) |
| `Comprehension.FilterMultiset` | interfaces_report.py:149-158 | a list comprehension keeps every element that passes its test, as often as the input holds it, and nothing else |
| `Comprehension.FilterKeepsOrder` | interfaces_report.py:149-158 | a list comprehension keeps input order: its k-th element is the input at the k-th passing position, and no passing position is skipped |
| `Comprehension.FilterAppend` | interfaces_report.py:149-158 | filtering a concatenation is the concatenation of the filtered parts |
| `Interfaces.L1UpL2Up` | interfaces_report.py:149 | holds exactly when both `l1` and `l2` are "up" |
| `Interfaces.L1DownL2Down` | interfaces_report.py:150 | holds exactly when both `l1` and `l2` are "down" |
| `Interfaces.L1UpL2Down` | interfaces_report.py:151 | holds exactly when `l1` is "up" and `l2` is "down" |
| `Interfaces.L1L2Unknown` | interfaces_report.py:152-154 | holds when `l1` or `l2` is neither "up" nor "down", a null state included |
| `Interfaces.IsAdminDown` | interfaces_report.py:155 | holds when the reason is one of the five admin-down reasons, matched exactly; a null reason never matches |
| `Interfaces.IsErrDisabled` | interfaces_report.py:156-158 | holds when the reason is not null and contains "err" as a contiguous substring |
| `Comprehension.Filter` | interfaces_report.py:149-158 | the list comprehension `[i for i in g if p(i)]`; the result is never longer than the input (its contents and order are stated by `FilterMultiset` and `FilterKeepsOrder`) |
| `Comprehension.Count` | interfaces_report.py:149-158 | `len` of that comprehension; at most the length of the input |
| `Grouping.Hostnames` | interfaces_report.py:124-129 | the dictionary's keys in insertion order, each hostname where it first appears (its properties are stated by `HostnamesExact` and `HostsInFirstSeenOrder`) |
| `Grouping.Group` | interfaces_report.py:124-129 | the dictionary the loop builds: keys in first-seen order, each mapped to that host's records in input order; the result is well formed (distinct keys, each with a group) |
| `Grouping.HostnamesExact` | interfaces_report.py:124-129 | the grouping's keys are distinct and are exactly the hostnames that occur in the input |
| `Grouping.GroupByHostname` | interfaces_report.py:124-131 | the loop's result is the insertion-ordered dictionary `Group(records)` |
| `Grouping.GroupSnoc` | interfaces_report.py:126-129 | one loop step appends a record to its host's existing list, or opens a one-element list for a new host as the last key |
| `Grouping.GroupingLosesNothing` | interfaces_report.py:124-129 | the groups, concatenated in key order, are a permutation of the input, so the group sizes sum to the number of records |
| `Grouping.RecordInItsOwnGroup` | interfaces_report.py:126-129 | each input record is in the group keyed by its hostname and in no other group |
| `Grouping.GroupKeepsInputOrder` | interfaces_report.py:125-127 | within a group, records appear in input order, taken from exactly the input positions with that hostname |
| `Grouping.HostsInFirstSeenOrder` | interfaces_report.py:125-129 | group keys are ordered by the position where each hostname first appears |
| `Grouping.GroupStartsWithFirstSeen` | interfaces_report.py:129 | every group is non-empty, and its first record is the input's first record with that hostname |
| `Report.Percentage` | interfaces_report.py:175-180 | the percentage is count × 100 / total when total > 0 and 0 otherwise, and it is at most 100 when count ≤ total |
| `Report.Row` | interfaces_report.py:148-181 | the report dictionary of one host: hostname, sn and siteName of the group's first record, the group size as total, the six counters, and the two percentages of in-use (up/up + up/down + unknown) and not-used (down/down) interfaces; its properties are stated by `RowCounters` and `RowPercentages` |
| `Report.LinkStateCounts` | interfaces_report.py:149-154 | the four link-state counters plus the number of down/up records equal the group size, so the counters sum to at most the total |
| `Report.ReasonCounts` | interfaces_report.py:155-158 | admin-down plus err-disabled is at most the group size |
| `Report.RowCounters` | interfaces_report.py:147-174 | a row carries its hostname and a positive total; its link-state counters fall short of the total by the down/up records; its reason counters sum to at most the total |
| `Report.RowPercentages` | interfaces_report.py:160-161 | the zero guards (lines 175-180) are not taken for a row; utilisation is (up/up + up/down + unknown) × 100 / total and availability is down/down × 100 / total; each lies in [0, 100] and together they are at most 100 |
| `Report.ExampleGrouping` | interfaces_report.py:124-129 | two records of host A group into the single key A, holding both records in order |
| `Report.ExampleRow` | interfaces_report.py:163-181 | for one up/up and one down/down interface the row has total 2, one interface in each of those buckets, 50% utilisation and 50% availability |
| `Report.BuildInterfaceReport` | interfaces_report.py:146-183 | it returns one row per key in key order, each row built from that key's group, exactly when every group is non-empty; otherwise it names the first key whose group is empty |
| `Report.GroupsNonEmpty` | interfaces_report.py:129 | no group of a grouping is empty |
| `Report.RowsOfGroupedRecords` | interfaces_report.py:163-168 | rows built from a grouping have positive totals and carry the serial number and site of their host's first input record, and their totals sum to the number of records |
| `Report.InterfacesReport` | interfaces_report.py:211-215 | grouping followed by report building gives one row per hostname in first-seen order, built from that host's records, with positive totals summing to the number of records |

## Left out

- Fetching the records through the IPFabric client (interfaces_report.py:119-122) is network I/O through a foreign library. The records are the input of the model.
- The interface-name exclusion regex (interfaces_report.py:25-27, 94) and the column list (interfaces_report.py:96-117) go to the inventory server, which filters there. Nothing is filtered locally.
- A `Record` has only the columns the report reads: hostname, sn, siteName, l1, l2 and reason. The other fourteen columns only pass through to the raw-data sheet.
- The second return value of `fetch_interfaces_data` (interfaces_report.py:131) is the fetched list itself, unchanged. It is the model's input.
- Argument parsing (interfaces_report.py:30-46) and environment loading, including the `eval` of `IPF_VERIFY` (interfaces_report.py:191-199), are configuration plumbing.
- The timestamped file name (interfaces_report.py:203-205) depends on the wall clock.
- CSV and Excel writing (interfaces_report.py:49-79) is file I/O through external libraries.
- Progress output in `main` (interfaces_report.py:210-225) is not modelled.
- Report.Percentage: the percentage is kept as an exact fraction (`Percent(num, den)`, meaning num/den percent). The floating-point division and `round(..., 2)` of interfaces_report.py:175-180 are left out. The bounds are stated on the exact value, not on the rounded float.
