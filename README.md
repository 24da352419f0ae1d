# printermonitor in Dafny

A Dafny model of the core of `printermonitor.py`, an AppDaemon app that polls
networked printers over SNMPv1 and publishes their ink and toner levels to Home
Assistant. The model has two parts:

- **The subtree walk (`getsnmptree`).** An SNMP GetNext walk (section 4.1.3 of
  RFC 1157) is given as a sequence of steps. Each step is an errorIndication,
  a non-zero errorStatus, or the first varBind as an (OID, value) pair of
  strings. `GetSnmpTree` builds the dictionary one update at a time and stops at
  the first error. It is proved equal to `WalkTree`. The lemmas say which keys
  the result holds, that the last binding of a repeated OID wins, that the map
  only grows, and that nothing after an error counts.
- **The per-printer resolution (the body of the address loop in
  `check_printers`).** `ResolveDevice` does the following:
  - merges the supplies walk with the sysName walk (sysName is from MIB-II,
    section 6 of RFC 1213);
  - takes the printer name from sysName.0, stripped and lower-cased;
  - computes the marker count `int((len - 1) / 8)`;
  - builds each marker's tail, `.1.i` on a one-marker printer and `.0.i`
    otherwise;
  - reads the prtMarkerSuppliesDescription, MaxCapacity and Level columns
    (`.6`, `.8`, `.9`) of the Printer MIB (RFC 3805);
  - cuts the description at its first space;
  - computes the truncated percent;
  - ORs the low flag across markers;
  - issues one slider write per marker, then one group write.

  It is proved equal to `Resolve`. The lemmas say that a completed printer
  gives exactly n slider writes in index order, followed by the group write.
  That write is "Low" exactly when some marker is under 10 %. A printer that
  raises gives only the sliders of the markers before the one that raised.

`CheckPrinter` is one pass of the address loop: both walks, then
`ResolveDevice`. It is proved equal to `DeviceReport`. `CheckPrinters` runs it
for every address in order. It is proved equal to `Poll` over `Device(walk)`.

The model treats the outside world as follows:

- **SNMP transport.** The pysnmp calls are a function `walk(address, rootOid)`.
  It returns the steps of that walk.
- **Writes.** Each `set_state` call is a `StateWrite(entity, state)` appended to
  an output sequence.
- **Python exceptions.** `KeyError`, a `ValueError` from `int()` and
  `ZeroDivisionError` are a `Fault`. A fault ends the poll and keeps the writes
  already made, as an uncaught exception in `check_printers` does.
- **Python built-ins.** `str.strip`, `str.lower`, `str.find`, `s[:stop]`,
  `int(str)`, `str(int)` and `int()` of a float quotient are in module `PyStr`.
  `strip`, `find`, slicing and `str(int)` follow CPython. `lower`, `int(str)`
  and the float quotient are approximated, as "## Left out" says.

Behaviour of the code worth knowing:

- A marker name is not lower-cased, and `-` is not replaced by `_`.
- A percent of 0 is published as 0. It is not raised to 1.
- The marker count comes from the size of the merged map. It is not found by
  scanning key prefixes.
- A printer that answers neither walk is not skipped. Indexing sysName.0 raises
  `KeyError` (`OfflinePrinterRaises`), and the rest of the poll does not happen.
- An empty supplies walk with a sysName present gives one group write, "Ok"
  (`ResolveNoMarkers`). It does not give zero writes.
- The percent is not confined to 0..100. The Printer MIB's negative sentinel
  levels come through as they are (`PercentExamples`).
- The community string is always `public`.

## Model

| member | source | states |
|---|---|---|
| PyStr.Strip | printermonitor.py:75 | `strip()` leaves a string that neither starts nor ends with whitespace (Python's `isspace` set) |
| PyStr.StripRemovesOnlyOuterSpace | printermonitor.py:75 | what `strip()` removes is whitespace at the two ends only; the remainder is a contiguous piece of the input |
| PyStr.Lower | printermonitor.py:75 | `lower()` keeps the length, turns each letter A-Z into its lower-case letter (code point + 32) and changes no other character |
| PyStr.LowerIdempotent | printermonitor.py:75 | lower-casing twice is lower-casing once |
| PyStr.Find | printermonitor.py:103 | `find(" ")` is -1 exactly when there is no space, otherwise the index of the first space |
| PyStr.SliceTo | printermonitor.py:103 | `s[:stop]` is a prefix of `s` whose length follows Python's rules for negative and too-large `stop` |
| PyStr.NatToStringDigits | printermonitor.py:82-84 | `str(i)` is a non-empty digit string without leading zeros whose decimal value is `i` |
| PyStr.ParseNatToString | printermonitor.py:104-105 | `int(str(n)) == n`: the value parser inverts the integer printer |
| PyStr.ParseNegativeDigits | printermonitor.py:104-105 | `int("-" + d)` of a non-empty digit string `d` is minus the value of `d`, so negative levels parse |
| PyStr.TruncDivBounds | printermonitor.py:106 | `int(a / b)` truncates toward zero: `q * b` lies between 0 and `a` and is less than `abs(b)` away from `a` |
| PrinterMonitor.FirstError | printermonitor.py:128-145 | the index of the first errorIndication/errorStatus step: every step before it is a binding, the step at it is not |
| PrinterMonitor.GetSnmpTree | printermonitor.py:124-154 | the loop's dictionary equals the updates of the bindings before the first error, in order |
| PrinterMonitor.PrefixTreeKeys | printermonitor.py:139-151 | after i successful steps the dictionary's keys are exactly the OIDs those steps bound |
| PrinterMonitor.PrefixTreeLastWins | printermonitor.py:147-151 | a binding not overwritten by a later step is the value stored (dict.update semantics) |
| PrinterMonitor.PrefixTreeGrows | printermonitor.py:125-151 | the dictionary only gains keys as the walk proceeds and never holds more keys than steps taken |
| PrinterMonitor.WalkTreeKeys | printermonitor.py:128-151 | an OID is in the returned map exactly when some step before the first error bound it |
| PrinterMonitor.WalkTreeLastWins | printermonitor.py:147-151 | a repeated OID keeps its last value before the first error |
| PrinterMonitor.WalkTreeEmpty | printermonitor.py:125-145 | the returned map is empty exactly when the first step is an error (or the walk is empty) |
| PrinterMonitor.WalkStopsAtError | printermonitor.py:139-145 | when step e is the first error, whatever follows it, the returned map is the same |
| PrinterMonitor.NumMarkers | printermonitor.py:77 | `int((len - 1) / 8)`: for a non-empty map `8n + 1 <= len < 8n + 9`; an empty map gives 0 |
| PrinterMonitor.MarkerName | printermonitor.py:103 | the name is a space-free prefix of the description, ending just before the first space, or all but the last character when there is no space |
| PrinterMonitor.MarkerNameExample | printermonitor.py:92-103 | "Black Cartridge HP CE278A" gives "Black" |
| PrinterMonitor.MarkerNameWithoutSpace | printermonitor.py:103 | "black" gives "blac", since `find` returns -1 |
| PrinterMonitor.ReadMarker | printermonitor.py:102-106 | a marker reads successfully exactly when its three keys exist, capacity and level parse as integers and capacity is non-zero; otherwise the fault is that of the first failing step in source order: KeyError for the description, then the capacity key, ValueError for the capacity, KeyError for the level key, ValueError for the level, then ZeroDivisionError; a successful read is the description cut at its first space with the truncated percent |
| PrinterMonitor.ReadMarkerValid | printermonitor.py:102-109 | with present entries, `0 < capacity` and `0 <= level <= capacity`, the marker reads with the percent `(100 * level) / capacity` (floor), in 0..100, under 10 exactly when `10 * level < capacity` |
| PrinterMonitor.ReadMarkerKeyError | printermonitor.py:102-105 | a KeyError while reading a marker names one of its three column keys, never sysName.0 |
| PrinterMonitor.TailDecodes | printermonitor.py:81-84 | the tail starts `.1.` exactly for a one-marker printer (`.0.` otherwise) and ends with `str(i)`, from which `i` reads back |
| PrinterMonitor.TailInjective | printermonitor.py:81-84 | distinct marker indices have distinct tails |
| PrinterMonitor.MarkerKeysDistinct | printermonitor.py:102-105 | the description, capacity and level keys of all markers are pairwise distinct |
| PrinterMonitor.PercentInRange | printermonitor.py:106 | for `0 < capacity` and `0 <= level <= capacity` the percent is `floor(100 * level / capacity)`, in 0..100 |
| PrinterMonitor.PercentLow | printermonitor.py:106-109 | for a positive capacity and non-negative level, the percent is under 10 exactly when `10 * level < capacity` |
| PrinterMonitor.PercentExamples | printermonitor.py:86-92 | 4899 of 5000 (97.98 %) is 97, 46 of 100 is 46, 0 of 1000 is 0 (no clamp), level -3 of 100 is -3 |
| PrinterMonitor.PrinterNameNormal | printermonitor.py:75 | the printer name has no outer whitespace and no upper-case letter, and normalising it again changes nothing |
| PrinterMonitor.Merge | printermonitor.py:72-73 | the merged map has both key sets; the hostname map's value wins on a clash |
| PrinterMonitor.ReadMarkers | printermonitor.py:80-106 | markers 1..k are read in increasing order up to the first that raises; each marker kept is what its index reads, and the fault is what the raising index reads |
| PrinterMonitor.ReadMarkersAfterFault | printermonitor.py:80-106 | once a marker has raised, further indices change nothing |
| PrinterMonitor.SliderWrites | printermonitor.py:115 | one `input_slider.<printer>_<marker>` write per marker, in marker order |
| PrinterMonitor.AnyLowSnoc | printermonitor.py:108-109 | one more marker sets the low flag exactly when its percent is under 10, and never clears it |
| PrinterMonitor.SlidersRead | printermonitor.py:80-115 | the slider writes of markers read at indices 1..k are, in order, those of what each index reads |
| PrinterMonitor.LowRead | printermonitor.py:79-109 | after markers 1..k read, the low flag is true exactly when some index reads a percent under 10 |
| PrinterMonitor.OutcomeSliders | printermonitor.py:80-117 | when every marker reads, the writes are n sliders in index order followed by one more write |
| PrinterMonitor.OutcomeGroup | printermonitor.py:108-117 | when every marker reads, the last write is the group's, "Low" exactly when some index reads under 10 % |
| PrinterMonitor.OutcomeFaulted | printermonitor.py:80-115 | when marker k+1 raises, the writes are the k sliders before it, in order, and its error is the fault |
| PrinterMonitor.ResolveDevice | printermonitor.py:69-117 | the loop body's writes and exception equal those of `Resolve` |
| PrinterMonitor.ResolveCompleted | printermonitor.py:77-117 | a printer that does not raise writes exactly n sliders for markers 1..n in order and then one group write, "Low" exactly when some marker is under 10 % |
| PrinterMonitor.ResolveFaulted | printermonitor.py:75-115 | a printer that raises either lacks sysName.0 and writes nothing, or writes the sliders of the markers before the raising one and no group write |
| PrinterMonitor.ResolveMissingSysName | printermonitor.py:72-75 | the printer raises KeyError for sysName.0 exactly when neither walk returned it |
| PrinterMonitor.ResolveNoMarkers | printermonitor.py:77-80 | a merged map with sysName.0 and fewer than 9 entries gives only the group write "Ok" |
| PrinterMonitor.PollCompletes | printermonitor.py:67-117 | the poll completes exactly when no printer raises |
| PrinterMonitor.PollAfterFault | printermonitor.py:67 | once a printer has raised, later addresses add nothing |
| PrinterMonitor.PollConcat | printermonitor.py:67 | a completed poll of some addresses followed by others writes the first writes, then the others' |
| PrinterMonitor.PollStep | printermonitor.py:67-117 | a completed poll of the first i addresses, followed by printer i, writes the earlier writes then printer i's, and ends with printer i's fault |
| PrinterMonitor.PollPrefixFault | printermonitor.py:67 | a poll that raised within the first i addresses is the whole poll |
| PrinterMonitor.PollStopsAt | printermonitor.py:67-117 | the first printer to raise ends the poll: the earlier printers' writes, then its own partial writes, and its fault |
| PrinterMonitor.OfflinePrinterRaises | printermonitor.py:71-75 | a printer that answers neither walk raises KeyError for sysName.0 and writes nothing |
| PrinterMonitor.CheckPrinter | printermonitor.py:68-117 | one pass of the address loop (the sysName walk, the supplies walk, then the printer's writes) yields exactly `DeviceReport` |
| PrinterMonitor.CheckPrinters | printermonitor.py:64-117 | the address loop's writes and exception equal those of `Poll` over the per-printer reports |

## Left out

- Scheduling (`initialize`, `run_every`, `hourly_check_handler`): these are AppDaemon timer plumbing. The model starts at one call of `check_printers`.
- `self.log` and the `{:0.2f}` formatting of the log line: these produce diagnostic output only.
- `print` of the error details in `getsnmptree`: this is diagnostic output, except that its argument `varBinds[int(errorIndex) - 1][0]` raises `IndexError` when an agent reports an errorIndex beyond its varBinds. The model ends the walk at an errorStatus step without that exception.
- The address list from `eval(self.args["PrinterAddresses"])`: this is dynamic evaluation of configuration. The model takes the addresses as a `seq<string>`.
- pysnmp (`nextCmd`, `SnmpEngine`, `CommunityData('public', mpModel=0)`, `UdpTransportTarget` on port 161, `ContextData`, `ObjectType`): this is network I/O through a library whose code is not visible. A walk is a pure function of (address, root OID). The model therefore assumes that each walk's answer does not depend on timing or on earlier walks.
- `str()` of pysnmp's OID and value objects: a `Bind` step already carries the two strings. A successful step with no varBind, which would raise `IndexError`, is not representable.
- PrinterMonitor.Percent: computed as `trunc(100 * level / capacity)` on exact integers. Python computes `int((level / capacity) * 100)` in floating point. That can be one lower for some inputs (29 of 100 gives 28), and it raises `OverflowError` for integers beyond the float range.
- PyStr.Lower: maps only the ASCII letters A-Z. Python's `lower()` also maps non-ASCII letters.
- PyStr.ParseInt: accepts optional whitespace, an optional sign and ASCII digits. Python's `int()` also accepts underscores between digits and non-ASCII decimal digits. `str()` of an SNMP integer never contains either. It also trims the whitespace of `str.strip()`, which includes U+001C..U+001F; CPython's `int()` does not skip those, so `int("\x1c5")` raises `ValueError` where the model gives 5.
- `set_state` attributes: the source passes none, so a write is only an entity and a state.
