/**
 The printer monitor: for every configured printer address it walks two SNMP
 subtrees (sysName from MIB-II, RFC 1213 section 6, and the
 prtMarkerSuppliesEntry columns of the Printer MIB, RFC 3805), merges them into
 one map from OID string to value string, and publishes one input_slider
 state per marker (its percent full) and one group state ("Low" or "Ok") per
 printer to the home-automation state store.

 The SNMP transport is a function `walk(address, rootOid)` giving the steps a
 GetNext walk produces; each `set_state` call is one StateWrite appended to an
 output sequence; a Python exception (KeyError, ValueError from int(),
 ZeroDivisionError) is a Fault that ends the poll with the writes made so far.
 */
module PrinterMonitor {

  import opened PyStr

  // ---------------------------------------------------------------------------
  // Object identifiers

  /** sysName.0 (MIB-II): the only OID read by name from the merged map. */
  const SysNameOid := "1.3.6.1.2.1.1.5.0"
  /** Roots of the two walks; a GetNext walk starts just after its root. */
  const SysNameRoot := "1.3.6.1.2.1.1.5"
  const SuppliesRoot := "1.3.6.1.2.1.43.11.1.1"
  /** prtMarkerSuppliesDescription, prtMarkerSuppliesMaxCapacity, prtMarkerSuppliesLevel. */
  const DescriptionColumn := "1.3.6.1.2.1.43.11.1.1.6"
  const CapacityColumn := "1.3.6.1.2.1.43.11.1.1.8"
  const LevelColumn := "1.3.6.1.2.1.43.11.1.1.9"
  /** A marker under this percent makes its printer "Low". */
  const LowThreshold := 10

  // ---------------------------------------------------------------------------
  // SNMP subtree walk

  /** One step of the walk: an errorIndication, a non-zero errorStatus, or the first varBind. */
  datatype Step = IndicationError | StatusError | Bind(oid: string, value: string)

  /** Index of the first failed step, or the walk's length when no step fails. */
  function FirstError(steps: seq<Step>): (e: nat)
    ensures e <= |steps|
    ensures forall j :: 0 <= j < e ==> steps[j].Bind?
    ensures e < |steps| ==> !steps[e].Bind?
  {
    if steps == [] || !steps[0].Bind? then 0 else 1 + FirstError(steps[1..])
  }

  /** The dictionary that successive `update`s with the steps' bindings build, from an empty one. */
  function TreeOf(steps: seq<Step>): map<string, string>
  {
    if steps == [] then map[]
    else
      var tree := TreeOf(steps[..|steps| - 1]);
      var last := steps[|steps| - 1];
      if last.Bind? then tree[last.oid := last.value] else tree
  }

  /** What `getsnmptree` returns for a walk: the bindings of the steps before the first error. */
  function WalkTree(steps: seq<Step>): map<string, string>
  {
    TreeOf(steps[..FirstError(steps)])
  }

  /** `getsnmptree`: one dictionary update per successful step, stopping at the first error. */
  method GetSnmpTree(steps: seq<Step>) returns (resultDict: map<string, string>)
    ensures resultDict == WalkTree(steps)
  {
    resultDict := map[];
    var i := 0;
    while i < |steps|
      invariant i <= FirstError(steps)
      invariant resultDict == TreeOf(steps[..i])
    {
      match steps[i] {
        case IndicationError => break;
        case StatusError => break;
        case Bind(oid, value) =>
          assert steps[..i + 1][..i] == steps[..i];
          resultDict := resultDict[oid := value];
          i := i + 1;
      }
    }
    assert steps[..FirstError(steps)] == steps[..i];
  }

  /** The OIDs in the map after `i` successful steps are exactly those the steps bound. */
  lemma {:induction false} PrefixTreeKeys(steps: seq<Step>, i: nat, k: string)
    requires i <= FirstError(steps)
    ensures k in TreeOf(steps[..i]) <==> exists j :: 0 <= j < i && steps[j].oid == k
  {
    if i > 0 {
      assert steps[..i][..i - 1] == steps[..i - 1];
      PrefixTreeKeys(steps, i - 1, k);
    }
  }

  /** A binding that no later step overwrites is the value found in the map. */
  lemma {:induction false} PrefixTreeLastWins(steps: seq<Step>, i: nat, j: nat)
    requires j < i <= FirstError(steps)
    requires forall j' :: j < j' < i ==> steps[j'].oid != steps[j].oid
    ensures steps[j].oid in TreeOf(steps[..i]) && TreeOf(steps[..i])[steps[j].oid] == steps[j].value
  {
    assert steps[..i][..i - 1] == steps[..i - 1];
    if j < i - 1 {
      PrefixTreeLastWins(steps, i - 1, j);
    }
  }

  /** The map only ever gains keys as the walk proceeds, and holds at most one key per step. */
  lemma {:induction false} PrefixTreeGrows(steps: seq<Step>, i: nat, j: nat)
    requires i <= j <= FirstError(steps)
    ensures TreeOf(steps[..i]).Keys <= TreeOf(steps[..j]).Keys
    ensures |TreeOf(steps[..j])| <= j
  {
    if j > 0 {
      assert steps[..j][..j - 1] == steps[..j - 1];
      if i < j {
        PrefixTreeGrows(steps, i, j - 1);
      } else {
        PrefixTreeGrows(steps, i - 1, j - 1);
      }
    }
  }

  /** An OID is in the walk's result exactly when a step before the first error bound it. */
  lemma WalkTreeKeys(steps: seq<Step>, k: string)
    ensures k in WalkTree(steps) <==> exists j :: 0 <= j < FirstError(steps) && steps[j].oid == k
  {
    PrefixTreeKeys(steps, FirstError(steps), k);
  }

  /** A repeated OID keeps the value of its last binding before the first error. */
  lemma WalkTreeLastWins(steps: seq<Step>, j: nat)
    requires j < FirstError(steps)
    requires forall j' :: j < j' < FirstError(steps) ==> steps[j'].oid != steps[j].oid
    ensures steps[j].oid in WalkTree(steps) && WalkTree(steps)[steps[j].oid] == steps[j].value
  {
    PrefixTreeLastWins(steps, FirstError(steps), j);
  }

  /** The result is empty exactly when the very first step is an error (or there is none). */
  lemma WalkTreeEmpty(steps: seq<Step>)
    ensures WalkTree(steps) == map[] <==> FirstError(steps) == 0
  {
    if FirstError(steps) > 0 {
      WalkTreeKeys(steps, steps[0].oid);
    }
  }

  /** The first failed step is the one after an unbroken run of successful steps. */
  lemma FirstErrorAt(steps: seq<Step>, e: nat)
    requires e < |steps| && !steps[e].Bind?
    requires forall j :: 0 <= j < e ==> steps[j].Bind?
    ensures FirstError(steps) == e
  {
  }

  /**
   Nothing after the first error contributes: when step `e` is the first
   failure, any continuation after it yields the same map.
   */
  lemma WalkStopsAtError(steps: seq<Step>, e: nat, rest: seq<Step>)
    requires e < |steps| && FirstError(steps) == e
    ensures WalkTree(steps[..e + 1] + rest) == WalkTree(steps)
  {
    var s' := steps[..e + 1] + rest;
    forall j | 0 <= j < e
      ensures s'[j].Bind?
    {
      assert s'[j] == steps[j];
    }
    assert s'[e] == steps[e];
    FirstErrorAt(s', e);
    assert s'[..e] == steps[..e];
  }

  // ---------------------------------------------------------------------------
  // Per-marker computations

  datatype Fault = KeyError(key: string) | ValueError(literal: string) | ZeroDivisionError

  datatype Result<T> = Success(value: T) | Failure(error: Fault)

  /** A marker as published: its short name and its integer percent full. */
  datatype Marker = Marker(name: string, percent: int)

  /**
   `int((len(result) - 1) / 8)`: the number of markers a merged map of `size`
   entries holds, one entry being sysName and 8 the accessible columns of
   prtMarkerSuppliesEntry. For `size == 0` the quotient -0.125 truncates to 0.
   */
  function NumMarkers(size: nat): (n: nat)
    ensures size == 0 ==> n == 0
    ensures size > 0 ==> 8 * n + 1 <= size < 8 * n + 9
  {
    if size == 0 then 0 else (size - 1) / 8
  }

  /** The table-index suffix of marker `i`: `.1.i` on a one-marker printer, `.0.i` otherwise. */
  function Tail(i: nat, numMarkers: nat): string
  {
    (if numMarkers == 1 then ".1." else ".0.") + NatToString(i)
  }

  /** `d[:d.find(" ")]`: the description up to its first space; with no space, all but its last character. */
  function MarkerName(description: string): (name: string)
    ensures |name| <= |description| && name == description[..|name|]
    ensures ' ' !in name
    ensures ' ' in description ==> |name| < |description| && description[|name|] == ' '
    ensures ' ' !in description ==> |name| == if description == [] then 0 else |description| - 1
  {
    SliceTo(description, Find(description, ' '))
  }

  /** `int((current / capacity) * 100)`: the percent full, truncated toward zero. */
  function Percent(current: int, capacity: int): int
    requires capacity != 0
  {
    TruncDiv(100 * current, capacity)
  }

  /** The printer's name: its sysName, stripped and lower-cased. */
  function PrinterName(sysName: string): string
  {
    Lower(Strip(sysName))
  }

  /**
   Lines that read one marker: its description, capacity and level entries at
   `tail`, in that order, each missing key raising KeyError and each
   unparsable number ValueError; a zero capacity raises ZeroDivisionError.
   */
  function ReadMarker(result: map<string, string>, tail: string): (r: Result<Marker>)
    ensures r.Success? <==>
      && DescriptionColumn + tail in result
      && CapacityColumn + tail in result
      && LevelColumn + tail in result
      && ParseInt(result[CapacityColumn + tail]).Some?
      && ParseInt(result[LevelColumn + tail]).Some?
      && ParseInt(result[CapacityColumn + tail]).value != 0
    ensures DescriptionColumn + tail !in result ==> r == Failure(KeyError(DescriptionColumn + tail))
    ensures DescriptionColumn + tail in result && CapacityColumn + tail !in result
            ==> r == Failure(KeyError(CapacityColumn + tail))
    ensures DescriptionColumn + tail in result && CapacityColumn + tail in result
            && ParseInt(result[CapacityColumn + tail]).None?
            ==> r == Failure(ValueError(result[CapacityColumn + tail]))
    ensures DescriptionColumn + tail in result && CapacityColumn + tail in result
            && ParseInt(result[CapacityColumn + tail]).Some? && LevelColumn + tail !in result
            ==> r == Failure(KeyError(LevelColumn + tail))
    ensures DescriptionColumn + tail in result && CapacityColumn + tail in result && LevelColumn + tail in result
            && ParseInt(result[CapacityColumn + tail]).Some? && ParseInt(result[LevelColumn + tail]).None?
            ==> r == Failure(ValueError(result[LevelColumn + tail]))
    ensures DescriptionColumn + tail in result && CapacityColumn + tail in result && LevelColumn + tail in result
            && ParseInt(result[CapacityColumn + tail]) == Some(0) && ParseInt(result[LevelColumn + tail]).Some?
            ==> r == Failure(ZeroDivisionError)
    ensures r.Success? ==>
      r.value == Marker(MarkerName(result[DescriptionColumn + tail]),
                        Percent(ParseInt(result[LevelColumn + tail]).value, ParseInt(result[CapacityColumn + tail]).value))
  {
    var descriptionKey := DescriptionColumn + tail;
    var capacityKey := CapacityColumn + tail;
    var levelKey := LevelColumn + tail;
    if descriptionKey !in result then Failure(KeyError(descriptionKey))
    else
      var name := MarkerName(result[descriptionKey]);
      if capacityKey !in result then Failure(KeyError(capacityKey))
      else
        var capacity := ParseInt(result[capacityKey]);
        if capacity.None? then Failure(ValueError(result[capacityKey]))
        else if levelKey !in result then Failure(KeyError(levelKey))
        else
          var current := ParseInt(result[levelKey]);
          if current.None? then Failure(ValueError(result[levelKey]))
          else if capacity.value == 0 then Failure(ZeroDivisionError)
          else Success(Marker(name, Percent(current.value, capacity.value)))
  }

  /** The tail starts with the scheme's selector and ends with `str(i)`, from which `i` is read back. */
  lemma TailDecodes(i: nat, numMarkers: nat)
    ensures var t := Tail(i, numMarkers);
      && |t| > 3
      && t[..3] == (if numMarkers == 1 then ".1." else ".0.")
      && ParseInt(t[3..]) == Some(i)
  {
    var t := Tail(i, numMarkers);
    NatToStringDigits(i);
    assert t[3..] == NatToString(i);
    ParseNatToString(i);
  }

  /** Distinct markers have distinct tails. */
  lemma TailInjective(i: nat, j: nat, numMarkers: nat)
    requires Tail(i, numMarkers) == Tail(j, numMarkers)
    ensures i == j
  {
    TailDecodes(i, numMarkers);
    TailDecodes(j, numMarkers);
  }

  /** Each (column, marker) pair reads its own key: the keys of two such pairs differ unless the pairs agree. */
  lemma MarkerKeysDistinct(column1: string, column2: string, i: nat, j: nat, numMarkers: nat)
    requires column1 in {DescriptionColumn, CapacityColumn, LevelColumn}
    requires column2 in {DescriptionColumn, CapacityColumn, LevelColumn}
    requires column1 + Tail(i, numMarkers) == column2 + Tail(j, numMarkers)
    ensures column1 == column2 && i == j
  {
    var key := column1 + Tail(i, numMarkers);
    assert |column1| == |column2| == 23;
    assert column1 == key[..23] == column2;
    assert Tail(i, numMarkers) == key[23..] == Tail(j, numMarkers);
    TailInjective(i, j, numMarkers);
  }

  /** For a full description the percent is the level's share of the capacity, in 0..100. */
  lemma PercentInRange(current: int, capacity: int)
    requires 0 < capacity && 0 <= current <= capacity
    ensures Percent(current, capacity) == (100 * current) / capacity
    ensures 0 <= Percent(current, capacity) <= 100
  {
    var q := Percent(current, capacity);
    TruncDivNonNegative(100 * current, capacity);
    TruncDivBounds(100 * current, capacity);
    if q > 100 {
      MulMonotone(101, q, capacity);
      assert false;
    }
  }

  lemma MulMonotone(a: int, b: int, c: int)
    requires a <= b && 0 < c
    ensures a * c <= b * c
  {
  }

  /** A marker is low exactly when its level is under a tenth of its capacity. */
  lemma PercentLow(current: int, capacity: int)
    requires 0 < capacity && 0 <= current
    ensures Percent(current, capacity) < LowThreshold <==> 10 * current < capacity
  {
    var q := Percent(current, capacity);
    TruncDivBounds(100 * current, capacity);
    if q < 10 {
      MulMonotone(q, 9, capacity);
    } else {
      MulMonotone(10, q, capacity);
    }
  }

  /** Illustrative readings (97.98 % of a cartridge, 46 %, empty) and the sentinel levels of RFC 3805. */
  lemma PercentExamples()
    ensures Percent(4899, 5000) == 97
    ensures Percent(46, 100) == 46
    ensures Percent(0, 1000) == 0
    ensures Percent(-3, 100) == -3
    ensures Percent(-3, -2) == 150
  {
  }

  /** The marker name of the description in the source's comments is its first word. */
  lemma MarkerNameExample()
    ensures MarkerName("Black Cartridge HP CE278A") == "Black"
  {
    var d := "Black Cartridge HP CE278A";
    assert d[5] == ' ' && d[..5] == "Black";
    assert ' ' !in d[..5];
  }

  /** A description without a space loses its last character. */
  lemma MarkerNameWithoutSpace()
    ensures MarkerName("black") == "blac"
  {
    assert ' ' !in "black";
  }

  /** The printer name has no surrounding whitespace and no upper-case letter, and normalising it again changes nothing. */
  lemma PrinterNameNormal(sysName: string)
    ensures var p := PrinterName(sysName);
      && (p == [] || (!IsSpace(p[0]) && !IsSpace(p[|p| - 1])))
      && (forall k :: 0 <= k < |p| ==> !IsUpper(p[k]))
      && PrinterName(p) == p
  {
    var s := Strip(sysName);
    var p := Lower(s);
    if p != [] {
      LowerKeepsSpace(s, 0);
      LowerKeepsSpace(s, |s| - 1);
      assert !IsSpace(p[0]) && !IsSpace(p[|p| - 1]);
    }
    StripTrimmed(p);
    LowerIdempotent(s);
  }

  /** A marker whose entries are present and sane reads successfully, with a bounded percent and the low test above. */
  lemma ReadMarkerValid(result: map<string, string>, tail: string, capacity: int, current: int)
    requires DescriptionColumn + tail in result
    requires CapacityColumn + tail in result && ParseInt(result[CapacityColumn + tail]) == Some(capacity)
    requires LevelColumn + tail in result && ParseInt(result[LevelColumn + tail]) == Some(current)
    requires 0 < capacity && 0 <= current <= capacity
    ensures ReadMarker(result, tail).Success?
    ensures var m := ReadMarker(result, tail).value;
      && m.name == MarkerName(result[DescriptionColumn + tail])
      && m.percent == (100 * current) / capacity
      && 0 <= m.percent <= 100
      && (m.percent < LowThreshold <==> 10 * current < capacity)
  {
    PercentInRange(current, capacity);
    PercentLow(current, capacity);
  }

  /** A KeyError from a marker names one of its three column entries, never sysName. */
  lemma ReadMarkerKeyError(result: map<string, string>, tail: string, key: string)
    requires ReadMarker(result, tail) == Failure(KeyError(key))
    ensures key in {DescriptionColumn + tail, CapacityColumn + tail, LevelColumn + tail}
    ensures key != SysNameOid
  {
    assert key[12] == '4' != SysNameOid[12];
  }

  // ---------------------------------------------------------------------------
  // Per-device resolution

  /** The value given to `set_state`: a slider's number or a group's text. */
  datatype State = Number(n: int) | Text(text: string)

  /** One `set_state(entity, state=...)` call. */
  datatype StateWrite = StateWrite(entity: string, state: State)

  function SliderWrite(printer: string, marker: Marker): StateWrite
  {
    StateWrite("input_slider." + printer + "_" + marker.name, Number(marker.percent))
  }

  function GroupWrite(printer: string, low: bool): StateWrite
  {
    StateWrite("group." + printer, Text(if low then "Low" else "Ok"))
  }

  /** The writes made, in order, and the exception that ended processing, if any. */
  datatype Report = Report(writes: seq<StateWrite>, fault: Option<Fault>)

  /** Markers read at indices 1..k in order, up to the first one that raises. */
  datatype Readings = Readings(markers: seq<Marker>, fault: Option<Fault>)

  /** `result.update(hostname)`: the hostname map's entries win on a key clash. */
  function Merge(supplies: map<string, string>, hostname: map<string, string>): (result: map<string, string>)
    ensures result.Keys == supplies.Keys + hostname.Keys
    ensures forall k :: k in hostname ==> result[k] == hostname[k]
    ensures forall k :: k in supplies && k !in hostname ==> result[k] == supplies[k]
  {
    supplies + hostname
  }

  /** Marker `i` of the printer whose merged map is `result`, read at its tail. */
  function MarkerReader(result: map<string, string>, numMarkers: nat): nat -> Result<Marker>
  {
    (i: nat) => ReadMarker(result, Tail(i, numMarkers))
  }

  /** The markers at indices 1..k read by `read` in increasing order, stopping at the first that raises. */
  function ReadMarkers(read: nat -> Result<Marker>, k: nat): (r: Readings)
    ensures |r.markers| <= k
    ensures r.fault.None? <==> |r.markers| == k
    ensures forall i :: 1 <= i <= |r.markers| ==> read(i) == Success(r.markers[i - 1])
    ensures r.fault.Some? ==> read(|r.markers| + 1) == Failure(r.fault.value)
  {
    if k == 0 then Readings([], None)
    else
      var previous := ReadMarkers(read, k - 1);
      if previous.fault.Some? then previous
      else
        var reading := read(k);
        if reading.Failure? then Readings(previous.markers, Some(reading.error))
        else
          var markers := previous.markers + [reading.value];
          assert forall j :: 0 <= j < k - 1 ==> markers[j] == previous.markers[j];
          Readings(markers, None)
  }

  /** Once a marker has raised, reading further indices changes nothing. */
  lemma {:induction false} ReadMarkersAfterFault(read: nat -> Result<Marker>, i: nat, k: nat)
    requires i <= k
    requires ReadMarkers(read, i).fault.Some?
    ensures ReadMarkers(read, k) == ReadMarkers(read, i)
  {
    if i < k {
      ReadMarkersAfterFault(read, i, k - 1);
    }
  }

  /** One slider write per marker, in marker order. */
  function SliderWrites(printer: string, markers: seq<Marker>): (ws: seq<StateWrite>)
    ensures |ws| == |markers|
    ensures forall j :: 0 <= j < |markers| ==> ws[j] == SliderWrite(printer, markers[j])
  {
    if markers == [] then []
    else SliderWrites(printer, markers[..|markers| - 1]) + [SliderWrite(printer, markers[|markers| - 1])]
  }

  /** The `low` flag after the markers: set by any marker under the threshold. */
  predicate AnyLow(markers: seq<Marker>)
  {
    exists j :: 0 <= j < |markers| && markers[j].percent < LowThreshold
  }

  /** One more marker adds its slider write at the end. */
  lemma SliderWritesSnoc(printer: string, markers: seq<Marker>, m: Marker)
    ensures SliderWrites(printer, markers + [m]) == SliderWrites(printer, markers) + [SliderWrite(printer, m)]
  {
    assert (markers + [m])[..|markers|] == markers;
  }

  /** One more marker sets the flag exactly when it is under the threshold or the flag was already set. */
  lemma AnyLowSnoc(markers: seq<Marker>, m: Marker)
    ensures AnyLow(markers + [m]) <==> AnyLow(markers) || m.percent < LowThreshold
  {
    var ms := markers + [m];
    if AnyLow(ms) && !(m.percent < LowThreshold) {
      var j :| 0 <= j < |ms| && ms[j].percent < LowThreshold;
      assert j < |markers| && markers[j] == ms[j];
    }
    if AnyLow(markers) {
      var j :| 0 <= j < |markers| && markers[j].percent < LowThreshold;
      assert ms[j] == markers[j];
    }
    assert ms[|markers|] == m;
  }

  /** The writes of a printer once its markers were read: a slider per marker, then the group unless a marker raised. */
  function Outcome(printer: string, readings: Readings): Report
  {
    var sliders := SliderWrites(printer, readings.markers);
    if readings.fault.Some? then Report(sliders, readings.fault)
    else Report(sliders + [GroupWrite(printer, AnyLow(readings.markers))], None)
  }

  /** What the body of the address loop does with one printer's two walk results. */
  function Resolve(supplies: map<string, string>, hostname: map<string, string>): Report
  {
    var result := Merge(supplies, hostname);
    if SysNameOid !in result then Report([], Some(KeyError(SysNameOid)))
    else
      var printer := PrinterName(result[SysNameOid]);
      var numMarkers := NumMarkers(|result|);
      Outcome(printer, ReadMarkers(MarkerReader(result, numMarkers), numMarkers))
  }

  /** Reading marker `i` after markers 1..i-1 read successfully extends the readings by one. */
  lemma ReadMarkersStep(read: nat -> Result<Marker>, i: nat, markers: seq<Marker>, m: Marker)
    requires 1 <= i
    requires ReadMarkers(read, i - 1) == Readings(markers, None)
    requires read(i) == Success(m)
    ensures ReadMarkers(read, i) == Readings(markers + [m], None)
  {
  }

  /** The report of a printer whose markers were all read. */
  lemma ResolveAllRead(supplies: map<string, string>, hostname: map<string, string>, markers: seq<Marker>)
    requires SysNameOid in Merge(supplies, hostname)
    requires var result := Merge(supplies, hostname); var n := NumMarkers(|result|);
      ReadMarkers(MarkerReader(result, n), n) == Readings(markers, None)
    ensures var printer := PrinterName(Merge(supplies, hostname)[SysNameOid]);
      Resolve(supplies, hostname) == Report(SliderWrites(printer, markers) + [GroupWrite(printer, AnyLow(markers))], None)
  {
  }

  /** The report of a printer whose marker `i` raised. */
  lemma ResolveMarkerRaised(supplies: map<string, string>, hostname: map<string, string>, i: nat, markers: seq<Marker>, e: Fault)
    requires SysNameOid in Merge(supplies, hostname)
    requires var result := Merge(supplies, hostname); var n := NumMarkers(|result|);
      && 1 <= i <= n
      && ReadMarkers(MarkerReader(result, n), i - 1) == Readings(markers, None)
      && MarkerReader(result, n)(i) == Failure(e)
    ensures var printer := PrinterName(Merge(supplies, hostname)[SysNameOid]);
      Resolve(supplies, hostname) == Report(SliderWrites(printer, markers), Some(e))
  {
    var result := Merge(supplies, hostname);
    var n := NumMarkers(|result|);
    ReadMarkersAfterFault(MarkerReader(result, n), i, n);
  }

  /** Lines 73-117 of `check_printers` for one printer. */
  method ResolveDevice(supplies: map<string, string>, hostname: map<string, string>)
    returns (writes: seq<StateWrite>, fault: Option<Fault>)
    ensures Report(writes, fault) == Resolve(supplies, hostname)
  {
    var result := supplies;
    result := Merge(result, hostname);
    writes := [];
    if SysNameOid !in result {
      return [], Some(KeyError(SysNameOid));
    }
    var printername := PrinterName(result[SysNameOid]);
    var numMarkers := NumMarkers(|result|);
    var low := false;
    ghost var markers: seq<Marker> := [];
    for i := 1 to numMarkers + 1
      invariant ReadMarkers(MarkerReader(result, numMarkers), i - 1) == Readings(markers, None)
      invariant writes == SliderWrites(printername, markers)
      invariant low == AnyLow(markers)
    {
      var tail := Tail(i, numMarkers);
      var marker := ReadMarker(result, tail);
      assert MarkerReader(result, numMarkers)(i) == marker;
      if marker.Failure? {
        ResolveMarkerRaised(supplies, hostname, i, markers, marker.error);
        return writes, Some(marker.error);
      }
      if marker.value.percent < LowThreshold {
        low := true;
      }
      ReadMarkersStep(MarkerReader(result, numMarkers), i, markers, marker.value);
      SliderWritesSnoc(printername, markers, marker.value);
      AnyLowSnoc(markers, marker.value);
      markers := markers + [marker.value];
      writes := writes + [SliderWrite(printername, marker.value)];
    }
    assert ReadMarkers(MarkerReader(result, numMarkers), numMarkers) == Readings(markers, None);
    ResolveAllRead(supplies, hostname, markers);
    writes := writes + [GroupWrite(printername, low)];
    fault := None;
  }


  /** Markers read by `read` at indices 1..: the slider writes of those indices, in order. */
  lemma SlidersRead(read: nat -> Result<Marker>, printer: string, markers: seq<Marker>)
    requires forall i :: 1 <= i <= |markers| ==> read(i) == Success(markers[i - 1])
    ensures forall i :: 1 <= i <= |markers| ==>
      read(i).Success? && SliderWrites(printer, markers)[i - 1] == SliderWrite(printer, read(i).value)
  {
    forall i | 1 <= i <= |markers|
      ensures read(i).Success? && SliderWrites(printer, markers)[i - 1] == SliderWrite(printer, read(i).value)
    {
      assert read(i) == Success(markers[i - 1]);
    }
  }

  /** Markers read by `read` at indices 1..n: the low flag says that some index reads under the threshold. */
  lemma LowRead(read: nat -> Result<Marker>, markers: seq<Marker>)
    requires forall i :: 1 <= i <= |markers| ==> read(i) == Success(markers[i - 1])
    ensures AnyLow(markers)
            <==> exists i :: 1 <= i <= |markers| && read(i).Success? && read(i).value.percent < LowThreshold
  {
    if AnyLow(markers) {
      var j :| 0 <= j < |markers| && markers[j].percent < LowThreshold;
      assert read(j + 1) == Success(markers[j]);
    } else {
      forall i | 1 <= i <= |markers|
        ensures read(i).Success? && read(i).value.percent >= LowThreshold
      {
        assert read(i) == Success(markers[i - 1]);
      }
    }
  }

  /** Markers 1..n all read: a slider per index in order, then one more write. */
  lemma OutcomeSliders(read: nat -> Result<Marker>, n: nat, printer: string)
    requires ReadMarkers(read, n).fault.None?
    ensures var writes := Outcome(printer, ReadMarkers(read, n)).writes;
      && |writes| == n + 1
      && forall i :: 1 <= i <= n ==> read(i).Success? && writes[i - 1] == SliderWrite(printer, read(i).value)
  {
    var readings := ReadMarkers(read, n);
    var markers := readings.markers;
    SlidersRead(read, printer, markers);
    var sliders := SliderWrites(printer, markers);
    var writes := Outcome(printer, readings).writes;
    assert writes == sliders + [GroupWrite(printer, AnyLow(markers))];
    assert forall i :: 0 <= i < n ==> writes[i] == sliders[i];
  }

  /** Markers 1..n all read: the last write is the group's, "Low" exactly when some index reads under the threshold. */
  lemma OutcomeGroup(read: nat -> Result<Marker>, n: nat, printer: string)
    requires ReadMarkers(read, n).fault.None?
    ensures var writes := Outcome(printer, ReadMarkers(read, n)).writes;
      && |writes| == n + 1
      && writes[n] == GroupWrite(printer, exists i :: 1 <= i <= n && read(i).Success? && read(i).value.percent < LowThreshold)
  {
    var readings := ReadMarkers(read, n);
    var markers := readings.markers;
    LowRead(read, markers);
    var writes := Outcome(printer, readings).writes;
    assert writes == SliderWrites(printer, markers) + [GroupWrite(printer, AnyLow(markers))];
  }

  /** Marker k+1 raised: the sliders of markers 1..k in order, and no group write. */
  lemma OutcomeFaulted(read: nat -> Result<Marker>, n: nat, printer: string)
    requires ReadMarkers(read, n).fault.Some?
    ensures var r := Outcome(printer, ReadMarkers(read, n));
      var k := |r.writes|;
      && r.fault.Some?
      && k < n
      && read(k + 1) == Failure(r.fault.value)
      && forall i :: 1 <= i <= k ==> read(i).Success? && r.writes[i - 1] == SliderWrite(printer, read(i).value)
  {
    SlidersRead(read, printer, ReadMarkers(read, n).markers);
  }

  /** A completed printer: one slider write per marker 1..n in order, then its group write, and nothing else. */
  lemma ResolveCompleted(supplies: map<string, string>, hostname: map<string, string>)
    requires Resolve(supplies, hostname).fault.None?
    ensures var result := Merge(supplies, hostname);
      && SysNameOid in result
      && var printer := PrinterName(result[SysNameOid]);
         var n := NumMarkers(|result|);
         var read := MarkerReader(result, n);
         var writes := Resolve(supplies, hostname).writes;
         && |writes| == n + 1
         && (forall i :: 1 <= i <= n ==> read(i).Success? && writes[i - 1] == SliderWrite(printer, read(i).value))
         && writes[n] == GroupWrite(printer, exists i :: 1 <= i <= n && read(i).Success? && read(i).value.percent < LowThreshold)
  {
    var result := Merge(supplies, hostname);
    var printer := PrinterName(result[SysNameOid]);
    var n := NumMarkers(|result|);
    var read := MarkerReader(result, n);
    assert Resolve(supplies, hostname) == Outcome(printer, ReadMarkers(read, n));
    OutcomeSliders(read, n, printer);
    OutcomeGroup(read, n, printer);
  }

  /** A printer that raised: no group write, and the writes are the sliders of the markers before the one that raised. */
  lemma ResolveFaulted(supplies: map<string, string>, hostname: map<string, string>)
    requires Resolve(supplies, hostname).fault.Some?
    ensures var result := Merge(supplies, hostname);
      var r := Resolve(supplies, hostname);
      if SysNameOid !in result then r == Report([], Some(KeyError(SysNameOid)))
      else
        var printer := PrinterName(result[SysNameOid]);
        var n := NumMarkers(|result|);
        var read := MarkerReader(result, n);
        var k := |r.writes|;
        && k < n
        && read(k + 1) == Failure(r.fault.value)
        && forall i :: 1 <= i <= k ==> read(i).Success? && r.writes[i - 1] == SliderWrite(printer, read(i).value)
  {
    var result := Merge(supplies, hostname);
    if SysNameOid in result {
      var printer := PrinterName(result[SysNameOid]);
      var n := NumMarkers(|result|);
      var read := MarkerReader(result, n);
      assert Resolve(supplies, hostname) == Outcome(printer, ReadMarkers(read, n));
      OutcomeFaulted(read, n, printer);
    }
  }

  /** The printer raises KeyError for sysName exactly when neither walk returned sysName. */
  lemma ResolveMissingSysName(supplies: map<string, string>, hostname: map<string, string>)
    ensures SysNameOid !in supplies && SysNameOid !in hostname
            <==> Resolve(supplies, hostname).fault == Some(KeyError(SysNameOid))
  {
    var result := Merge(supplies, hostname);
    if SysNameOid in result && Resolve(supplies, hostname).fault.Some? {
      ResolveFaulted(supplies, hostname);
      var n := NumMarkers(|result|);
      var k := |Resolve(supplies, hostname).writes|;
      var e := Resolve(supplies, hostname).fault.value;
      if e.KeyError? {
        ReadMarkerKeyError(result, Tail(k + 1, n), e.key);
      }
    }
  }

  /** With fewer than 9 entries there is no marker: the only write is the group's "Ok". */
  lemma ResolveNoMarkers(supplies: map<string, string>, hostname: map<string, string>)
    requires SysNameOid in Merge(supplies, hostname) && |Merge(supplies, hostname)| < 9
    ensures Resolve(supplies, hostname)
            == Report([StateWrite("group." + PrinterName(Merge(supplies, hostname)[SysNameOid]), Text("Ok"))], None)
  {
    var result := Merge(supplies, hostname);
    assert NumMarkers(|result|) == 0;
    assert ReadMarkers(MarkerReader(result, 0), 0) == Readings([], None);
    assert SliderWrites(PrinterName(result[SysNameOid]), []) == [];
  }

  // ---------------------------------------------------------------------------
  // The poll over all addresses

  /** The SNMP transport: the steps a walk of `rootOid` on the printer at `address` yields. */
  type Walk = (string, string) -> seq<Step>

  /** One printer: walk sysName and the supplies table, then resolve the merged map. */
  function DeviceReport(walk: Walk, address: string): Report
  {
    Resolve(WalkTree(walk(address, SuppliesRoot)), WalkTree(walk(address, SysNameRoot)))
  }

  /**
   The address loop of `check_printers`, `device` being what its body does for
   one address: the printers in order, and an exception ends the poll with the
   writes made so far.
   */
  function Poll(device: string -> Report, addresses: seq<string>): Report
  {
    if addresses == [] then Report([], None)
    else
      var before := Poll(device, addresses[..|addresses| - 1]);
      if before.fault.Some? then before
      else
        var last := device(addresses[|addresses| - 1]);
        Report(before.writes + last.writes, last.fault)
  }

  /** The poll completes exactly when no printer raises. */
  lemma {:induction false} PollCompletes(device: string -> Report, addresses: seq<string>)
    ensures Poll(device, addresses).fault.None? <==> forall k :: 0 <= k < |addresses| ==> device(addresses[k]).fault.None?
  {
    if addresses != [] {
      var init := addresses[..|addresses| - 1];
      PollCompletes(device, init);
      assert forall k :: 0 <= k < |init| ==> init[k] == addresses[k];
    }
  }

  /** Once a printer has raised, no later address is looked at. */
  lemma {:induction false} PollAfterFault(device: string -> Report, first: seq<string>, rest: seq<string>)
    requires Poll(device, first).fault.Some?
    ensures Poll(device, first + rest) == Poll(device, first)
  {
    if rest == [] {
      assert first + rest == first;
    } else {
      var all := first + rest;
      assert all[..|all| - 1] == first + rest[..|rest| - 1];
      PollAfterFault(device, first, rest[..|rest| - 1]);
    }
  }

  /** Polls compose: a poll that completes is followed by the next addresses' writes. */
  lemma {:induction false} PollConcat(device: string -> Report, first: seq<string>, rest: seq<string>)
    requires Poll(device, first).fault.None?
    ensures Poll(device, first + rest)
            == Report(Poll(device, first).writes + Poll(device, rest).writes, Poll(device, rest).fault)
  {
    if rest == [] {
      assert first + rest == first;
      assert Poll(device, first).writes + [] == Poll(device, first).writes;
    } else {
      var all := first + rest;
      var init := rest[..|rest| - 1];
      assert all[..|all| - 1] == first + init;
      assert all[|all| - 1] == rest[|rest| - 1];
      PollConcat(device, first, init);
    }
  }

  /** A completed poll of the first `i` addresses, followed by printer `i`. */
  lemma PollStep(device: string -> Report, addresses: seq<string>, i: nat)
    requires i < |addresses|
    requires Poll(device, addresses[..i]).fault.None?
    ensures Poll(device, addresses[..i + 1])
            == Report(Poll(device, addresses[..i]).writes + device(addresses[i]).writes, device(addresses[i]).fault)
  {
    assert addresses[..i + 1][..i] == addresses[..i];
  }

  /** A poll that raised within the first `i` addresses is the whole poll. */
  lemma PollPrefixFault(device: string -> Report, addresses: seq<string>, i: nat)
    requires i <= |addresses|
    requires Poll(device, addresses[..i]).fault.Some?
    ensures Poll(device, addresses) == Poll(device, addresses[..i])
  {
    assert addresses == addresses[..i] + addresses[i..];
    PollAfterFault(device, addresses[..i], addresses[i..]);
  }

  /** The first printer to raise ends the poll: earlier printers' writes, then its own partial writes. */
  lemma PollStopsAt(device: string -> Report, addresses: seq<string>, k: nat)
    requires k < |addresses|
    requires forall j :: 0 <= j < k ==> device(addresses[j]).fault.None?
    requires device(addresses[k]).fault.Some?
    ensures Poll(device, addresses)
            == Report(Poll(device, addresses[..k]).writes + device(addresses[k]).writes, device(addresses[k]).fault)
  {
    assert forall j :: 0 <= j < k ==> addresses[..k][j] == addresses[j];
    PollCompletes(device, addresses[..k]);
    PollStep(device, addresses, k);
    PollPrefixFault(device, addresses, k + 1);
  }

  /** A printer that answers neither walk raises KeyError for sysName and writes nothing. */
  lemma OfflinePrinterRaises(walk: Walk, address: string)
    requires FirstError(walk(address, SysNameRoot)) == 0
    requires FirstError(walk(address, SuppliesRoot)) == 0
    ensures DeviceReport(walk, address) == Report([], Some(KeyError(SysNameOid)))
  {
    WalkTreeEmpty(walk(address, SysNameRoot));
    WalkTreeEmpty(walk(address, SuppliesRoot));
  }

  /** What the body of the address loop does for each address. */
  function Device(walk: Walk): string -> Report
  {
    a => DeviceReport(walk, a)
  }

  /** One pass of the address loop: both walks, then the printer's writes. */
  method CheckPrinter(walk: Walk, ipa: string) returns (writes: seq<StateWrite>, fault: Option<Fault>)
    ensures Report(writes, fault) == DeviceReport(walk, ipa)
  {
    var hostname := GetSnmpTree(walk(ipa, SysNameRoot));
    var result := GetSnmpTree(walk(ipa, SuppliesRoot));
    writes, fault := ResolveDevice(result, hostname);
  }

  /** `check_printers` over `addresses`, with the transport given as `walk`. */
  method CheckPrinters(walk: Walk, addresses: seq<string>) returns (writes: seq<StateWrite>, fault: Option<Fault>)
    ensures Report(writes, fault) == Poll(Device(walk), addresses)
  {
    writes := [];
    for i := 0 to |addresses|
      invariant Poll(Device(walk), addresses[..i]) == Report(writes, None)
    {
      var deviceWrites, deviceFault := CheckPrinter(walk, addresses[i]);
      PollStep(Device(walk), addresses, i);
      writes := writes + deviceWrites;
      if deviceFault.Some? {
        PollPrefixFault(Device(walk), addresses, i + 1);
        return writes, deviceFault;
      }
    }
    assert addresses[..|addresses|] == addresses;
    fault := None;
  }
}
