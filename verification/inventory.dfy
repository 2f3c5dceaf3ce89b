/** The fleet inventory (components/FleetInventory.tsx): the status filter,
    the status wording, the floor and bay columns, and the CSV export. The
    export joins cells with ',' and rows with '\n' and escapes nothing, so
    the location cell `level, zone, berth` spills into three fields; the
    corrected export quotes that cell. */
module Inventory {
  import opened Wrappers
  import opened Fleet
  import opened Text
  import opened Lists
  import opened Technician

  // ---------------------------------------------------------------------------
  // Status filter and wording

  /** The filter drop-down: every status, or exactly one. */
  datatype StatusFilter = AnyStatus | OnlyStatus(status: BusStatus)

  predicate PassesFilter(f: StatusFilter, bus: Bus) {
    f.AnyStatus? || bus.status == f.status
  }

  /** `filteredBuses`, in registry order. */
  function FilterByStatus(buses: seq<Bus>, f: StatusFilter): (r: seq<Bus>)
    ensures |r| <= |buses|
    ensures forall b :: b in r <==> b in buses && (f.AnyStatus? || b.status == f.status)
  {
    Filter(buses, (b: Bus) => PassesFilter(f, b))
  }

  /** 'all' keeps the whole fleet in order. */
  lemma AnyStatusKeepsAll(buses: seq<Bus>)
    ensures FilterByStatus(buses, AnyStatus) == buses
  {
    FilterAll(buses, (b: Bus) => PassesFilter(AnyStatus, b));
  }

  function StatusCount(buses: seq<Bus>, s: BusStatus): nat {
    |FilterByStatus(buses, OnlyStatus(s))|
  }

  /** The five single-status views partition the fleet: every bus appears
      in exactly one of them. */
  lemma {:induction false} StatusFiltersPartition(buses: seq<Bus>)
    ensures StatusCount(buses, EnRoute) + StatusCount(buses, InPort) + StatusCount(buses, Layover)
      + StatusCount(buses, Ready) + StatusCount(buses, UnderMaintenance) == |buses|
    decreases |buses|
  {
    if |buses| > 0 {
      StatusFiltersPartition(buses[1..]);
    }
  }

  /** The status column's wording. */
  function StatusDisplay(s: BusStatus): string {
    match s
    case InPort => "In Service"
    case UnderMaintenance => "Under Maintenance"
    case Ready => "Ready"
    case EnRoute => "In Service"
    case Layover => "Parked"
  }

  /** The wording tells statuses apart except that in port and en route
      both read "In Service". */
  lemma StatusDisplayMerges(a: BusStatus, b: BusStatus)
    ensures StatusDisplay(a) == StatusDisplay(b) <==> a == b || (a in {InPort, EnRoute} && b in {InPort, EnRoute})
    ensures StatusDisplay(a) == "In Service" <==> a == InPort || a == EnRoute
    ensures StatusDisplay(Layover) == "Parked"
  {
  }

  /** The CSV status cell: `status.replace('_', ' ')`. */
  function StatusCell(s: BusStatus): string {
    ReplaceFirst(StatusTag(s), '_', " ")
  }

  /** Every status spelling has at most one underscore, so replacing the
      first one turns each underscore into a space. */
  lemma StatusCellSpaced()
    ensures StatusCell(EnRoute) == "EN ROUTE"
    ensures StatusCell(InPort) == "IN PORT"
    ensures StatusCell(UnderMaintenance) == "UNDER MAINTENANCE"
    ensures StatusCell(Layover) == "LAYOVER"
    ensures StatusCell(Ready) == "READY"
  {
    EnRouteCell();
    InPortCell();
    UnderMaintenanceCell();
    LayoverCell();
    ReadyCell();
  }

  lemma LayoverCell()
    ensures StatusCell(Layover) == "LAYOVER"
  {
    ReplaceFirstAbsent("LAYOVER", '_', " ");
  }

  lemma ReadyCell()
    ensures StatusCell(Ready) == "READY"
  {
    ReplaceFirstAbsent("READY", '_', " ");
  }

  lemma EnRouteCell()
    ensures StatusCell(EnRoute) == "EN ROUTE"
  {
    assert StatusTag(EnRoute) == "EN" + "_" + "ROUTE";
    ReplaceFirstAt("EN", '_', "ROUTE", " ");
    assert "EN" + " " + "ROUTE" == "EN ROUTE";
  }

  lemma InPortCell()
    ensures StatusCell(InPort) == "IN PORT"
  {
    assert StatusTag(InPort) == "IN" + "_" + "PORT";
    ReplaceFirstAt("IN", '_', "PORT", " ");
    assert "IN" + " " + "PORT" == "IN PORT";
  }

  lemma UnderMaintenanceCell()
    ensures StatusCell(UnderMaintenance) == "UNDER MAINTENANCE"
  {
    assert StatusTag(UnderMaintenance) == "UNDER" + "_" + "MAINTENANCE";
    ReplaceFirstAt("UNDER", '_', "MAINTENANCE", " ");
    assert "UNDER" + " " + "MAINTENANCE" == "UNDER MAINTENANCE";
  }

  // ---------------------------------------------------------------------------
  // Floor and bay

  datatype Place = Place(floor: string, bay: string)

  /** The number the location column reads from a bus's berth id: `parseInt`
      of the id without its 'B', or nothing when the bus holds no berth. */
  function PlacedNumber(bus: Bus): Option<int> {
    if Held(bus.berthId) then BerthNumber(bus.berthId.value) else None
  }

  /** The location column: floor by berth number, bay `B<n>`; no berth, or a
      number that reads as 0 or `NaN`, gives N/A for both. */
  function FloorAndBay(bus: Bus): (p: Place)
    ensures var n := PlacedNumber(bus);
      && (p.floor == "N/A" <==> n.None? || n.value == 0)
      && (p.floor == "N/A" ==> p.bay == "N/A")
      && (p.floor == "1" <==> n.Some? && n.value != 0 && n.value <= 4)
      && (p.floor == "2" <==> n.Some? && 4 < n.value <= 8)
      && (p.floor == "3" <==> n.Some? && 8 < n.value)
      && (p.floor != "N/A" ==> p.bay == "B" + IntToString(n.value))
  {
    var n := PlacedNumber(bus);
    if n.None? || n.value == 0 then Place("N/A", "N/A")
    else Place(if n.value <= 4 then "1" else if n.value <= 8 then "2" else "3", "B" + IntToString(n.value))
  }

  /** For a berth id written `B<n>` with `n` at least 1 the bay column shows
      the berth id itself. */
  lemma BayIsBerthId(bus: Bus, n: nat)
    requires n >= 1 && bus.berthId == Some("B" + NatToString(n))
    ensures FloorAndBay(bus).bay == bus.berthId.value && FloorAndBay(bus).floor != "N/A"
  {
    assert Held(bus.berthId) by { assert bus.berthId.value[0] == 'B'; }
    BerthNumberOf(n);
    assert PlacedNumber(bus) == Some(n);
    assert IntToString(n) == NatToString(n);
  }

  /** Wherever both screens place a bus, the inventory's floor is the
      locator's level number and the zone follows the same partition. */
  lemma FloorMatchesLocator(berths: seq<Berth>, bus: Bus)
    requires GetBerthLocation(berths, bus.berthId).Some?
    requires FloorAndBay(bus).floor != "N/A"
    ensures GetBerthLocation(berths, bus.berthId).value.level == "Level " + FloorAndBay(bus).floor
  {
  }

  /** The two screens disagree on a berth whose number cannot be read: the
      locator puts it on level 3, the inventory shows N/A. */
  lemma UnnumberedBerthDisagrees()
    ensures var bus := NewBus("BUSX", "1", "SX1", InPort, "BC09").(berthId := Some("BX"));
      var berths := [Berth("BX", "Berth X", true, Some("BUSX"), Boarding, None, None)];
      && GetBerthLocation(berths, bus.berthId) == Some(Location("Level 3", "Zone C", "BX", "Berth X"))
      && FloorAndBay(bus) == Place("N/A", "N/A")
  {
    var bus := NewBus("BUSX", "1", "SX1", InPort, "BC09").(berthId := Some("BX"));
    UnreadableLocation(Berth("BX", "Berth X", true, Some("BUSX"), Boarding, None, None));
    UnreadablePlace(bus);
  }

  /** The locator puts a berth `BX` on level 3, zone C. */
  lemma UnreadableLocation(b: Berth)
    requires b.id == "BX"
    ensures GetBerthLocation([b], Some("BX")) == Some(Location("Level 3", "Zone C", "BX", b.displayLabel))
  {
    UnreadableNumber();
    assert Held(Some(b.id));
    UnnumberedLocation([b], 0);
    var loc := GetBerthLocation([b], Some("BX"));
    assert loc.value.berthLabel == b.displayLabel;
  }

  /** The inventory shows N/A for both columns of a bus at berth `BX`. */
  lemma UnreadablePlace(bus: Bus)
    requires bus.berthId == Some("BX")
    ensures FloorAndBay(bus) == Place("N/A", "N/A")
  {
    UnreadableNumber();
    assert Held(bus.berthId);
  }

  lemma UnreadableNumber()
    ensures BerthNumber("BX") == None
  {
    RemoveFirstHead("BX", 'B');
    assert "BX"[1..] == "X";
    assert !IsSpace('X') && !IsDigit('X');
    SkipSpaceNone("X");
    assert DigitPrefix("X") == "";
  }

  // ---------------------------------------------------------------------------
  // CSV export

  /** A cell that cannot disturb the CSV layout: no comma, newline or quote. */
  predicate Plain(s: string) {
    forall i :: 0 <= i < |s| ==> s[i] != ',' && s[i] != '\n' && s[i] != '"'
  }

  /** The table's `formatTime`: an absent timestamp reads "N/A", any other
      is rendered by the locale clock `clock`. */
  function ActivityTime(timestamp: Option<int>, clock: int -> string): (r: string)
    ensures timestamp.None? ==> r == "N/A"
    ensures timestamp.Some? ==> r == clock(timestamp.value)
    ensures r == "N/A" <==> timestamp.None? || clock(timestamp.value) == "N/A"
  {
    if timestamp.None? then "N/A" else clock(timestamp.value)
  }

  /** `${o}` of an optional string: missing prints as "undefined". */
  function Interpolate(o: Option<string>): string {
    if o.Some? then o.value else "undefined"
  }

  function LocationCell(bus: Bus): string {
    if Held(bus.berthId) then Interpolate(bus.level) + ", " + Interpolate(bus.zone) + ", " + bus.berthId.value
    else "En Route"
  }

  function TypeCell(bus: Bus): string {
    if bus.busType.Some? then BusTypeName(bus.busType.value) else "N/A"
  }

  /** `${batteryLevel || 0}%`: a missing level and 0 both print 0. */
  function BatteryCell(bus: Bus): string {
    IntToString(bus.batteryLevel.GetOr(0)) + "%"
  }

  function TechnicianCell(bus: Bus): string {
    if Held(bus.assignedTechnician) then bus.assignedTechnician.value else "Unassigned"
  }

  const Header: seq<string> :=
    ["Bus Number", "Service", "Type", "Status", "Location", "Battery", "Technician", "Last Activity"]

  /** One bus's cells, in header order. `since` renders the last tap. */
  function CsvRow(bus: Bus, since: Option<int> -> string): (r: seq<string>)
    ensures |r| == |Header| == 8
    ensures r[0] == bus.plateNo && r[1] == bus.serviceNo
    ensures bus.busType.None? ==> r[2] == "N/A"
    ensures bus.busType.Some? ==> r[2] == BusTypeName(bus.busType.value)
    ensures r[3] == StatusCell(bus.status)
    ensures !Held(bus.berthId) ==> r[4] == "En Route"
    ensures Held(bus.berthId) ==> r[4] == Interpolate(bus.level) + ", " + Interpolate(bus.zone) + ", " + bus.berthId.value
    ensures bus.batteryLevel.GetOr(0) == 0 ==> r[5] == "0%"
    ensures |r[5]| >= 2 && r[5][|r[5]| - 1] == '%'
    ensures !Held(bus.assignedTechnician) ==> r[6] == "Unassigned"
    ensures Held(bus.assignedTechnician) ==> r[6] == bus.assignedTechnician.value
    ensures r[7] == since(bus.lastTapTime)
  {
    ZeroPercent();
    [bus.plateNo, bus.serviceNo, TypeCell(bus), StatusCell(bus.status), LocationCell(bus),
     BatteryCell(bus), TechnicianCell(bus), since(bus.lastTapTime)]
  }

  lemma ZeroPercent()
    ensures IntToString(0) + "%" == "0%"
  {
    assert NatToString(0) == "0";
  }

  /** The battery cell reads back as the level it prints, a missing level
      as 0: `parseInt` of the cell without its '%' gives `batteryLevel || 0`. */
  lemma BatteryCellReadsBack(bus: Bus, since: Option<int> -> string)
    ensures var c := CsvRow(bus, since)[5];
      ParseInt(c[..|c| - 1]) == Some(bus.batteryLevel.GetOr(0))
  {
    var n := bus.batteryLevel.GetOr(0);
    var c := CsvRow(bus, since)[5];
    assert c[..|c| - 1] == IntToString(n);
    ParseIntRoundTrip(n);
  }

  /** `handleExport`'s text: the header line, then one line per filtered bus. */
  function ExportCsv(buses: seq<Bus>, f: StatusFilter, since: Option<int> -> string): string {
    Join(CsvLines(FilterByStatus(buses, f), since), "\n")
  }

  /** The header line, then one comma-joined row per shown bus. */
  function CsvLines(shown: seq<Bus>, since: Option<int> -> string): (r: seq<string>)
    ensures |r| == |shown| + 1 && r[0] == Join(Header, ",")
    ensures forall i :: 0 <= i < |shown| ==> r[i + 1] == RowOf(since)(shown[i])
  {
    MapBehind(Join(Header, ","), shown, RowOf(since));
    [Join(Header, ",")] + Map(shown, RowOf(since))
  }

  /** One bus's line: its cells joined by commas. */
  function RowLine(bus: Bus, since: Option<int> -> string): string {
    Join(CsvRow(bus, since), ",")
  }

  /** The callback `map` renders each shown bus with. */
  function RowOf(since: Option<int> -> string): Bus -> string {
    (b: Bus) => RowLine(b, since)
  }

  /** The free-text inputs of a row carry no comma, newline or quote. */
  predicate PlainBus(bus: Bus, since: Option<int> -> string) {
    && Plain(bus.plateNo) && Plain(bus.serviceNo)
    && Plain(Interpolate(bus.level)) && Plain(Interpolate(bus.zone))
    && (bus.berthId.Some? ==> Plain(bus.berthId.value))
    && (bus.assignedTechnician.Some? ==> Plain(bus.assignedTechnician.value))
    && Plain(since(bus.lastTapTime))
  }

  lemma PlainCounts(s: string)
    requires Plain(s)
    ensures Count(s, ',') == 0 && Count(s, '\n') == 0 && Count(s, '"') == 0
  {
    CountAbsent(s, ',');
    CountAbsent(s, '\n');
    CountAbsent(s, '"');
  }

  /** Replacing a character of a plain string by a plain string keeps it plain. */
  lemma {:induction false} ReplaceFirstPlain(s: string, c: char, repl: string)
    requires Plain(s) && Plain(repl)
    ensures Plain(ReplaceFirst(s, c, repl))
    decreases |s|
  {
    if |s| > 0 && s[0] != c {
      ReplaceFirstPlain(s[1..], c, repl);
      var r := [s[0]] + ReplaceFirst(s[1..], c, repl);
      forall i | 0 <= i < |r| ensures r[i] != ',' && r[i] != '\n' && r[i] != '"' {
        if i > 0 {
          assert r[i] == ReplaceFirst(s[1..], c, repl)[i - 1];
        }
      }
    } else if |s| > 0 {
      var r := repl + s[1..];
      forall i | 0 <= i < |r| ensures r[i] != ',' && r[i] != '\n' && r[i] != '"' {
        if i >= |repl| {
          assert r[i] == s[i - |repl| + 1];
        }
      }
    }
  }

  lemma StatusCellPlain(s: BusStatus)
    ensures Plain(StatusCell(s))
  {
    assert Plain(StatusTag(s));
    ReplaceFirstPlain(StatusTag(s), '_', " ");
  }

  lemma BatteryCellPlain(bus: Bus)
    ensures Plain(BatteryCell(bus))
  {
    var n := bus.batteryLevel.GetOr(0);
    var digits := if n < 0 then NatToString(-n) else NatToString(n);
    assert forall i :: 0 <= i < |digits| ==> IsDigit(digits[i]);
  }

  /** The location cell of a parked bus holds exactly two commas. */
  lemma LocationCellCommas(bus: Bus)
    requires Held(bus.berthId) && Plain(Interpolate(bus.level)) && Plain(Interpolate(bus.zone)) && Plain(bus.berthId.value)
    ensures Count(LocationCell(bus), ',') == 2
    ensures Count(LocationCell(bus), '\n') == 0 && Count(LocationCell(bus), '"') == 0
  {
    var a := Interpolate(bus.level);
    var b := Interpolate(bus.zone);
    var c := bus.berthId.value;
    var sep := ", ";
    PlainCounts(a);
    PlainCounts(b);
    PlainCounts(c);
    assert Count(sep, ',') == 1 && Count(sep, '\n') == 0 && Count(sep, '"') == 0;
    forall ch | ch in {',', '\n', '"'}
      ensures Count(a + sep + b + sep + c, ch) == Count(a, ch) + Count(sep, ch) + Count(b, ch) + Count(sep, ch) + Count(c, ch)
    {
      CountConcat(a + sep + b + sep, c, ch);
      CountConcat(a + sep + b, sep, ch);
      CountConcat(a + sep, b, ch);
      CountConcat(a, sep, ch);
    }
  }

  lemma TypeCellPlain(bus: Bus)
    ensures Plain(TypeCell(bus))
  {
    if bus.busType.Some? {
      BusTypeNamePlain(bus.busType.value);
    } else {
      assert Plain("N/A");
    }
  }

  lemma BusTypeNamePlain(t: BusType)
    ensures Plain(BusTypeName(t))
  {
    match t
    case SingleDeck => assert Plain("Single-Deck");
    case DoubleDeck => assert Plain("Double-Deck");
    case Articulated => assert Plain("Articulated");
    case Electric => assert Plain("Electric");
  }

  lemma TechnicianCellPlain(bus: Bus)
    requires bus.assignedTechnician.Some? ==> Plain(bus.assignedTechnician.value)
    ensures Plain(TechnicianCell(bus))
  {
  }

  /** Under plain inputs every cell but the location is plain. */
  lemma RowPlain(bus: Bus, since: Option<int> -> string)
    requires PlainBus(bus, since)
    ensures var row := CsvRow(bus, since);
      forall i :: 0 <= i < 8 && i != 4 ==> Plain(row[i])
  {
    var row := CsvRow(bus, since);
    StatusCellPlain(bus.status);
    BatteryCellPlain(bus);
    TypeCellPlain(bus);
    TechnicianCellPlain(bus);
    assert row[0] == bus.plateNo && row[1] == bus.serviceNo && row[2] == TypeCell(bus);
    assert row[3] == StatusCell(bus.status) && row[5] == BatteryCell(bus);
    assert row[6] == TechnicianCell(bus) && row[7] == since(bus.lastTapTime);
  }

  /** Under plain inputs every cell but the location is free of commas, and
      no cell holds a newline or a quote. */
  lemma RowCounts(bus: Bus, since: Option<int> -> string)
    requires PlainBus(bus, since)
    ensures var row := CsvRow(bus, since);
      && (forall i :: 0 <= i < 8 && i != 4 ==> Count(row[i], ',') == 0)
      && (forall i :: 0 <= i < 8 ==> Count(row[i], '\n') == 0 && Count(row[i], '"') == 0)
      && Count(row[4], ',') == (if Held(bus.berthId) then 2 else 0)
  {
    var row := CsvRow(bus, since);
    RowPlain(bus, since);
    assert row[4] == LocationCell(bus);
    if Held(bus.berthId) {
      LocationCellCommas(bus);
    } else {
      assert LocationCell(bus) == "En Route";
      assert Plain(LocationCell(bus));
      PlainCounts(LocationCell(bus));
    }
    forall i | 0 <= i < 8 && i != 4
      ensures Count(row[i], ',') == 0 && Count(row[i], '\n') == 0 && Count(row[i], '"') == 0
    {
      PlainCounts(row[i]);
    }
  }

  /** The header's titles are plain. */
  lemma HeaderPlain()
    ensures forall i :: 0 <= i < |Header| ==> Plain(Header[i])
  {
  }

  /** Eight cells, commas only in the fifth: the joined line has the seven
      separating commas plus the fifth cell's own. */
  lemma {:induction false} EightCellCommas(row: seq<string>)
    requires |row| == 8
    requires forall i :: 0 <= i < 8 && i != 4 ==> Count(row[i], ',') == 0
    ensures Count(Join(row, ","), ',') == 7 + Count(row[4], ',')
  {
    CountJoin(row, ',');
    SumCountOne(row, ',', 4);
  }

  /** As written, a row for a parked bus has nine commas against the
      header's seven: ten fields under an eight-field header. */
  lemma AsWrittenRowFields(bus: Bus, since: Option<int> -> string)
    requires PlainBus(bus, since)
    ensures Count(Join(Header, ","), ',') == 7
    ensures Count(Join(CsvRow(bus, since), ","), ',') == if Held(bus.berthId) then 9 else 7
  {
    HeaderCommas();
    RowCommas(bus, since);
  }

  lemma HeaderCommas()
    ensures Count(Join(Header, ","), ',') == 7
  {
    HeaderCounts();
    EightCellCommas(Header);
  }

  lemma RowCommas(bus: Bus, since: Option<int> -> string)
    requires PlainBus(bus, since)
    ensures Count(Join(CsvRow(bus, since), ","), ',') == if Held(bus.berthId) then 9 else 7
  {
    RowCounts(bus, since);
    EightCellCommas(CsvRow(bus, since));
  }

  /** No header cell holds a comma or a newline. */
  lemma HeaderCounts()
    ensures forall i :: 0 <= i < |Header| ==> Count(Header[i], ',') == 0 && Count(Header[i], '\n') == 0
  {
    HeaderPlain();
    PlainCells(Header);
  }

  lemma PlainCells(cells: seq<string>)
    requires forall i :: 0 <= i < |cells| ==> Plain(cells[i])
    ensures forall i :: 0 <= i < |cells| ==> Count(cells[i], ',') == 0 && Count(cells[i], '\n') == 0
  {
    forall i | 0 <= i < |cells| ensures Count(cells[i], ',') == 0 && Count(cells[i], '\n') == 0 {
      PlainCounts(cells[i]);
    }
  }

  /** Cells without newlines, joined by commas, make a line without one. */
  lemma LineWithoutNewline(cells: seq<string>)
    requires forall i :: 0 <= i < |cells| ==> Count(cells[i], '\n') == 0
    ensures Count(Join(cells, ","), '\n') == 0
  {
    CountJoinOther(cells, ',', '\n');
    SumCountNone(cells, '\n');
  }

  /** The header line holds no newline. */
  lemma HeaderWithoutNewline()
    ensures Count(Join(Header, ","), '\n') == 0
  {
    HeaderCounts();
    LineWithoutNewline(Header);
  }

  /** A plain bus's line holds no newline. */
  lemma RowWithoutNewline(bus: Bus, since: Option<int> -> string)
    requires PlainBus(bus, since)
    ensures Count(RowLine(bus, since), '\n') == 0
  {
    RowCounts(bus, since);
    LineWithoutNewline(CsvRow(bus, since));
  }

  /** Lines without newlines, joined by newlines, hold one fewer than there are lines. */
  lemma NewlineJoin(lines: seq<string>)
    requires |lines| > 0
    requires forall k :: 0 <= k < |lines| ==> Count(lines[k], '\n') == 0
    ensures Count(Join(lines, "\n"), '\n') == |lines| - 1
  {
    CountJoin(lines, '\n');
    SumCountNone(lines, '\n');
  }

  /** With plain inputs the export has one header line and one line per
      bus the filter keeps: its newlines number exactly the kept buses. */
  lemma CsvLineCount(buses: seq<Bus>, f: StatusFilter, since: Option<int> -> string)
    requires forall i :: 0 <= i < |buses| ==> PlainBus(buses[i], since)
    ensures Count(ExportCsv(buses, f, since), '\n') == |FilterByStatus(buses, f)|
  {
    var shown := FilterByStatus(buses, f);
    ShownPlain(buses, f, since);
    LinesWithoutNewline(shown, since);
    NewlineJoin(CsvLines(shown, since));
  }

  /** The filter only keeps buses of the fleet, so they stay plain. */
  lemma ShownPlain(buses: seq<Bus>, f: StatusFilter, since: Option<int> -> string)
    requires forall i :: 0 <= i < |buses| ==> PlainBus(buses[i], since)
    ensures forall i :: 0 <= i < |FilterByStatus(buses, f)| ==> PlainBus(FilterByStatus(buses, f)[i], since)
  {
    var shown := FilterByStatus(buses, f);
    forall i | 0 <= i < |shown| ensures PlainBus(shown[i], since) {
      assert shown[i] in buses;
    }
  }

  lemma LinesWithoutNewline(shown: seq<Bus>, since: Option<int> -> string)
    requires forall i :: 0 <= i < |shown| ==> PlainBus(shown[i], since)
    ensures |CsvLines(shown, since)| == |shown| + 1
    ensures forall k :: 0 <= k < |CsvLines(shown, since)| ==> Count(CsvLines(shown, since)[k], '\n') == 0
  {
    forall k | 0 <= k < |shown| + 1 ensures Count(CsvLines(shown, since)[k], '\n') == 0 {
      LineAt(shown, since, k);
    }
  }

  lemma LineAt(shown: seq<Bus>, since: Option<int> -> string, k: int)
    requires forall i :: 0 <= i < |shown| ==> PlainBus(shown[i], since)
    requires 0 <= k < |shown| + 1
    ensures k < |CsvLines(shown, since)| && Count(CsvLines(shown, since)[k], '\n') == 0
  {
    if k == 0 {
      HeaderWithoutNewline();
    } else {
      assert RowOf(since)(shown[k - 1]) == RowLine(shown[k - 1], since);
      RowWithoutNewline(shown[k - 1], since);
    }
  }

  // ---------------------------------------------------------------------------
  // The corrected export

  /** The commas that separate fields when the line is read as CSV: those
      outside double quotes, a quote toggling the quoted state (section 2 of
      RFC 4180). */
  function Separators(s: string, quoted: bool): nat
    decreases |s|
  {
    if |s| == 0 then 0
    else if s[0] == '"' then Separators(s[1..], !quoted)
    else (if s[0] == ',' && !quoted then 1 else 0) + Separators(s[1..], quoted)
  }

  /** Whether a reader is inside quotes after reading `s`. */
  function QuotedAfter(s: string, quoted: bool): bool
    decreases |s|
  {
    if |s| == 0 then quoted else QuotedAfter(s[1..], if s[0] == '"' then !quoted else quoted)
  }

  lemma {:induction false} SeparatorsConcat(a: string, b: string, q: bool)
    ensures Separators(a + b, q) == Separators(a, q) + Separators(b, QuotedAfter(a, q))
    ensures QuotedAfter(a + b, q) == QuotedAfter(b, QuotedAfter(a, q))
    decreases |a|
  {
    if |a| == 0 {
      assert a + b == b;
    } else {
      assert (a + b)[1..] == a[1..] + b;
      SeparatorsConcat(a[1..], b, if a[0] == '"' then !q else q);
    }
  }

  /** Without quotes every comma separates a field. */
  lemma {:induction false} SeparatorsNoQuote(s: string, q: bool)
    requires Count(s, '"') == 0
    ensures Separators(s, false) == Count(s, ',')
    ensures Separators(s, true) == 0
    ensures QuotedAfter(s, q) == q
    decreases |s|
  {
    if |s| > 0 {
      SeparatorsNoQuote(s[1..], q);
    }
  }

  function Quote(s: string): string {
    "\"" + s + "\""
  }

  /** A cell that separates nothing and leaves the reader outside quotes. */
  predicate Sealed(cell: string) {
    Separators(cell, false) == 0 && !QuotedAfter(cell, false)
  }

  /** A quoted cell without quotes of its own is sealed, whatever commas it holds. */
  lemma QuoteSeals(s: string)
    requires Count(s, '"') == 0
    ensures Sealed(Quote(s))
  {
    var open := "\"";
    SeparatorsConcat(open + s, open, false);
    SeparatorsConcat(open, s, false);
    SeparatorsNoQuote(s, true);
    assert open[1..] == "";
  }

  /** Sealed cells joined with ',' read back as exactly that many fields. */
  lemma {:induction false} SeparatorsJoin(cells: seq<string>)
    requires |cells| > 0
    requires forall i :: 0 <= i < |cells| ==> Sealed(cells[i])
    ensures Separators(Join(cells, ","), false) == |cells| - 1
    ensures !QuotedAfter(Join(cells, ","), false)
    decreases |cells|
  {
    if |cells| > 1 {
      SeparatorsJoin(cells[1..]);
      SeparatorsConcat(cells[0] + ",", Join(cells[1..], ","), false);
      SeparatorsConcat(cells[0], ",", false);
      assert ","[1..] == "";
    }
  }

  /** The row with the location cell quoted. */
  function CorrectedCsvRow(bus: Bus, since: Option<int> -> string): (r: seq<string>)
    ensures |r| == |Header|
  {
    CsvRow(bus, since)[4 := Quote(LocationCell(bus))]
  }

  function CorrectedExportCsv(buses: seq<Bus>, f: StatusFilter, since: Option<int> -> string): string {
    var shown := FilterByStatus(buses, f);
    Join([Join(Header, ",")] + seq(|shown|, i requires 0 <= i < |shown| => Join(CorrectedCsvRow(shown[i], since), ",")), "\n")
  }

  lemma HeaderSealed()
    ensures forall i :: 0 <= i < |Header| ==> Sealed(Header[i])
  {
    HeaderPlain();
    forall i | 0 <= i < 8 ensures Sealed(Header[i]) {
      PlainCounts(Header[i]);
      SeparatorsNoQuote(Header[i], false);
    }
  }

  /** Under plain inputs every cell of a corrected row is sealed. */
  lemma CorrectedCellsSealed(bus: Bus, since: Option<int> -> string)
    requires PlainBus(bus, since)
    ensures forall i :: 0 <= i < 8 ==> Sealed(CorrectedCsvRow(bus, since)[i])
  {
    var row := CorrectedCsvRow(bus, since);
    var plain := CsvRow(bus, since);
    RowCounts(bus, since);
    assert row[4] == Quote(LocationCell(bus)) && plain[4] == LocationCell(bus);
    forall i | 0 <= i < 8 ensures Sealed(row[i]) {
      if i == 4 {
        QuoteSeals(LocationCell(bus));
      } else {
        assert row[i] == plain[i];
        SeparatorsNoQuote(row[i], false);
      }
    }
  }

  /** Read as CSV, every corrected row has the header's eight fields. */
  lemma CorrectedRowFields(bus: Bus, since: Option<int> -> string)
    requires PlainBus(bus, since)
    ensures Separators(Join(Header, ","), false) == 7
    ensures Separators(Join(CorrectedCsvRow(bus, since), ","), false) == 7
  {
    CorrectedCellsSealed(bus, since);
    SeparatorsJoin(CorrectedCsvRow(bus, since));
    HeaderSealed();
    SeparatorsJoin(Header);
  }
}
