/** The technician screen (components/TechnicianInterface.tsx): the asset
    search, bus selection, the status change it forwards to the registry
    transition, and the berth locator that maps a berth number to a level
    and zone. */
module Technician {
  import opened Wrappers
  import opened Fleet
  import opened Text
  import opened Lists
  import opened Registry
  import opened Seed

  // ---------------------------------------------------------------------------
  // Asset search

  /** The search test: plate and id by case-insensitive substring, service
      number by case-sensitive substring. */
  predicate SearchMatch(bus: Bus, query: string) {
    || Contains(Lower(bus.plateNo), Lower(query))
    || Contains(bus.serviceNo, query)
    || Contains(Lower(bus.id), Lower(query))
  }

  /** `filteredBuses`: the buses the search matches, in registry order. */
  function SearchBuses(buses: seq<Bus>, query: string): (r: seq<Bus>)
    ensures |r| <= |buses|
    ensures forall b :: b in r <==> b in buses && SearchMatch(b, query)
  {
    Filter(buses, b => SearchMatch(b, query))
  }

  /** The empty query matches every bus, so the list starts complete. */
  lemma SearchEmptyQuery(buses: seq<Bus>)
    ensures SearchBuses(buses, "") == buses
  {
    forall i | 0 <= i < |buses| ensures SearchMatch(buses[i], "") {
      assert Lower("") == "";
      ContainsEmpty(Lower(buses[i].plateNo));
    }
    FilterAll(buses, b => SearchMatch(b, ""));
  }

  /** Typing more characters only narrows the result: every bus found for
      `query + more` is found for `query`, in the same order. */
  lemma SearchNarrows(buses: seq<Bus>, query: string, more: string)
    ensures SearchBuses(buses, query + more) == Filter(SearchBuses(buses, query), b => SearchMatch(b, query + more))
  {
    LowerConcat(query, more);
    forall i | 0 <= i < |buses| && SearchMatch(buses[i], query + more)
      ensures SearchMatch(buses[i], query)
    {
      var b := buses[i];
      if Contains(Lower(b.plateNo), Lower(query + more)) {
        ContainsPrefix(Lower(b.plateNo), Lower(query), Lower(more));
      } else if Contains(b.serviceNo, query + more) {
        ContainsPrefix(b.serviceNo, query, more);
      } else {
        ContainsPrefix(Lower(b.id), Lower(query), Lower(more));
      }
    }
    FilterNarrows(buses, b => SearchMatch(b, query + more), b => SearchMatch(b, query));
  }

  // ---------------------------------------------------------------------------
  // Selection

  /** The screen's search box and selected bus. */
  datatype TechView = TechView(query: string, selected: Option<Bus>)

  /** `handleBusSelect`: select the bus and clear the search box. */
  function SelectBus(v: TechView, bus: Bus): TechView {
    TechView("", Some(bus))
  }

  /** After a selection the chosen bus is shown and the list is complete again. */
  lemma SelectShowsEveryBus(v: TechView, bus: Bus, buses: seq<Bus>)
    ensures SelectBus(v, bus).selected == Some(bus)
    ensures SearchBuses(buses, SelectBus(v, bus).query) == buses
  {
    SearchEmptyQuery(buses);
  }

  /** The refresh effect: the selected bus is replaced by the registry's
      current record with the same id, when there is one. */
  function RefreshSelected(selected: Option<Bus>, buses: seq<Bus>): (r: Option<Bus>)
    ensures selected.None? ==> r.None?
    ensures r.Some? ==> selected.Some? && r.value.id == selected.value.id
    ensures selected.Some? && (forall i :: 0 <= i < |buses| ==> buses[i].id != selected.value.id) ==> r == selected
    ensures selected.Some? && (exists i :: 0 <= i < |buses| && buses[i].id == selected.value.id) ==> r.Some? && r.value in buses
  {
    match selected
    case None => None
    case Some(s) =>
      match Find(buses, (b: Bus) => b.id == s.id)
      case Some(u) => Some(u)
      case None => selected
  }

  // ---------------------------------------------------------------------------
  // Status change

  /** The confirmation shown for each status change. */
  function StatusMessage(s: BusStatus): (m: string)
    ensures m != ""
  {
    match s
    case InPort => "Bus Parked"
    case UnderMaintenance => "Maintenance Mode Active"
    case Ready => "Ready for Deployment"
    case EnRoute => "En Route Status Set"
    case Layover => "Layover Mode"
  }

  /** Each status has its own message. */
  lemma StatusMessagesDistinct(a: BusStatus, b: BusStatus)
    ensures StatusMessage(a) == StatusMessage(b) <==> a == b
  {
  }

  /** `handleStatusChange`: nothing without a selected bus; otherwise the new
      status for that bus, with its current berth passed along. */
  function StatusChange(selected: Option<Bus>, status: BusStatus): (r: Option<StatusRequest>)
    ensures r.None? <==> selected.None?
    ensures r.Some? ==> r.value == StatusRequest(selected.value.id, status, selected.value.berthId)
  {
    if selected.None? then None else Some(StatusRequest(selected.value.id, status, selected.value.berthId))
  }

  /** A technician's status change on a consistent registry moves no berth:
      the berth registry is unchanged, the bus keeps its berth, and the
      registries stay consistent. */
  lemma TechnicianChangeKeepsBerths(d: Depot, i: int, status: BusStatus, now: int)
    requires WellFormed(d) && Consistent(d) && 0 <= i < |d.buses|
    ensures var q := StatusChange(Some(d.buses[i]), status).value;
      var r := ApplyRequest(d, q, now);
      && r.berths == d.berths
      && r.buses[i].berthId == d.buses[i].berthId && r.buses[i].status == status
      && Consistent(r)
  {
    ReclaimKeepsBerths(d, i, status, now);
  }

  /** After a change the refresh effect picks up the bus's new record. */
  lemma RefreshAfterChange(d: Depot, i: int, status: BusStatus, now: int)
    requires WellFormed(d) && 0 <= i < |d.buses|
    ensures var r := Apply(d, d.buses[i].id, status, d.buses[i].berthId, now);
      RefreshSelected(Some(d.buses[i]), r.buses) == Some(r.buses[i])
      && r.buses[i].status == status
  {
    var r := Apply(d, d.buses[i].id, status, d.buses[i].berthId, now);
    ApplyBuses(d, d.buses[i].id, status, d.buses[i].berthId, now, i);
    FindUnique(r.buses, (b: Bus) => b.id == d.buses[i].id, i);
  }

  // ---------------------------------------------------------------------------
  // Berth locator

  /** `parseInt(berthId.replace('B', ''))`; `None` is `NaN`. */
  function BerthNumber(berthId: string): Option<int> {
    ParseInt(RemoveFirst(berthId, 'B'))
  }

  /** A berth id written `B<n>` reads back as `n`. */
  lemma BerthNumberOf(n: nat)
    ensures BerthNumber("B" + NatToString(n)) == Some(n)
  {
    var s := "B" + NatToString(n);
    assert s[0] == 'B' && s[1..] == NatToString(n);
    RemoveFirstHead(s, 'B');
    assert IntToString(n) == NatToString(n);
    ParseIntRoundTrip(n);
  }

  /** The level a berth number falls on: up to 4 is level 1, up to 8 level 2,
      anything else level 3. `NaN` compares false against both bounds and so
      lands on level 3. */
  function LocatorTier(n: Option<int>): (t: int)
    ensures 1 <= t <= 3
    ensures t == 1 <==> n.Some? && n.value <= 4
    ensures t == 2 <==> n.Some? && 4 < n.value <= 8
    ensures t == 3 <==> n.None? || n.value > 8
  {
    if n.Some? && n.value <= 4 then 1 else if n.Some? && n.value <= 8 then 2 else 3
  }

  /** Higher berth numbers never sit on a lower level. */
  lemma LocatorTierMonotone(a: int, b: int)
    requires a <= b
    ensures LocatorTier(Some(a)) <= LocatorTier(Some(b))
  {
  }

  datatype Location = Location(level: string, zone: string, berth: string, berthLabel: string)

  function LevelName(t: nat): string {
    "Level " + NatToString(t)
  }

  function ZoneName(t: int): string {
    if t == 1 then "Zone A" else if t == 2 then "Zone B" else "Zone C"
  }

  /** The names of the three levels. */
  lemma LevelNames()
    ensures LevelName(1) == "Level 1" && LevelName(2) == "Level 2" && LevelName(3) == "Level 3"
  {
    assert NatToString(1) == "1" && NatToString(2) == "2" && NatToString(3) == "3";
  }

  /** `getBerthLocation(berthId)`: nothing for an absent or empty id or one
      no berth carries; otherwise the level and zone of its number, with
      the berth's own id and label. */
  function GetBerthLocation(berths: seq<Berth>, berthId: Option<string>): (r: Option<Location>)
    ensures r.None? <==> !Held(berthId) || forall k :: 0 <= k < |berths| ==> berths[k].id != berthId.value
    ensures r.Some? ==> (r.value.berth == berthId.value
      && exists k :: 0 <= k < |berths| && berths[k].id == berthId.value && berths[k].displayLabel == r.value.berthLabel)
    ensures r.Some? ==> var n := BerthNumber(berthId.value);
      && (n.Some? && n.value <= 4 ==> r.value.level == "Level 1" && r.value.zone == "Zone A")
      && (n.Some? && 4 < n.value <= 8 ==> r.value.level == "Level 2" && r.value.zone == "Zone B")
      && (n.None? || n.value > 8 ==> r.value.level == "Level 3" && r.value.zone == "Zone C")
  {
    if !Held(berthId) then None
    else
      match Find(berths, (b: Berth) => b.id == berthId.value)
      case None => None
      case Some(b) =>
        var t := LocatorTier(BerthNumber(berthId.value));
        LevelNames();
        Some(Location(LevelName(t), ZoneName(t), b.id, b.displayLabel))
  }

  /** A berth the registry carries whose id has no readable number sits on
      level 3, zone C, whatever else the registry holds. */
  lemma UnnumberedLocation(berths: seq<Berth>, k: int)
    requires 0 <= k < |berths| && Held(Some(berths[k].id)) && BerthNumber(berths[k].id).None?
    ensures var loc := GetBerthLocation(berths, Some(berths[k].id));
      && loc.Some? && loc.value.berth == berths[k].id
      && loc.value.level == "Level 3" && loc.value.zone == "Zone C"
  {
  }

  /** A berth written `B<n>` that the registry carries is located by its
      number: up to 4 on level 1 in zone A, up to 8 on level 2 in zone B,
      beyond that on level 3 in zone C. */
  lemma LocatedByNumber(berths: seq<Berth>, n: nat, k: int)
    requires 0 <= k < |berths| && berths[k].id == "B" + NatToString(n)
    ensures var loc := GetBerthLocation(berths, Some(berths[k].id));
      && loc.Some? && loc.value.berth == berths[k].id
      && (loc.value.level == "Level 1" <==> n <= 4) && (loc.value.zone == "Zone A" <==> n <= 4)
      && (loc.value.level == "Level 2" <==> 4 < n <= 8) && (loc.value.zone == "Zone B" <==> 4 < n <= 8)
      && (loc.value.level == "Level 3" <==> 8 < n) && (loc.value.zone == "Zone C" <==> 8 < n)
  {
    assert Held(Some(berths[k].id)) by { assert berths[k].id[0] == 'B'; }
    BerthNumberOf(n);
  }

  /** Each seeded berth is the one `find` returns for its id. */
  lemma SeededFind(i: int)
    requires 0 <= i < 12
    ensures Find(InitialBerths(), (x: Berth) => x.id == InitialBerths()[i].id) == Some(InitialBerths()[i])
  {
    var berths := InitialBerths();
    SeedWellFormed(0);
    assert InitialDepot(0).berths == berths;
    FindUnique(berths, (x: Berth) => x.id == berths[i].id, i);
  }

  /** Seeded berth `i` sits on level 1, 2 or 3 by its position. */
  lemma SeededTier(i: int)
    requires 0 <= i < 12
    ensures LocatorTier(BerthNumber(InitialBerths()[i].id)) == (if i < 4 then 1 else if i < 8 then 2 else 3)
  {
    SeededNumber(i);
  }

  /** Seeded berth `i` reads as number `i + 1`. */
  lemma SeededNumber(i: int)
    requires 0 <= i < 12
    ensures BerthNumber(InitialBerths()[i].id) == Some(i + 1)
  {
    assert InitialBerths()[i] == SeedBerth(i);
    BerthNumberOf(i + 1);
  }

  /** On the seeded berths the locator's zones follow the berth types: zone A
      is the alighting row, zone B boarding and zone C layover. */
  lemma SeededLocation(i: int)
    requires 0 <= i < 12
    ensures var b := InitialBerths()[i];
      var loc := GetBerthLocation(InitialBerths(), Some(b.id));
      && loc.Some? && loc.value.berth == b.id && loc.value.berthLabel == b.displayLabel
      && (loc.value.zone == "Zone A" <==> b.berthType == Alighting)
      && (loc.value.zone == "Zone B" <==> b.berthType == Boarding)
      && (loc.value.zone == "Zone C" <==> b.berthType == LayoverBay)
  {
    var berths := InitialBerths();
    var b := berths[i];
    assert b == SeedBerth(i);
    assert Held(Some(b.id)) by { assert b.id[0] == 'B'; }
    SeededFind(i);
    SeededTier(i);
    var t := if i < 4 then 1 else if i < 8 then 2 else 3;
    assert GetBerthLocation(berths, Some(b.id)) == Some(Location(LevelName(t), ZoneName(t), b.id, b.displayLabel));
  }
}
