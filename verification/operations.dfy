/** The operations dashboard (components/OperationsDashboard.tsx): the
    breakdown alert over stale buses, the summary counts, the berth cards'
    occupant lookup and the near-departure test. Everything is a pure
    function of the registries and the clock reading `now`. */
module Operations {
  import opened Wrappers
  import opened Fleet
  import opened Lists
  import opened Registry
  import opened Seed

  const HourMillis: int := 60 * 60 * 1000

  /** Five minutes: the near-departure window. */
  const NearDepartureMillis: int := 300000

  // ---------------------------------------------------------------------------
  // Breakdown alert

  /** The alert threshold `inactivityThresholdHours * 60 * 60 * 1000` for a
      whole number of hours. The hours come from a number input, so the
      threshold itself is any number of milliseconds, 1.5 hours included. */
  function ThresholdMillis(hours: int): int {
    hours * HourMillis
  }

  /** An en-route bus whose last tap is more than `thresholdMs` milliseconds old. */
  predicate IsStale(bus: Bus, thresholdMs: int, now: int) {
    bus.status == EnRoute && bus.lastTapTime.Some? && now - bus.lastTapTime.value > thresholdMs
  }

  /** `staleBuses`: the buses the alert banner lists, in registry order. */
  function StaleBuses(buses: seq<Bus>, thresholdMs: int, now: int): (r: seq<Bus>)
    ensures |r| <= |buses|
    ensures forall b :: b in r <==> b in buses && IsStale(b, thresholdMs, now)
    ensures forall b :: b in r ==> b.status == EnRoute && b.lastTapTime.Some?
  {
    Filter(buses, (b: Bus) => IsStale(b, thresholdMs, now))
  }

  /** Raising the threshold can only shorten the list: the stale buses for
      the higher threshold are an ordered sub-list of those for the lower. */
  lemma StaleThresholdMonotone(buses: seq<Bus>, low: int, high: int, now: int)
    requires low <= high
    ensures StaleBuses(buses, high, now) == Filter(StaleBuses(buses, low, now), (b: Bus) => IsStale(b, high, now))
  {
    FilterNarrows(buses, (b: Bus) => IsStale(b, high, now), (b: Bus) => IsStale(b, low, now));
  }

  /** Whole hours since the last tap, rounded down; 0 with no tap. */
  function HoursInactive(bus: Bus, now: int): (h: int)
    ensures bus.lastTapTime.Some? ==>
      h * HourMillis <= now - bus.lastTapTime.value < (h + 1) * HourMillis
    ensures bus.lastTapTime.None? ==> h == 0
  {
    if bus.lastTapTime.Some? then (now - bus.lastTapTime.value) / HourMillis else 0
  }

  /** A listed bus shows at least the whole hours of the threshold, rounded
      down; for a whole-hour threshold that is the threshold itself. */
  lemma StaleShowsThreshold(bus: Bus, thresholdMs: int, now: int)
    requires IsStale(bus, thresholdMs, now)
    ensures HoursInactive(bus, now) >= thresholdMs / HourMillis
    ensures forall hours :: thresholdMs == ThresholdMillis(hours) ==> HoursInactive(bus, now) >= hours
  {
    var q := thresholdMs / HourMillis;
    assert q * HourMillis <= thresholdMs;
  }

  /** With a threshold of 1.5 hours a bus idle for 1.6 hours is listed, yet
      its badge reads "1h inactive", less than the threshold the banner names. */
  lemma FractionalThresholdShowsFewerHours()
    ensures var bus := NewBus("BUS009", "9", "SX9", EnRoute, "BC09").(lastTapTime := Some(0));
      var threshold := 5400000;
      && IsStale(bus, threshold, 5760000)
      && HoursInactive(bus, 5760000) == 1
      && HoursInactive(bus, 5760000) * HourMillis < threshold
  {
  }

  // ---------------------------------------------------------------------------
  // Summary counts

  function OccupiedCount(berths: seq<Berth>): nat {
    |Filter(berths, (b: Berth) => b.isOccupied)|
  }

  function InPortCount(buses: seq<Bus>): nat {
    |Filter(buses, (b: Bus) => b.status == InPort)|
  }

  function ChargerCount(berths: seq<Berth>): nat {
    |Filter(berths, (b: Berth) => b.hasCharger == Some(true))|
  }

  function ChargersInUseCount(berths: seq<Berth>): nat {
    |Filter(berths, (b: Berth) => b.chargerStatus == Some(ChargerInUse))|
  }

  /** In a consistent registry the occupied count is the number of berths
      that name an occupant. */
  lemma OccupiedCountNamesOccupants(d: Depot)
    requires Consistent(d)
    ensures OccupiedCount(d.berths) == |Filter(d.berths, (b: Berth) => b.busId.Some?)|
  {
    FilterLengthMatch(d.berths, (b: Berth) => b.isOccupied, d.berths, (b: Berth) => b.busId.Some?);
  }

  /** Tapping a bus into port raises the in-port count by one, unless it was
      already in port. */
  lemma TapInCountsInPort(d: Depot, j: int, target: Option<string>, now: int)
    requires WellFormed(d) && 0 <= j < |d.buses|
    ensures var r := Apply(d, d.buses[j].id, InPort, target, now);
      InPortCount(r.buses) == InPortCount(d.buses) + (if d.buses[j].status == InPort then 0 else 1)
  {
    var busId := d.buses[j].id;
    var r := Apply(d, busId, InPort, target, now);
    forall i | 0 <= i < |d.buses| && i != j ensures r.buses[i] == d.buses[i] {
      ApplyBuses(d, busId, InPort, target, now, i);
    }
    ApplyBuses(d, busId, InPort, target, now, j);
    FilterOneChange(d.buses, r.buses, (b: Bus) => b.status == InPort, j);
  }

  /** The transition never touches the charger fields, so both charger
      counts are the same before and after. */
  lemma ChargerCountsUnchanged(d: Depot, busId: string, status: BusStatus, target: Option<string>, now: int)
    ensures var r := Apply(d, busId, status, target, now);
      ChargerCount(r.berths) == ChargerCount(d.berths) && ChargersInUseCount(r.berths) == ChargersInUseCount(d.berths)
  {
    var r := Apply(d, busId, status, target, now);
    FilterLengthMatch(r.berths, (b: Berth) => b.hasCharger == Some(true), d.berths, (b: Berth) => b.hasCharger == Some(true));
    FilterLengthMatch(r.berths, (b: Berth) => b.chargerStatus == Some(ChargerInUse), d.berths, (b: Berth) => b.chargerStatus == Some(ChargerInUse));
  }

  // ---------------------------------------------------------------------------
  // Low battery

  /** `(batteryLevel || 100) < 30`: a missing level and a level of 0 are both
      falsy and read as 100. */
  predicate LowBattery(bus: Bus) {
    (if bus.batteryLevel.Some? && bus.batteryLevel.value != 0 then bus.batteryLevel.value else 100) < 30
  }

  function LowBatteryCount(buses: seq<Bus>): nat {
    |Filter(buses, LowBattery)|
  }

  /** As written, a bus reporting 0% is not counted as low on battery; the
      corrected test counts it. */
  lemma EmptyBatteryNotCounted(bus: Bus)
    requires bus.batteryLevel == Some(0)
    ensures !LowBattery(bus)
    ensures CorrectedLowBattery(bus)
  {
  }

  /** The test with `??` in place of `||`: only a missing level reads as full. */
  predicate CorrectedLowBattery(bus: Bus) {
    bus.batteryLevel.GetOr(100) < 30
  }

  /** The corrected test flags exactly the buses reporting under 30%, and
      agrees with the written one on every level but 0. */
  lemma CorrectedLowBatteryMeaning(bus: Bus)
    ensures CorrectedLowBattery(bus) <==> bus.batteryLevel.Some? && bus.batteryLevel.value < 30
    ensures bus.batteryLevel != Some(0) ==> (CorrectedLowBattery(bus) <==> LowBattery(bus))
  {
  }

  // ---------------------------------------------------------------------------
  // Berth cards

  /** The bus a berth card shows: the first bus naming the berth, whatever
      the berth's own occupancy flag says. */
  function BerthOccupant(buses: seq<Bus>, berth: Berth): (r: Option<Bus>)
    ensures r.Some? ==> r.value in buses && r.value.berthId == Some(berth.id)
    ensures r.None? <==> forall i :: 0 <= i < |buses| ==> buses[i].berthId != Some(berth.id)
    ensures r.Some? ==>
      exists i :: 0 <= i < |buses| && buses[i] == r.value && forall j :: 0 <= j < i ==> buses[j].berthId != Some(berth.id)
  {
    var r := Find(buses, (b: Bus) => b.berthId == Some(berth.id));
    assert r.Some? ==> exists i :: FirstHit(buses, (b: Bus) => b.berthId == Some(berth.id), i) && buses[i] == r.value;
    r
  }

  /** The card's bus is the head of the list of buses naming the berth; on a
      double-booked berth that is the one earlier in the registry. */
  lemma CardShowsFirstNaming(buses: seq<Bus>, berth: Berth)
    ensures var naming := Filter(buses, (b: Bus) => b.berthId == Some(berth.id));
      BerthOccupant(buses, berth) == if |naming| > 0 then Some(naming[0]) else None
  {
    FindIsFilterHead(buses, (b: Bus) => b.berthId == Some(berth.id));
  }

  /** In a consistent registry the card's bus is the berth's own occupant:
      one is shown exactly when the berth names one, and it is that bus. */
  lemma OccupantAgreesWhenConsistent(d: Depot, k: int)
    requires WellFormed(d) && Consistent(d) && 0 <= k < |d.berths|
    ensures var occ := BerthOccupant(d.buses, d.berths[k]);
      && (occ.Some? <==> d.berths[k].busId.Some?)
      && (occ.Some? ==> d.berths[k].busId == Some(occ.value.id))
  {
    var berth := d.berths[k];
    var occ := BerthOccupant(d.buses, berth);
    if occ.Some? {
      var i :| FirstHit(d.buses, (b: Bus) => b.berthId == Some(berth.id), i) && d.buses[i] == occ.value;
      assert Held(d.buses[i].berthId);
      var l :| 0 <= l < |d.berths| && d.berths[l].id == berth.id && d.berths[l].busId == Some(d.buses[i].id);
      assert l == k;
    }
    if berth.busId.Some? {
      var i :| 0 <= i < |d.buses| && d.buses[i].id == berth.busId.value && d.buses[i].berthId == Some(berth.id);
      assert d.buses[i].berthId == Some(berth.id);
    }
  }

  /** On the seed the card for B9 shows BUS002 although B9 is marked free. */
  lemma SeedCardShowsUnoccupiedBerth(loadTime: int)
    ensures var b9 := InitialBerths()[8];
      var occ := BerthOccupant(InitialBuses(loadTime), b9);
      && b9.id == "B9" && !b9.isOccupied
      && occ.Some? && occ.value.id == "BUS002"
  {
    var buses := InitialBuses(loadTime);
    var b9 := InitialBerths()[8];
    assert b9 == SeedBerth(8);
    Numerals();
    assert b9.id == "B9";
    FindUnique(buses, (b: Bus) => b.berthId == Some(b9.id), 1);
  }

  // ---------------------------------------------------------------------------
  // Near departure

  /** `isNearDeparture`: a shown bus with a departure less than five minutes
      away, overdue departures included. */
  predicate IsNearDeparture(bus: Option<Bus>, now: int) {
    bus.Some? && bus.value.scheduledDeparture.Some? && bus.value.scheduledDeparture.value - now < NearDepartureMillis
  }

  /** An overdue departure always counts as near. */
  lemma OverdueIsNear(bus: Bus, now: int)
    requires bus.scheduledDeparture.Some? && bus.scheduledDeparture.value <= now
    ensures IsNearDeparture(Some(bus), now)
  {
  }

  /** A bus tapped in at `now` counts as near departure exactly from ten
      minutes later on: its fifteen-minute dwell has less than five minutes
      left. */
  lemma NearDepartureAfterTapIn(d: Depot, j: int, target: Option<string>, now: int, t: int)
    requires 0 <= j < |d.buses|
    ensures var bus := Apply(d, d.buses[j].id, InPort, target, now).buses[j];
      IsNearDeparture(Some(bus), t) <==> t > now + 10 * 60000
  {
    ApplyBuses(d, d.buses[j].id, InPort, target, now, j);
  }
}
