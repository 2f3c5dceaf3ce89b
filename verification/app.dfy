/** The registry transition of the console (`handleStatusUpdate` in App.tsx):
    the one operation that changes the bus and berth registries, modelled as a
    single atomic step over both. */
module Registry {
  import opened Wrappers
  import opened Fleet

  /** The fixed dwell time stamped on tap-in: 15 minutes in milliseconds. */
  const DwellMillis: int := 15 * 60000

  /** A status change as the screens issue it. */
  datatype StatusRequest = StatusRequest(busId: string, status: BusStatus, berthId: Option<string>)

  function Released(b: Berth): Berth {
    b.(isOccupied := false, busId := None)
  }

  function Claimed(b: Berth, busId: string): Berth {
    b.(isOccupied := true, busId := Some(busId))
  }

  /** Every berth with id `id` released, the others as they were. */
  function ReleaseBerth(berths: seq<Berth>, id: string): seq<Berth> {
    seq(|berths|, k requires 0 <= k < |berths| => if berths[k].id == id then Released(berths[k]) else berths[k])
  }

  /** Every berth with id `id` claimed for `busId`, with no look at a prior occupant. */
  function ClaimBerth(berths: seq<Berth>, id: string, busId: string): seq<Berth> {
    seq(|berths|, k requires 0 <= k < |berths| => if berths[k].id == id then Claimed(berths[k], busId) else berths[k])
  }

  /** The berth updates one matching bus enqueues: release its old berth when
      it held one that differs from the target, then claim the target. */
  function BerthStep(berths: seq<Berth>, bus: Bus, busId: string, target: Option<string>): seq<Berth> {
    var afterRelease :=
      if Held(bus.berthId) && bus.berthId != target then ReleaseBerth(berths, bus.berthId.value) else berths;
    if Held(target) then ClaimBerth(afterRelease, target.value, busId) else afterRelease
  }

  /** The berth updates of the whole pass over the bus list, applied in order. */
  function BerthEffects(buses: seq<Bus>, busId: string, target: Option<string>, berths: seq<Berth>): (r: seq<Berth>)
    ensures |r| == |berths|
    ensures forall k :: 0 <= k < |r| ==>
      && r[k].id == berths[k].id && r[k].displayLabel == berths[k].displayLabel && r[k].berthType == berths[k].berthType
      && r[k].hasCharger == berths[k].hasCharger && r[k].chargerStatus == berths[k].chargerStatus
    decreases |buses|
  {
    if |buses| == 0 then berths
    else
      var next := if buses[0].id == busId then BerthStep(berths, buses[0], busId, target) else berths;
      BerthEffects(buses[1..], busId, target, next)
  }

  /** The new record of the bus being moved. */
  function UpdateBus(bus: Bus, status: BusStatus, target: Option<string>, now: int): Bus {
    bus.(status := status,
         berthId := target,
         checkInTime := if status == InPort then Some(now) else bus.checkInTime,
         scheduledDeparture := if status == InPort then Some(now + DwellMillis) else bus.scheduledDeparture)
  }

  /** `handleStatusUpdate(busId, status, berthId)` at time `now`. Nothing is
      created or deleted, and no record changes identity: ids, labels, berth
      types and charger fields are never touched. */
  function Apply(d: Depot, busId: string, status: BusStatus, target: Option<string>, now: int): (r: Depot)
    ensures |r.buses| == |d.buses| && |r.berths| == |d.berths|
    ensures forall i :: 0 <= i < |r.buses| ==>
      r.buses[i].id == d.buses[i].id && r.buses[i].plateNo == d.buses[i].plateNo
    ensures forall k :: 0 <= k < |r.berths| ==>
      && r.berths[k].id == d.berths[k].id && r.berths[k].displayLabel == d.berths[k].displayLabel
      && r.berths[k].berthType == d.berths[k].berthType
      && r.berths[k].hasCharger == d.berths[k].hasCharger && r.berths[k].chargerStatus == d.berths[k].chargerStatus
  {
    var buses := seq(|d.buses|, i requires 0 <= i < |d.buses| =>
      if d.buses[i].id == busId then UpdateBus(d.buses[i], status, target, now) else d.buses[i]);
    Depot(buses, BerthEffects(d.buses, busId, target, d.berths))
  }

  function ApplyRequest(d: Depot, q: StatusRequest, now: int): Depot {
    Apply(d, q.busId, q.status, q.berthId, now)
  }

  // ---------------------------------------------------------------------------
  // The berth outcome, berth by berth

  predicate Matches(buses: seq<Bus>, busId: string) {
    exists i :: 0 <= i < |buses| && buses[i].id == busId
  }

  /** Some bus with id `busId` claims the berth `id`. */
  predicate Claims(buses: seq<Bus>, busId: string, target: Option<string>, id: string) {
    Held(target) && target.value == id && Matches(buses, busId)
  }

  /** Some bus with id `busId` leaves the berth `id` for a different one. */
  predicate Releases(buses: seq<Bus>, busId: string, target: Option<string>, id: string) {
    exists i :: 0 <= i < |buses| && buses[i].id == busId && Held(buses[i].berthId)
      && buses[i].berthId != target && buses[i].berthId.value == id
  }

  /** How a berth ends up, described berth by berth: claimed if it is the
      target, released if a moving bus left it, otherwise untouched. */
  function ExpectedBerth(buses: seq<Bus>, busId: string, target: Option<string>, b: Berth): Berth {
    if Claims(buses, busId, target, b.id) then Claimed(b, busId)
    else if Releases(buses, busId, target, b.id) then Released(b)
    else b
  }

  /** A claimed berth is never also released: a bus only leaves a berth whose
      id differs from the target's. */
  lemma ClaimExcludesRelease(buses: seq<Bus>, busId: string, target: Option<string>, id: string)
    requires Claims(buses, busId, target, id)
    ensures !Releases(buses, busId, target, id)
  {
  }

  lemma StepPointwise(berths: seq<Berth>, bus: Bus, busId: string, target: Option<string>, k: int)
    requires 0 <= k < |berths| && bus.id == busId
    ensures |BerthStep(berths, bus, busId, target)| == |berths|
    ensures BerthStep(berths, bus, busId, target)[k] == ExpectedBerth([bus], busId, target, berths[k])
  {
    var b := berths[k];
    assert Matches([bus], busId) by { assert [bus][0].id == busId; }
    assert [bus][0] == bus;
  }

  lemma ComposeExpected(u: Bus, rest: seq<Bus>, busId: string, target: Option<string>, b: Berth)
    ensures ExpectedBerth(rest, busId, target, ExpectedBerth([u], busId, target, b))
         == ExpectedBerth([u] + rest, busId, target, b)
  {
    MatchesCons(u, rest, busId);
    ReleasesCons(u, rest, busId, target, b.id);
  }

  lemma MatchesCons(u: Bus, rest: seq<Bus>, busId: string)
    ensures Matches([u] + rest, busId) <==> u.id == busId || Matches(rest, busId)
  {
    var all := [u] + rest;
    if Matches(all, busId) {
      var i :| 0 <= i < |all| && all[i].id == busId;
      if i > 0 { assert rest[i - 1] == all[i]; }
    }
    if u.id == busId { assert all[0] == u; }
    if Matches(rest, busId) {
      var i :| 0 <= i < |rest| && rest[i].id == busId;
      assert all[i + 1] == rest[i];
    }
  }

  lemma ReleasesCons(u: Bus, rest: seq<Bus>, busId: string, target: Option<string>, id: string)
    ensures Releases([u] + rest, busId, target, id) <==> Releases([u], busId, target, id) || Releases(rest, busId, target, id)
  {
    var all := [u] + rest;
    assert Releases([u], busId, target, id) <==>
      u.id == busId && Held(u.berthId) && u.berthId != target && u.berthId.value == id by {
      assert [u][0] == u;
    }
    if Releases(all, busId, target, id) {
      var i :| 0 <= i < |all| && all[i].id == busId && Held(all[i].berthId)
        && all[i].berthId != target && all[i].berthId.value == id;
      if i > 0 { assert rest[i - 1] == all[i]; } else { assert all[0] == u; }
    }
    if Releases([u], busId, target, id) {
      assert all[0] == u;
    }
    if Releases(rest, busId, target, id) {
      var i :| 0 <= i < |rest| && rest[i].id == busId && Held(rest[i].berthId)
        && rest[i].berthId != target && rest[i].berthId.value == id;
      assert all[i + 1] == rest[i];
    }
  }

  /** The pass over the bus list has the berth-by-berth outcome above. */
  lemma {:induction false} EffectsPointwise(buses: seq<Bus>, busId: string, target: Option<string>, berths: seq<Berth>)
    ensures forall k :: 0 <= k < |berths| ==>
      BerthEffects(buses, busId, target, berths)[k] == ExpectedBerth(buses, busId, target, berths[k])
    decreases |buses|
  {
    if |buses| == 0 {
      forall k | 0 <= k < |berths|
        ensures BerthEffects(buses, busId, target, berths)[k] == ExpectedBerth(buses, busId, target, berths[k])
      {
        assert !Matches(buses, busId);
      }
    } else {
      var u := buses[0];
      var rest := buses[1..];
      assert buses == [u] + rest;
      var next := if u.id == busId then BerthStep(berths, u, busId, target) else berths;
      EffectsPointwise(rest, busId, target, next);
      forall k | 0 <= k < |berths|
        ensures BerthEffects(buses, busId, target, berths)[k] == ExpectedBerth(buses, busId, target, berths[k])
      {
        if u.id == busId {
          StepPointwise(berths, u, busId, target, k);
        } else {
          assert !Matches([u], busId);
          assert !Releases([u], busId, target, berths[k].id);
        }
        assert next[k] == ExpectedBerth([u], busId, target, berths[k]);
        ComposeExpected(u, rest, busId, target, berths[k]);
      }
    }
  }

  // ---------------------------------------------------------------------------
  // Properties of one transition

  /** Every berth ends up as the berth-by-berth description says. */
  lemma ApplyBerthsPointwise(d: Depot, busId: string, status: BusStatus, target: Option<string>, now: int, k: int)
    requires 0 <= k < |d.berths|
    ensures Apply(d, busId, status, target, now).berths[k] == ExpectedBerth(d.buses, busId, target, d.berths[k])
  {
    EffectsPointwise(d.buses, busId, target, d.berths);
  }

  /** Only the buses whose id is `busId` change; each gets the new status and
      exactly the given berth (none when none is given), is stamped with the
      check-in time and a departure 15 minutes later on IN_PORT, and keeps
      every other field, as the object spread does. */
  lemma ApplyBuses(d: Depot, busId: string, status: BusStatus, target: Option<string>, now: int, i: int)
    requires 0 <= i < |d.buses|
    ensures var b := d.buses[i]; var b' := Apply(d, busId, status, target, now).buses[i];
      && (b.id != busId ==> b' == b)
      && (b.id == busId ==> b' == b.(
            status := status,
            berthId := target,
            checkInTime := if status == InPort then Some(now) else b.checkInTime,
            scheduledDeparture := if status == InPort then Some(now + 900000) else b.scheduledDeparture))
  {
  }

  /** With the one clock reading a transition takes, a tap-in leaves the
      departure exactly 15 minutes after the check-in. */
  lemma InPortDeparture(d: Depot, busId: string, target: Option<string>, now: int, i: int)
    requires 0 <= i < |d.buses| && d.buses[i].id == busId
    ensures var b' := Apply(d, busId, InPort, target, now).buses[i];
      b'.checkInTime.Some? && b'.scheduledDeparture == Some(b'.checkInTime.value + 15 * 60 * 1000)
  {
  }

  /** An unknown bus id changes neither registry. */
  lemma ApplyUnknownBus(d: Depot, busId: string, status: BusStatus, target: Option<string>, now: int)
    requires forall i :: 0 <= i < |d.buses| ==> d.buses[i].id != busId
    ensures Apply(d, busId, status, target, now) == d
  {
    var r := Apply(d, busId, status, target, now);
    EffectsPointwise(d.buses, busId, target, d.berths);
    assert !Matches(d.buses, busId);
    assert r.buses == d.buses;
    assert r.berths == d.berths;
  }

  /** No two buses share an id, no two berths share an id, and no berth id is
      the empty string. */
  predicate WellFormed(d: Depot) {
    && (forall i, j :: 0 <= i < |d.buses| && 0 <= j < |d.buses| && i != j ==> d.buses[i].id != d.buses[j].id)
    && (forall k, l :: 0 <= k < |d.berths| && 0 <= l < |d.berths| && k != l ==> d.berths[k].id != d.berths[l].id)
    && (forall k :: 0 <= k < |d.berths| ==> d.berths[k].id != "")
  }

  lemma ApplyWellFormed(d: Depot, busId: string, status: BusStatus, target: Option<string>, now: int)
    requires WellFormed(d)
    ensures WellFormed(Apply(d, busId, status, target, now))
  {
  }

  /** With distinct bus ids, the berth outcome in terms of the one bus moved:
      the target is claimed whatever occupied it, the old berth is released
      exactly when the bus held one that differs from the target, and every
      other berth is left as it was. */
  lemma ApplyBerthOutcome(d: Depot, j: int, status: BusStatus, target: Option<string>, now: int, k: int)
    requires WellFormed(d)
    requires 0 <= j < |d.buses| && 0 <= k < |d.berths|
    ensures var busId := d.buses[j].id; var prior := d.buses[j].berthId;
      var b := d.berths[k]; var b' := Apply(d, busId, status, target, now).berths[k];
      && (Held(target) && b.id == target.value ==> b' == Claimed(b, busId))
      && (Held(prior) && prior != target && b.id == prior.value ==> b' == Released(b))
      && (!(Held(target) && b.id == target.value) && !(Held(prior) && prior != target && b.id == prior.value) ==> b' == b)
  {
    var busId := d.buses[j].id;
    var b := d.berths[k];
    ApplyBerthsPointwise(d, busId, status, target, now, k);
    assert Matches(d.buses, busId);
    if Releases(d.buses, busId, target, b.id) {
      var i :| 0 <= i < |d.buses| && d.buses[i].id == busId && Held(d.buses[i].berthId)
        && d.buses[i].berthId != target && d.buses[i].berthId.value == b.id;
      assert i == j;
    }
  }

  lemma MatchesAfterApply(d: Depot, busId: string, status: BusStatus, target: Option<string>, t: int)
    ensures Matches(Apply(d, busId, status, target, t).buses, busId) <==> Matches(d.buses, busId)
  {
    SameIdsMatch(Apply(d, busId, status, target, t).buses, d.buses, busId);
  }

  /** Two bus lists with the same ids position by position match the same ids. */
  lemma SameIdsMatch(a: seq<Bus>, b: seq<Bus>, busId: string)
    requires |a| == |b| && forall i :: 0 <= i < |a| ==> a[i].id == b[i].id
    ensures Matches(a, busId) <==> Matches(b, busId)
  {
    if Matches(a, busId) {
      var i :| 0 <= i < |a| && a[i].id == busId;
      assert b[i].id == busId;
    }
    if Matches(b, busId) {
      var i :| 0 <= i < |b| && b[i].id == busId;
      assert a[i].id == busId;
    }
  }

  lemma NoReleaseAfterApply(d: Depot, busId: string, status: BusStatus, target: Option<string>, t: int, id: string)
    ensures !Releases(Apply(d, busId, status, target, t).buses, busId, target, id)
  {
    var d1 := Apply(d, busId, status, target, t);
    forall i | 0 <= i < |d1.buses| && d1.buses[i].id == busId ensures d1.buses[i].berthId == target {
      ApplyBuses(d, busId, status, target, t, i);
    }
  }

  lemma IdempotentBerth(d: Depot, busId: string, status: BusStatus, target: Option<string>, t1: int, t2: int, k: int)
    requires 0 <= k < |d.berths|
    ensures var d1 := Apply(d, busId, status, target, t1);
      Apply(d1, busId, status, target, t2).berths[k] == Apply(d, busId, status, target, t2).berths[k]
  {
    var d1 := Apply(d, busId, status, target, t1);
    var b := d.berths[k];
    var e1 := ExpectedBerth(d.buses, busId, target, b);
    ApplyBerthsPointwise(d, busId, status, target, t1, k);
    ApplyBerthsPointwise(d1, busId, status, target, t2, k);
    ApplyBerthsPointwise(d, busId, status, target, t2, k);
    assert d1.berths[k] == e1 && e1.id == b.id;
    MatchesAfterApply(d, busId, status, target, t1);
    NoReleaseAfterApply(d, busId, status, target, t1, b.id);
    assert Claims(d1.buses, busId, target, b.id) <==> Claims(d.buses, busId, target, b.id);
  }

  /** Applying the same request twice is applying it once at the later time. */
  lemma ApplyIdempotent(d: Depot, busId: string, status: BusStatus, target: Option<string>, t1: int, t2: int)
    ensures Apply(Apply(d, busId, status, target, t1), busId, status, target, t2)
         == Apply(d, busId, status, target, t2)
  {
    var d1 := Apply(d, busId, status, target, t1);
    var r2 := Apply(d1, busId, status, target, t2);
    var r := Apply(d, busId, status, target, t2);
    assert r2.buses == r.buses;
    forall k | 0 <= k < |d.berths| ensures r2.berths[k] == r.berths[k] {
      IdempotentBerth(d, busId, status, target, t1, t2, k);
    }
    assert r2.berths == r.berths;
  }

  // ---------------------------------------------------------------------------
  // Two-way consistency

  /** Some bus with id `busId` names berth `berthId` as its berth. */
  predicate HeldBy(buses: seq<Bus>, busId: string, berthId: string) {
    exists i :: 0 <= i < |buses| && buses[i].id == busId && buses[i].berthId == Some(berthId)
  }

  /** Some berth with id `berthId` names bus `busId` as its occupant. */
  predicate OccupiedBy(berths: seq<Berth>, berthId: string, busId: string) {
    exists k :: 0 <= k < |berths| && berths[k].id == berthId && berths[k].busId == Some(busId)
  }

  /** Berths and buses agree: a berth is occupied exactly when it names an
      occupant, that occupant names the berth back, and every bus that holds a
      berth is named by it. */
  predicate Consistent(d: Depot) {
    && (forall k :: 0 <= k < |d.berths| ==> (d.berths[k].isOccupied <==> d.berths[k].busId.Some?))
    && (forall k :: 0 <= k < |d.berths| && d.berths[k].busId.Some? ==>
          HeldBy(d.buses, d.berths[k].busId.value, d.berths[k].id))
    && (forall i :: 0 <= i < |d.buses| && Held(d.buses[i].berthId) ==>
          OccupiedBy(d.berths, d.buses[i].berthId.value, d.buses[i].id))
  }

  /** The condition the transition needs and never checks: a target berth
      exists and is free or already this bus's. */
  predicate ClaimAllowed(d: Depot, busId: string, target: Option<string>) {
    Held(target) ==>
      exists k :: 0 <= k < |d.berths| && d.berths[k].id == target.value
        && (d.berths[k].busId.None? || d.berths[k].busId == Some(busId))
  }

  /** In a consistent registry no two buses hold the same berth. */
  lemma ConsistentExclusive(d: Depot, i: int, j: int)
    requires WellFormed(d) && Consistent(d)
    requires 0 <= i < |d.buses| && 0 <= j < |d.buses| && i != j
    requires Held(d.buses[i].berthId)
    ensures d.buses[j].berthId != d.buses[i].berthId
  {
    var k :| 0 <= k < |d.berths| && d.berths[k].id == d.buses[i].berthId.value && d.berths[k].busId == Some(d.buses[i].id);
    if Held(d.buses[j].berthId) {
      var l :| 0 <= l < |d.berths| && d.berths[l].id == d.buses[j].berthId.value && d.berths[l].busId == Some(d.buses[j].id);
      assert k != l;
    }
  }

  /** After the transition each berth is occupied exactly when it names an
      occupant, and that occupant names it back. */
  lemma ConsistentBerthAfter(d: Depot, j: int, status: BusStatus, target: Option<string>, now: int, k: int)
    requires WellFormed(d) && Consistent(d)
    requires 0 <= j < |d.buses| && 0 <= k < |d.berths|
    ensures var r := Apply(d, d.buses[j].id, status, target, now);
      && (r.berths[k].isOccupied <==> r.berths[k].busId.Some?)
      && (r.berths[k].busId.Some? ==> HeldBy(r.buses, r.berths[k].busId.value, r.berths[k].id))
  {
    var busId := d.buses[j].id;
    var prior := d.buses[j].berthId;
    var r := Apply(d, busId, status, target, now);
    ApplyBerthOutcome(d, j, status, target, now, k);
    var b := d.berths[k];
    if Held(target) && b.id == target.value {
      ApplyBuses(d, busId, status, target, now, j);
      assert r.buses[j].id == busId && r.buses[j].berthId == Some(b.id);
    } else if Held(prior) && prior != target && b.id == prior.value {
    } else if b.busId.Some? {
      assert r.berths[k] == b;
      var i :| 0 <= i < |d.buses| && d.buses[i].id == b.busId.value && d.buses[i].berthId == Some(b.id);
      assert i != j;
      ApplyBuses(d, busId, status, target, now, i);
      assert r.buses[i].id == b.busId.value && r.buses[i].berthId == Some(b.id);
    }
  }

  /** After the transition every bus that holds a berth is named by it. */
  lemma ConsistentBusAfter(d: Depot, j: int, status: BusStatus, target: Option<string>, now: int, i: int)
    requires WellFormed(d) && Consistent(d)
    requires 0 <= j < |d.buses| && 0 <= i < |d.buses|
    requires ClaimAllowed(d, d.buses[j].id, target)
    ensures var r := Apply(d, d.buses[j].id, status, target, now);
      Held(r.buses[i].berthId) ==> OccupiedBy(r.berths, r.buses[i].berthId.value, r.buses[i].id)
  {
    ApplyBuses(d, d.buses[j].id, status, target, now, i);
    if i == j {
      MovedBusOccupies(d, j, status, target, now);
    } else {
      OtherBusKeepsBerth(d, j, status, target, now, i);
    }
  }

  lemma MovedBusOccupies(d: Depot, j: int, status: BusStatus, target: Option<string>, now: int)
    requires WellFormed(d) && 0 <= j < |d.buses|
    requires ClaimAllowed(d, d.buses[j].id, target)
    ensures Held(target) ==> OccupiedBy(Apply(d, d.buses[j].id, status, target, now).berths, target.value, d.buses[j].id)
  {
    if Held(target) {
      var busId := d.buses[j].id;
      var r := Apply(d, busId, status, target, now);
      var k :| 0 <= k < |d.berths| && d.berths[k].id == target.value
        && (d.berths[k].busId.None? || d.berths[k].busId == Some(busId));
      ApplyBerthOutcome(d, j, status, target, now, k);
      assert r.berths[k].id == target.value && r.berths[k].busId == Some(busId);
    }
  }

  lemma OtherBusKeepsBerth(d: Depot, j: int, status: BusStatus, target: Option<string>, now: int, i: int)
    requires WellFormed(d) && Consistent(d)
    requires 0 <= j < |d.buses| && 0 <= i < |d.buses| && i != j
    requires ClaimAllowed(d, d.buses[j].id, target)
    ensures var bus := d.buses[i];
      Held(bus.berthId) ==> OccupiedBy(Apply(d, d.buses[j].id, status, target, now).berths, bus.berthId.value, bus.id)
  {
    var busId := d.buses[j].id;
    var prior := d.buses[j].berthId;
    var bus := d.buses[i];
    if Held(bus.berthId) {
      var r := Apply(d, busId, status, target, now);
      assert bus.id != busId;
      var k :| 0 <= k < |d.berths| && d.berths[k].id == bus.berthId.value && d.berths[k].busId == Some(bus.id);
      ApplyBerthOutcome(d, j, status, target, now, k);
      UntouchedBerth(d, j, target, k);
      assert r.berths[k] == d.berths[k];
    }
  }

  /** A berth another bus occupies is neither the target of an allowed claim
      nor the berth the moving bus leaves. */
  lemma UntouchedBerth(d: Depot, j: int, target: Option<string>, k: int)
    requires WellFormed(d) && Consistent(d)
    requires 0 <= j < |d.buses| && 0 <= k < |d.berths|
    requires ClaimAllowed(d, d.buses[j].id, target)
    requires d.berths[k].busId.Some? && d.berths[k].busId != Some(d.buses[j].id)
    ensures !(Held(target) && d.berths[k].id == target.value)
    ensures var prior := d.buses[j].berthId; !(Held(prior) && d.berths[k].id == prior.value)
  {
    var busId := d.buses[j].id;
    var prior := d.buses[j].berthId;
    if Held(target) {
      var l :| 0 <= l < |d.berths| && d.berths[l].id == target.value
        && (d.berths[l].busId.None? || d.berths[l].busId == Some(busId));
      assert l != k;
    }
    if Held(prior) {
      assert OccupiedBy(d.berths, prior.value, busId);
      var l :| 0 <= l < |d.berths| && d.berths[l].id == prior.value && d.berths[l].busId == Some(busId);
      assert l != k;
    }
  }

  /** The transition keeps the registries consistent when the target berth
      is free or already held by the bus being moved. */
  lemma ApplyPreservesConsistency(d: Depot, busId: string, status: BusStatus, target: Option<string>, now: int)
    requires WellFormed(d) && Consistent(d)
    requires ClaimAllowed(d, busId, target)
    ensures Consistent(Apply(d, busId, status, target, now))
  {
    var r := Apply(d, busId, status, target, now);
    if !Matches(d.buses, busId) {
      ApplyUnknownBus(d, busId, status, target, now);
      return;
    }
    var j :| 0 <= j < |d.buses| && d.buses[j].id == busId;
    forall k | 0 <= k < |d.berths|
      ensures (r.berths[k].isOccupied <==> r.berths[k].busId.Some?)
      ensures r.berths[k].busId.Some? ==> HeldBy(r.buses, r.berths[k].busId.value, r.berths[k].id)
    {
      ConsistentBerthAfter(d, j, status, target, now, k);
    }
    forall i | 0 <= i < |r.buses| && Held(r.buses[i].berthId)
      ensures OccupiedBy(r.berths, r.buses[i].berthId.value, r.buses[i].id)
    {
      ConsistentBusAfter(d, j, status, target, now, i);
    }
  }

  /** Claiming a berth that another bus holds names the claimant as its
      occupant, so the holder's berth reference is left dangling: the
      unchecked transition breaks consistency whenever it double-books. */
  lemma ClaimingHeldBerthBreaks(d: Depot, i: int, j: int, k: int, status: BusStatus, now: int)
    requires WellFormed(d)
    requires 0 <= i < |d.buses| && 0 <= j < |d.buses| && i != j && 0 <= k < |d.berths|
    requires d.buses[i].berthId == Some(d.berths[k].id)
    ensures !Consistent(Apply(d, d.buses[j].id, status, Some(d.berths[k].id), now))
  {
    var target := Some(d.berths[k].id);
    var e := Apply(d, d.buses[j].id, status, target, now);
    ApplyBerthOutcome(d, j, status, target, now, k);
    ApplyBuses(d, d.buses[j].id, status, target, now, i);
    assert e.buses[i] == d.buses[i];
    assert Held(e.buses[i].berthId);
    assert e.berths[k].busId == Some(d.buses[j].id);
    assert !OccupiedBy(e.berths, d.berths[k].id, d.buses[i].id);
  }

  /** The first tap-in of a two-bus, one-berth depot leaves it consistent. */
  lemma FirstClaimConsistent()
    ensures var b1 := Berth("B1", "Berth 1", false, None, Boarding, None, None);
      var d := Apply(Depot([NewBus("A", "10", "SBA1", EnRoute, "C1"), NewBus("C", "20", "SBC2", EnRoute, "C2")], [b1]), "A", InPort, Some("B1"), 0);
      && WellFormed(d) && Consistent(d)
      && d.buses[0].berthId == Some("B1") && d.buses[1].id == "C" && d.berths[0].id == "B1"
  {
    var b1 := Berth("B1", "Berth 1", false, None, Boarding, None, None);
    var d0 := Depot([NewBus("A", "10", "SBA1", EnRoute, "C1"), NewBus("C", "20", "SBC2", EnRoute, "C2")], [b1]);
    assert WellFormed(d0);
    assert Consistent(d0);
    assert ClaimAllowed(d0, "A", Some("B1")) by { assert d0.berths[0].id == "B1"; }
    ApplyWellFormed(d0, "A", InPort, Some("B1"), 0);
    ApplyPreservesConsistency(d0, "A", InPort, Some("B1"), 0);
    ApplyBuses(d0, "A", InPort, Some("B1"), 0, 0);
  }

  /** A concrete double booking: bus A taps into B1, then bus C taps into B1
      too, and the registries disagree. */
  lemma DoubleBookingBreaksConsistency()
    ensures var b1 := Berth("B1", "Berth 1", false, None, Boarding, None, None);
      var d := Apply(Depot([NewBus("A", "10", "SBA1", EnRoute, "C1"), NewBus("C", "20", "SBC2", EnRoute, "C2")], [b1]), "A", InPort, Some("B1"), 0);
      && WellFormed(d) && Consistent(d)
      && !Consistent(Apply(d, "C", InPort, Some("B1"), 60000))
  {
    var b1 := Berth("B1", "Berth 1", false, None, Boarding, None, None);
    var d := Apply(Depot([NewBus("A", "10", "SBA1", EnRoute, "C1"), NewBus("C", "20", "SBC2", EnRoute, "C2")], [b1]), "A", InPort, Some("B1"), 0);
    FirstClaimConsistent();
    ClaimingHeldBerthBreaks(d, 0, 1, 0, InPort, 60000);
  }

  // ---------------------------------------------------------------------------
  // The checked transition

  datatype TransitionError = UnknownBus | UnknownBerth | BerthAlreadyOccupied

  /** The transition with the occupancy check the unchecked one lacks: an
      unknown bus, an unknown target berth and a target held by another bus
      are each reported and leave the registries alone. */
  function CheckedApply(d: Depot, busId: string, status: BusStatus, target: Option<string>, now: int): (r: Result<Depot, TransitionError>)
    ensures r == Err(UnknownBus) <==> !Matches(d.buses, busId)
    ensures r == Err(UnknownBerth) <==>
      (Matches(d.buses, busId) && Held(target) && forall k :: 0 <= k < |d.berths| ==> d.berths[k].id != target.value)
    ensures r == Err(BerthAlreadyOccupied) <==>
      (Matches(d.buses, busId) && Held(target)
       && (exists k :: 0 <= k < |d.berths| && d.berths[k].id == target.value)
       && !ClaimAllowed(d, busId, target))
    ensures r.Ok? <==> Matches(d.buses, busId) && ClaimAllowed(d, busId, target)
    ensures r.Ok? ==> r.value == Apply(d, busId, status, target, now)
    ensures WellFormed(d) && r.Ok? ==> WellFormed(r.value)
    ensures WellFormed(d) && Consistent(d) && r.Ok? ==> Consistent(r.value)
  {
    if !Matches(d.buses, busId) then Err(UnknownBus)
    else if Held(target) && forall k :: 0 <= k < |d.berths| ==> d.berths[k].id != target.value then Err(UnknownBerth)
    else if !ClaimAllowed(d, busId, target) then Err(BerthAlreadyOccupied)
    else
      var r := Apply(d, busId, status, target, now);
      assert WellFormed(d) ==> WellFormed(r) by {
        if WellFormed(d) { ApplyWellFormed(d, busId, status, target, now); }
      }
      assert WellFormed(d) && Consistent(d) ==> Consistent(r) by {
        if WellFormed(d) && Consistent(d) { ApplyPreservesConsistency(d, busId, status, target, now); }
      }
      Ok(r)
  }

  /** A run of requests through the checked transition; a rejected request
      leaves the registries as they were. */
  function RunChecked(d: Depot, requests: seq<StatusRequest>, now: int): (r: Depot)
    requires WellFormed(d) && Consistent(d)
    ensures WellFormed(r) && Consistent(r)
    ensures |r.buses| == |d.buses| && |r.berths| == |d.berths|
    decreases |requests|
  {
    if |requests| == 0 then d
    else
      var q := requests[0];
      var next := match CheckedApply(d, q.busId, q.status, q.berthId, now)
        case Ok(e) => e
        case Err(_) => d;
      RunChecked(next, requests[1..], now)
  }

  // ---------------------------------------------------------------------------
  // The voice trigger

  /** The part of the app state the voice trigger drives. */
  datatype AppView = AppView(role: UserRole, tapInTrigger: int)

  const InitialAppView := AppView(OperationsManager, 0)

  /** `onVoiceInitiateTapIn`: switch to the captain screen and bump the counter. */
  function OnVoiceInitiateTapIn(v: AppView): (r: AppView)
    ensures r.role == BusCaptain
    ensures r.tapInTrigger > v.tapInTrigger
  {
    AppView(BusCaptain, v.tapInTrigger + 1)
  }

  /** A status change that keeps the bus's own berth moves no berth, and
      the registries stay consistent. */
  lemma ReclaimKeepsBerths(d: Depot, i: int, status: BusStatus, now: int)
    requires WellFormed(d) && Consistent(d) && 0 <= i < |d.buses|
    ensures var r := Apply(d, d.buses[i].id, status, d.buses[i].berthId, now);
      && r.berths == d.berths
      && r.buses[i].berthId == d.buses[i].berthId && r.buses[i].status == status
      && Consistent(r)
  {
    var bus := d.buses[i];
    forall k | 0 <= k < |d.berths| ensures Apply(d, bus.id, status, bus.berthId, now).berths[k] == d.berths[k] {
      OwnBerthUnchanged(d, i, status, now, k);
    }
    OwnBerthAllowed(d, i);
    ApplyPreservesConsistency(d, bus.id, status, bus.berthId, now);
    ApplyBuses(d, bus.id, status, bus.berthId, now, i);
  }

  /** Re-claiming the berth a bus already holds leaves every berth as it was. */
  lemma OwnBerthUnchanged(d: Depot, i: int, status: BusStatus, now: int, k: int)
    requires WellFormed(d) && Consistent(d) && 0 <= i < |d.buses| && 0 <= k < |d.berths|
    ensures Apply(d, d.buses[i].id, status, d.buses[i].berthId, now).berths[k] == d.berths[k]
  {
    var bus := d.buses[i];
    var target := bus.berthId;
    ApplyBerthOutcome(d, i, status, target, now, k);
    var b := d.berths[k];
    if Held(target) && b.id == target.value {
      var l :| 0 <= l < |d.berths| && d.berths[l].id == target.value && d.berths[l].busId == Some(bus.id);
      assert l == k;
      assert Claimed(b, bus.id) == b;
    }
  }

  /** A bus may always claim the berth it already holds. */
  lemma OwnBerthAllowed(d: Depot, i: int)
    requires WellFormed(d) && Consistent(d) && 0 <= i < |d.buses|
    ensures ClaimAllowed(d, d.buses[i].id, d.buses[i].berthId)
  {
    var bus := d.buses[i];
    if Held(bus.berthId) {
      var l :| 0 <= l < |d.berths| && d.berths[l].id == bus.berthId.value && d.berths[l].busId == Some(bus.id);
    }
  }
}
