/** The registries the console starts from (`INITIAL_BERTHS` and
    `INITIAL_BUSES`). The seed is built when the module loads, so the clock
    reading it stamps is a parameter. */
module Seed {
  import opened Wrappers
  import opened Fleet
  import opened Text
  import opened Registry

  /** Berth number `i + 1`: the first four for alighting, the next four for
      boarding, the last four for layover; all free. */
  function SeedBerth(i: nat): Berth
    requires i < 12
  {
    var kind := if i < 4 then Alighting else if i < 8 then Boarding else LayoverBay;
    Berth("B" + NatToString(i + 1), "Berth " + NatToString(i + 1), false, None, kind, None, None)
  }

  function InitialBerths(): seq<Berth> {
    seq(12, i requires 0 <= i < 12 => SeedBerth(i))
  }

  /** The three seeded buses; `loadTime` is the clock reading at start-up. */
  function InitialBuses(loadTime: int): seq<Bus> {
    var bus1 := NewBus("BUS001", "190", "SMB315C", EnRoute, "BC01");
    var bus2 := NewBus("BUS002", "972", "SG5001D", Layover, "BC02");
    var bus3 := NewBus("BUS003", "67", "SMB123A", InPort, "BC03");
    [ bus1,
      bus2.(berthId := Some("B9"), checkInTime := Some(loadTime)),
      bus3.(berthId := Some("B5"), scheduledDeparture := Some(loadTime + 10 * 60000)) ]
  }

  function InitialDepot(loadTime: int): Depot {
    Depot(InitialBuses(loadTime), InitialBerths())
  }

  /** The twelve seeded berths are B1..B12, labelled "Berth 1".."Berth 12",
      all free, typed by position. */
  lemma SeedBerths()
    ensures |InitialBerths()| == 12
    ensures seq(12, i requires 0 <= i < 12 => InitialBerths()[i].id)
         == ["B1", "B2", "B3", "B4", "B5", "B6", "B7", "B8", "B9", "B10", "B11", "B12"]
    ensures seq(12, i requires 0 <= i < 12 => InitialBerths()[i].displayLabel)
         == ["Berth 1", "Berth 2", "Berth 3", "Berth 4", "Berth 5", "Berth 6",
             "Berth 7", "Berth 8", "Berth 9", "Berth 10", "Berth 11", "Berth 12"]
    ensures forall i :: 0 <= i < 12 ==> !InitialBerths()[i].isOccupied && InitialBerths()[i].busId.None?
    ensures forall i :: 0 <= i < 4 ==> InitialBerths()[i].berthType == Alighting
    ensures forall i :: 4 <= i < 8 ==> InitialBerths()[i].berthType == Boarding
    ensures forall i :: 8 <= i < 12 ==> InitialBerths()[i].berthType == LayoverBay
  {
    Numerals();
    var ids := seq(12, i requires 0 <= i < 12 => InitialBerths()[i].id);
    var labels := seq(12, i requires 0 <= i < 12 => InitialBerths()[i].displayLabel);
    var expectedIds := ["B1", "B2", "B3", "B4", "B5", "B6", "B7", "B8", "B9", "B10", "B11", "B12"];
    var expectedLabels := ["Berth 1", "Berth 2", "Berth 3", "Berth 4", "Berth 5", "Berth 6",
      "Berth 7", "Berth 8", "Berth 9", "Berth 10", "Berth 11", "Berth 12"];
    forall i | 0 <= i < 12 ensures ids[i] == expectedIds[i] && labels[i] == expectedLabels[i] {
      assert i == 0 || i == 1 || i == 2 || i == 3 || i == 4 || i == 5 || i == 6 || i == 7
        || i == 8 || i == 9 || i == 10 || i == 11;
    }
  }

  lemma Numerals()
    ensures NatToString(1) == "1" && NatToString(2) == "2" && NatToString(3) == "3"
    ensures NatToString(4) == "4" && NatToString(5) == "5" && NatToString(6) == "6"
    ensures NatToString(7) == "7" && NatToString(8) == "8" && NatToString(9) == "9"
    ensures NatToString(10) == "10" && NatToString(11) == "11" && NatToString(12) == "12"
  {
  }

  /** Seeded bus ids are BUS001..BUS003 and only BUS003 has a departure. */
  lemma SeedBuses(loadTime: int)
    ensures var buses := InitialBuses(loadTime);
      && |buses| == 3
      && buses[0].id == "BUS001" && buses[1].id == "BUS002" && buses[2].id == "BUS003"
      && (forall i :: 0 <= i < 3 ==> (buses[i].scheduledDeparture.Some? <==> i == 2))
  {
  }

  /** Distinct ids throughout, and no empty berth id. */
  lemma SeedWellFormed(loadTime: int)
    ensures WellFormed(InitialDepot(loadTime))
  {
    var d := InitialDepot(loadTime);
    forall k, l | 0 <= k < 12 && 0 <= l < 12 && k != l
      ensures d.berths[k].id != d.berths[l].id
    {
      if d.berths[k].id == d.berths[l].id {
        assert NatToString(k + 1) == d.berths[k].id[1..] == d.berths[l].id[1..] == NatToString(l + 1);
        NatToStringInjective(k + 1, l + 1);
      }
    }
  }

  /** The seed is not two-way consistent: BUS002 names B9 and BUS003 names B5,
      yet both berths are free. */
  lemma SeedNotConsistent(loadTime: int)
    ensures !Consistent(InitialDepot(loadTime))
  {
    var d := InitialDepot(loadTime);
    SeedBerths();
    assert d.buses[1].berthId == Some("B9") && Held(d.buses[1].berthId);
    assert !OccupiedBy(d.berths, "B9", "BUS002");
  }

  /** The seed as its buses describe it: B5 held by BUS003 and B9 by BUS002. */
  function CorrectedInitialBerths(): seq<Berth> {
    var seeded := InitialBerths();
    seeded[4 := Claimed(seeded[4], "BUS003")][8 := Claimed(seeded[8], "BUS002")]
  }

  function CorrectedInitialDepot(loadTime: int): Depot {
    Depot(InitialBuses(loadTime), CorrectedInitialBerths())
  }

  /** The corrected berths differ from the seeded ones only in B5 and B9,
      which are occupied by BUS003 and BUS002. */
  lemma CorrectedBerths()
    ensures var bs := CorrectedInitialBerths();
      && |bs| == 12
      && (forall k :: 0 <= k < 12 ==> bs[k].id == InitialBerths()[k].id)
      && (forall k :: 0 <= k < 12 ==> (bs[k].isOccupied <==> bs[k].busId.Some?))
      && (forall k :: 0 <= k < 12 && bs[k].busId.Some? ==> k == 4 || k == 8)
      && bs[4].id == "B5" && bs[4].busId == Some("BUS003")
      && bs[8].id == "B9" && bs[8].busId == Some("BUS002")
  {
    SeedBerths();
    var ids := seq(12, i requires 0 <= i < 12 => InitialBerths()[i].id);
    assert InitialBerths()[4].id == ids[4] == "B5";
    assert InitialBerths()[8].id == ids[8] == "B9";
  }

  lemma CorrectedSeedWellFormed(loadTime: int)
    ensures WellFormed(CorrectedInitialDepot(loadTime))
  {
    SeedWellFormed(loadTime);
    CorrectedBerths();
  }

  /** Each occupied corrected berth is held back by its occupant. */
  lemma CorrectedOccupantsHold(loadTime: int)
    ensures var d := CorrectedInitialDepot(loadTime);
      forall k :: 0 <= k < |d.berths| && d.berths[k].busId.Some? ==>
        HeldBy(d.buses, d.berths[k].busId.value, d.berths[k].id)
  {
    var d := CorrectedInitialDepot(loadTime);
    CorrectedBerths();
    assert HeldBy(d.buses, "BUS003", "B5") by { assert d.buses[2].berthId == Some("B5"); }
    assert HeldBy(d.buses, "BUS002", "B9") by { assert d.buses[1].berthId == Some("B9"); }
  }

  /** Each seeded bus that holds a berth is named by it. */
  lemma CorrectedHoldersOccupy(loadTime: int)
    ensures var d := CorrectedInitialDepot(loadTime);
      forall i :: 0 <= i < |d.buses| && Held(d.buses[i].berthId) ==>
        OccupiedBy(d.berths, d.buses[i].berthId.value, d.buses[i].id)
  {
    var d := CorrectedInitialDepot(loadTime);
    CorrectedBerths();
    assert OccupiedBy(d.berths, "B5", "BUS003") by { assert d.berths[4].busId == Some("BUS003"); }
    assert OccupiedBy(d.berths, "B9", "BUS002") by { assert d.berths[8].busId == Some("BUS002"); }
  }

  /** The corrected seed is well formed and two-way consistent. */
  lemma CorrectedSeedConsistent(loadTime: int)
    ensures WellFormed(CorrectedInitialDepot(loadTime)) && Consistent(CorrectedInitialDepot(loadTime))
  {
    CorrectedSeedWellFormed(loadTime);
    CorrectedBerths();
    CorrectedOccupantsHold(loadTime);
    CorrectedHoldersOccupy(loadTime);
  }
}
