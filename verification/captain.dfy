/** The bus captain screen (components/BusCaptainInterface.tsx): the
    departure countdown with its one-shot five-minute punctuality prompt,
    the clock formatter, berth selection, tap-in and tap-out, and the
    voice-driven tap-in trigger. The one-second timer becomes a sequence of
    countdown readings. */
module Captain {
  import opened Wrappers
  import opened Fleet
  import opened Text
  import opened Lists
  import opened Registry
  import opened Seed

  // ---------------------------------------------------------------------------
  // Countdown and clock

  /** Whole seconds until `departure`, never negative. */
  function Countdown(departure: int, now: int): (r: nat)
    ensures departure - now >= 0 ==> r * 1000 <= departure - now < r * 1000 + 1000
    ensures departure - now < 1000 ==> r == 0
  {
    var seconds := (departure - now) / 1000;
    if seconds < 0 then 0 else seconds
  }

  /** The countdown is under five minutes exactly when the dashboard marks
      the departure as near. */
  lemma CountdownAgreesWithNearDeparture(departure: int, now: int)
    ensures Countdown(departure, now) < 300 <==> departure - now < 300000
  {
  }

  /** Right after a tap-in the countdown reads the full fifteen minutes. */
  lemma CountdownAfterTapIn(d: Depot, j: int, target: Option<string>, now: int)
    requires 0 <= j < |d.buses|
    ensures var bus := Apply(d, d.buses[j].id, InPort, target, now).buses[j];
      bus.scheduledDeparture.Some? && Countdown(bus.scheduledDeparture.value, now) == 900
  {
    ApplyBuses(d, d.buses[j].id, InPort, target, now, j);
  }

  /** `formatTime(seconds)`: minutes, a colon, then seconds on two digits. */
  function FormatClock(seconds: nat): string {
    NatToString(seconds / 60) + ":" + PadTwo(NatToString(seconds % 60))
  }

  lemma TwoDigits(n: nat)
    requires 10 <= n < 100
    ensures |NatToString(n)| == 2
  {
  }

  /** The seconds field always has two digits and reads back below 60. */
  lemma PaddedSeconds(n: nat)
    requires n < 60
    ensures var ss := PadTwo(NatToString(n)); |ss| == 2 && AllDigits(ss) && DigitsValue(ss) == n
  {
    NatToStringValue(n);
    if n < 10 {
      LeadingZeroValue(NatToString(n));
    } else {
      TwoDigits(n);
    }
  }

  /** The clock reads back as the number of seconds it shows: the text
      before the colon three characters from the end counts minutes, the two
      digits after it count the seconds below a minute. */
  lemma FormatClockReadsBack(seconds: nat)
    ensures var t := FormatClock(seconds); var c := |t| - 3;
      && c >= 1 && t[c] == ':'
      && AllDigits(t[..c]) && AllDigits(t[c + 1..])
      && DigitsValue(t[c + 1..]) < 60
      && DigitsValue(t[..c]) * 60 + DigitsValue(t[c + 1..]) == seconds
  {
    var m := NatToString(seconds / 60);
    var ss := PadTwo(NatToString(seconds % 60));
    PaddedSeconds(seconds % 60);
    NatToStringValue(seconds / 60);
    var t := FormatClock(seconds);
    assert t == m + ":" + ss;
    assert t[..|t| - 3] == m;
    assert t[|t| - 2..] == ss;
  }

  // ---------------------------------------------------------------------------
  // Punctuality prompt

  /** The prompt's state: whether it has fired since it was last re-armed,
      and whether it is on screen. */
  datatype Punctuality = Punctuality(hasVibrated: bool, promptShown: bool)

  /** The prompt fires on a reading in the last ten seconds before the
      five-minute mark, once. */
  predicate Fires(p: Punctuality, seconds: nat) {
    seconds <= 300 && seconds > 290 && !p.hasVibrated
  }

  /** One timer tick with countdown reading `seconds`: fire if due, and
      re-arm while more than five minutes remain. */
  function Tick(p: Punctuality, seconds: nat): (r: Punctuality)
    ensures r.hasVibrated <==> seconds <= 300 && (p.hasVibrated || seconds > 290)
    ensures r.promptShown <==> p.promptShown || Fires(p, seconds)
  {
    var fired := Fires(p, seconds);
    var vibrated := fired || p.hasVibrated;
    Punctuality(if seconds > 300 then false else vibrated, p.promptShown || fired)
  }

  /** With no departure the countdown is cleared and the prompt re-armed. */
  function NoDeparture(p: Punctuality): (r: Punctuality)
    ensures !r.hasVibrated && r.promptShown == p.promptShown
  {
    p.(hasVibrated := false)
  }

  /** How many times the prompt fires over a run of readings. */
  function FireCount(p: Punctuality, readings: seq<nat>): nat
    decreases |readings|
  {
    if |readings| == 0 then 0
    else (if Fires(p, readings[0]) then 1 else 0) + FireCount(Tick(p, readings[0]), readings[1..])
  }

  /** While the departure stays within five minutes the prompt fires at most
      once: exactly once when it was armed and some reading falls in the
      window (290, 300], never otherwise. */
  lemma {:induction false} OneShotPrompt(p: Punctuality, readings: seq<nat>)
    requires forall i :: 0 <= i < |readings| ==> readings[i] <= 300
    ensures FireCount(p, readings) ==
      if !p.hasVibrated && exists i :: 0 <= i < |readings| && readings[i] > 290 then 1 else 0
    decreases |readings|
  {
    if |readings| > 0 {
      var s := readings[0];
      var rest := readings[1..];
      assert forall i :: 0 <= i < |rest| ==> rest[i] == readings[i + 1];
      OneShotPrompt(Tick(p, s), rest);
      if !p.hasVibrated && s <= 290 {
        if exists i :: 0 <= i < |readings| && readings[i] > 290 {
          var i :| 0 <= i < |readings| && readings[i] > 290;
          assert rest[i - 1] > 290;
        }
      } else if !p.hasVibrated {
        assert readings[0] > 290;
      }
    }
  }

  /** A reading above five minutes re-arms the prompt, so an extended
      departure can fire it again. */
  lemma ExtensionRearms(p: Punctuality, above: nat, inWindow: nat)
    requires above > 300 && 290 < inWindow <= 300
    ensures Fires(Tick(p, above), inWindow)
  {
  }

  // ---------------------------------------------------------------------------
  // Tap-in and tap-out

  /** The captain screen's own state. */
  datatype CaptainView = CaptainView(selectedBerth: string, nfcPrompt: bool, punctuality: Punctuality)

  /** What a button press yields: the new screen state and the status change
      sent to the registry, if any. */
  datatype Press = Press(view: CaptainView, request: Option<StatusRequest>)

  /** A berth button: occupied berths are disabled and ignore the press. */
  function SelectBerth(v: CaptainView, berth: Berth): (r: CaptainView)
    ensures r.selectedBerth == berth.id || r == v
    ensures berth.isOccupied ==> r == v
    ensures !berth.isOccupied ==> r == v.(selectedBerth := berth.id)
  {
    if berth.isOccupied then v else v.(selectedBerth := berth.id)
  }

  /** `handleTapIn`: nothing without a selected berth; otherwise IN_PORT at
      the selected berth, the prompt closed and the punctuality flag re-armed. */
  function TapIn(v: CaptainView, bus: Bus): (r: Press)
    ensures r.request.None? <==> v.selectedBerth == ""
    ensures r.request.None? ==> r.view == v
    ensures r.request.Some? ==> (r.request.value == StatusRequest(bus.id, InPort, Some(v.selectedBerth))
      && !r.view.nfcPrompt && !r.view.punctuality.hasVibrated)
    ensures r.view.selectedBerth == v.selectedBerth
    ensures r.view.punctuality.promptShown == v.punctuality.promptShown
  {
    if v.selectedBerth == "" then Press(v, None)
    else
      Press(v.(nfcPrompt := false, punctuality := v.punctuality.(hasVibrated := false)),
            Some(StatusRequest(bus.id, InPort, Some(v.selectedBerth))))
  }

  /** `handleTapOut`: EN_ROUTE with no berth, and the punctuality prompt closed. */
  function TapOut(v: CaptainView, bus: Bus): (r: Press)
    ensures r.request == Some(StatusRequest(bus.id, EnRoute, None))
    ensures !r.view.punctuality.promptShown
    ensures r.view.punctuality.hasVibrated == v.punctuality.hasVibrated
    ensures r.view.selectedBerth == v.selectedBerth && r.view.nfcPrompt == v.nfcPrompt
  {
    Press(v.(punctuality := v.punctuality.(promptShown := false)), Some(StatusRequest(bus.id, EnRoute, None)))
  }

  /** Selecting a free berth and tapping in parks the bus there and keeps a
      consistent registry consistent. */
  lemma TapInAtFreeBerth(d: Depot, j: int, k: int, v: CaptainView, now: int)
    requires WellFormed(d) && Consistent(d)
    requires 0 <= j < |d.buses| && 0 <= k < |d.berths| && !d.berths[k].isOccupied
    ensures var press := TapIn(SelectBerth(v, d.berths[k]), d.buses[j]);
      && press.request.Some?
      && var r := ApplyRequest(d, press.request.value, now);
      && Consistent(r)
      && r.berths[k] == Claimed(d.berths[k], d.buses[j].id)
      && r.buses[j].status == InPort && r.buses[j].berthId == Some(d.berths[k].id)
  {
    var bus := d.buses[j];
    var berth := d.berths[k];
    var target := Some(berth.id);
    assert Held(target);
    assert ClaimAllowed(d, bus.id, target);
    ApplyPreservesConsistency(d, bus.id, InPort, target, now);
    ApplyBerthOutcome(d, j, InPort, target, now, k);
    ApplyBuses(d, bus.id, InPort, target, now, j);
  }

  /** Tapping out leaves a consistent registry consistent with no berth
      naming the bus any more. */
  lemma TapOutFreesBerth(d: Depot, j: int, v: CaptainView, now: int)
    requires WellFormed(d) && Consistent(d) && 0 <= j < |d.buses|
    ensures var r := ApplyRequest(d, TapOut(v, d.buses[j]).request.value, now);
      && Consistent(r)
      && r.buses[j].berthId.None?
      && forall k :: 0 <= k < |r.berths| ==> r.berths[k].busId != Some(d.buses[j].id)
  {
    var bus := d.buses[j];
    var r := Apply(d, bus.id, EnRoute, None, now);
    ApplyPreservesConsistency(d, bus.id, EnRoute, None, now);
    ApplyBuses(d, bus.id, EnRoute, None, now, j);
    forall k | 0 <= k < |r.berths| ensures r.berths[k].busId != Some(bus.id) {
      ApplyBerthOutcome(d, j, EnRoute, None, now, k);
      if d.berths[k].busId == Some(bus.id) {
        var i :| 0 <= i < |d.buses| && d.buses[i].id == bus.id && d.buses[i].berthId == Some(d.berths[k].id);
        assert i == j;
      }
    }
  }

  // ---------------------------------------------------------------------------
  // Voice trigger and the captain's bus

  /** The effect on the trigger counter: open the tap-in prompt when the
      counter is positive and the bus is en route. */
  function ExternalTrigger(v: CaptainView, counter: int, bus: Bus): (r: CaptainView)
    ensures r.nfcPrompt <==> v.nfcPrompt || (counter > 0 && bus.status == EnRoute)
    ensures r.selectedBerth == v.selectedBerth && r.punctuality == v.punctuality
  {
    if counter > 0 && bus.status == EnRoute then v.(nfcPrompt := true) else v
  }

  /** A voice request from a fresh session opens the tap-in prompt for an
      en-route bus. */
  lemma VoiceOpensTapIn(presses: nat, v: CaptainView, bus: Bus)
    requires bus.status == EnRoute
    ensures var app := OnVoiceInitiateTapIn(AppView(BusCaptain, presses));
      app.role == BusCaptain && ExternalTrigger(v, app.tapInTrigger, bus).nfcPrompt
  {
  }

  /** As written, the effect also runs when the status changes, and the
      counter is never reset: once a voice request has been made, every
      later tap-out reopens the tap-in prompt, whatever the screen showed. */
  lemma TapOutReopensAfterVoice(d: Depot, j: int, v: CaptainView, app: AppView, now: int)
    requires 0 <= j < |d.buses| && app.tapInTrigger >= 0
    ensures var trigger := OnVoiceInitiateTapIn(app).tapInTrigger;
      var press := TapOut(v, d.buses[j]);
      var r := ApplyRequest(d, press.request.value, now);
      && r.buses[j].status == EnRoute
      && ExternalTrigger(press.view, trigger, r.buses[j]).nfcPrompt
  {
    ApplyBuses(d, d.buses[j].id, EnRoute, None, now, j);
  }

  /** The effect as its comment describes it, "when the trigger changes": it
      remembers the last counter it acted on, opens the prompt only for a
      new one, and returns the counter it has now seen. */
  function CorrectedExternalTrigger(v: CaptainView, seen: int, counter: int, bus: Bus): (r: (CaptainView, int))
    ensures r.1 == counter
    ensures r.0.nfcPrompt <==> v.nfcPrompt || (counter != seen && counter > 0 && bus.status == EnRoute)
    ensures r.0.selectedBerth == v.selectedBerth && r.0.punctuality == v.punctuality
  {
    if counter != seen && counter > 0 && bus.status == EnRoute then (v.(nfcPrompt := true), counter) else (v, counter)
  }

  /** With the corrected effect a voice request still opens the prompt for an
      en-route bus, and a later tap-out, the request already seen, leaves
      the prompt as the tap-out left it. */
  lemma CorrectedVoiceOpensOnce(d: Depot, j: int, v: CaptainView, w: CaptainView, app: AppView, now: int)
    requires 0 <= j < |d.buses| && app.tapInTrigger >= 0 && d.buses[j].status == EnRoute
    ensures var trigger := OnVoiceInitiateTapIn(app).tapInTrigger;
      var first := CorrectedExternalTrigger(v, app.tapInTrigger, trigger, d.buses[j]);
      var press := TapOut(w, d.buses[j]);
      var r := ApplyRequest(d, press.request.value, now);
      && first.0.nfcPrompt
      && first.1 == trigger
      && CorrectedExternalTrigger(press.view, first.1, trigger, r.buses[j]).0 == press.view
  {
  }

  /** The bus the captain screen shows: the one driven by captain BC01, or
      else the first bus. */
  function CaptainBus(buses: seq<Bus>): (r: Option<Bus>)
    ensures r.Some? <==> |buses| > 0
    ensures r.Some? ==> r.value in buses
    ensures (exists i :: 0 <= i < |buses| && buses[i].captainId == "BC01") ==>
      exists i :: 0 <= i < |buses| && Some(buses[i]) == r && buses[i].captainId == "BC01" && forall j :: 0 <= j < i ==> buses[j].captainId != "BC01"
    ensures |buses| > 0 && (forall i :: 0 <= i < |buses| ==> buses[i].captainId != "BC01") ==> r == Some(buses[0])
  {
    match Find(buses, (b: Bus) => b.captainId == "BC01")
    case Some(b) =>
      assert exists i :: FirstHit(buses, (b: Bus) => b.captainId == "BC01", i) && buses[i] == b;
      Some(b)
    case None => if |buses| > 0 then Some(buses[0]) else None
  }

  /** A reference reading of the choice: the head of the buses driven by
      BC01, and failing that the head of the fleet. */
  lemma CaptainBusIsHead(buses: seq<Bus>)
    ensures var driven := Filter(buses, (b: Bus) => b.captainId == "BC01");
      CaptainBus(buses) == if |driven| > 0 then Some(driven[0]) else if |buses| > 0 then Some(buses[0]) else None
  {
    FindIsFilterHead(buses, (b: Bus) => b.captainId == "BC01");
  }

  /** On the seed the captain screen shows BUS001, which has no departure. */
  lemma SeedCaptainBus(loadTime: int)
    ensures var b := CaptainBus(InitialBuses(loadTime));
      b.Some? && b.value.id == "BUS001" && b.value.scheduledDeparture.None?
  {
    FindUnique(InitialBuses(loadTime), (b: Bus) => b.captainId == "BC01", 0);
  }
}
