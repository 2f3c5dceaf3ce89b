# Berth-bus depot console — a Dafny model

This project models the logic behind a bus-depot console ("Passenger Berth
Management System"). The console keeps two registries in memory: the buses
and the berths they park at. Three roles work on them:

- a bus captain taps in at a berth and taps out again;
- an operations manager watches occupancy, stale buses and departures;
- a technician searches for a bus, changes its status and locates its berth.

One transition, `handleStatusUpdate`, is the only thing that writes the
registries. Everything else reads them: dashboard counts, the breakdown
alert, the berth locator, the fleet inventory with its CSV export, the
shift-handover notes, the voice-assistant transcript and the analytics
figures.

Every operation is a pure function over immutable records. Time is an
integer number of milliseconds and is passed in as a parameter, and
optional fields are `Option`s. JavaScript's truthiness of strings (`""` is
false), `parseInt`, `Math.floor`/`Math.ceil`, the truncating `%`,
`Array.filter`/`find`, the stable `Array.sort` and `slice(-10)` are written
out explicitly.

Modules, one per file:

| module | file | models |
|---|---|---|
| `Wrappers` | wrappers.dfy | `Option` and `Result` |
| `Lists` | lists.dfy | `filter` and `find` |
| `Text` | text.dfy | integer rendering, `parseInt`, `toLowerCase`, `includes`, `trim`, `replace`, `padStart`, `join` |
| `Fleet` | types.dfy | the records of types.ts |
| `Registry` | app.dfy | the status transition, registry consistency, the voice tap-in hook |
| `Seed` | constants.dfy | the seeded berths and buses |
| `Technician` | technician.dfy | search, selection, status change, berth locator |
| `Operations` | operations.dfy | dashboard counts, breakdown alert, berth cards, near departure |
| `Captain` | captain.dfy | tap in/out, countdown, punctuality prompt, clock format |
| `Inventory` | inventory.dfy | status filter, floor/bay, CSV export |
| `Handover` | handover.dfy | note filter and sort, adding a note, relative time |
| `Voice` | voice.dfy | transcript buffer, session toggle and callbacks |
| `Analytics` | analytics.dfy | the integer arithmetic of the analytics screen |

The transition never checks whether the target berth is already occupied.
Berths and buses therefore stay consistent only when the target is free or
is already the bus's own. `Registry.ApplyPreservesConsistency` proves
consistency under that condition, and `Registry.DoubleBookingBreaksConsistency`
shows it failing without it. `Registry.CheckedApply` is the transition with
that check added.

## Model

| member | source | states |
|---|---|---|
| Registry.Apply | App.tsx:19-47 | A transition creates and deletes nothing: both registries keep their length, and every bus keeps its id and plate. Every berth keeps its id, label, type and charger fields. |
| Registry.ApplyBuses | App.tsx:20-45 | A bus whose id differs from `busId` is returned unchanged. The matching bus is the object spread with the new status and berth, exactly as passed, so passing no berth clears it. Its check-in becomes `now` and its departure `now` plus 15 minutes for IN_PORT only. Every other field, `busType` and the battery among them, is kept. |
| Registry.ApplyUnknownBus | App.tsx:20-45 | An id that no bus has changes neither registry. |
| Registry.EffectsPointwise | App.tsx:19-35 | The queued berth updates, replayed in order over the bus list, leave each berth claimed if it is the target, released if a moving bus left it, and untouched otherwise. |
| Registry.ApplyBerthOutcome | App.tsx:23-35 | For a known bus: the target berth is claimed for it with no look at a prior occupant; its old berth is released exactly when it held one that differs from the target; every other berth is untouched. |
| Registry.ClaimExcludesRelease | App.tsx:23-35 | A berth being claimed is never also released in the same transition. |
| Registry.InPortDeparture | App.tsx:41-42 | After IN_PORT the departure is the check-in time plus 15 minutes, both taken from the transition's one clock reading. |
| Registry.ApplyIdempotent | App.tsx:23-42 | Repeating the same request gives the state that one application at the later time gives; only the IN_PORT timestamps move. |
| Registry.ApplyWellFormed | App.tsx:19-47 | Distinct bus ids and distinct, non-empty berth ids survive a transition. |
| Registry.ConsistentExclusive | App.tsx:23-35 | In a consistent registry no two buses hold the same berth. |
| Registry.ApplyPreservesConsistency | App.tsx:23-42 | Two-way consistency holds after the transition when the target berth is free or already this bus's. Consistency means: occupied iff an occupant is named, the occupant names the berth back, and every bus holding a berth is named by it. |
| Registry.ClaimingHeldBerthBreaks | App.tsx:31-35 | Sending a second bus to a berth another bus holds always leaves the registries inconsistent. |
| Registry.DoubleBookingBreaksConsistency | App.tsx:31-35 | A concrete run: bus A parks at B1 consistently, then bus C is sent to B1 and consistency is lost. |
| Registry.CheckedApply | App.tsx:19-47 | The corrected transition accepts a request iff the bus is known and either no target (or an empty one) is given, or the target is a registered berth that is free or already the bus's own. It reports an unknown bus iff the bus is unknown. It reports an unknown berth iff the bus is known and a target is given that no berth carries. It reports an occupied berth iff the bus is known and the registered target is held by another bus. An accepted request gives the unchecked transition's result, which is then well formed and consistent. |
| Registry.RunChecked | App.tsx:19-47 | Any sequence of checked requests keeps a well-formed, consistent registry consistent. |
| Registry.ReclaimKeepsBerths | App.tsx:23-35 | A change that passes the bus's own berth moves no berth and keeps consistency. |
| Registry.OnVoiceInitiateTapIn | App.tsx:49-52 | The voice trigger selects the captain role and strictly increases the tap-in counter. |
| Fleet.StatusesEnumerated | types.ts:2 | There are exactly five bus statuses, each listed once. |
| Fleet.StatusTagInjective | types.ts:2 | Distinct statuses have distinct tags. |
| Fleet.NewBus | types.ts:4-21 | A bare bus carries the given id, service number, plate, status and captain, and all eleven optional fields are absent. |
| Seed.SeedBerths | constants.ts:4-9 | Twelve berths, ids B1..B12 and labels "Berth 1".."Berth 12", all free. Types: 0-3 alighting, 4-7 boarding, 8-11 layover. |
| Seed.SeedBuses | constants.ts:11-15 | Three buses, BUS001..BUS003; only BUS003 has a departure. |
| Seed.SeedWellFormed | constants.ts:4-15 | The seed has distinct ids and no empty berth id. |
| Seed.SeedNotConsistent | constants.ts:7-14 | The seeded registries are not consistent: the seeded buses name berths that are seeded as free. |
| Seed.CorrectedSeedConsistent | constants.ts:4-15 | With B5 and B9 occupied by BUS003 and BUS002, the seed is well formed and consistent. |
| Technician.SearchBuses | components/TechnicianInterface.tsx:23-27 | The result is exactly the buses whose plate or id contains the query case-insensitively, or whose service number contains it as typed. |
| Technician.SearchEmptyQuery | components/TechnicianInterface.tsx:23-27 | The empty query lists every bus, in order. |
| Technician.SearchNarrows | components/TechnicianInterface.tsx:23-27 | Extending the query filters the previous result further. |
| Technician.SelectShowsEveryBus | components/TechnicianInterface.tsx:29-32 | Selecting a bus shows it and clears the search, so the list is complete again. |
| Technician.RefreshSelected | components/TechnicianInterface.tsx:73-80 | The selection is replaced by the registry's record with the same id when there is one, and kept otherwise. |
| Technician.StatusMessagesDistinct | components/TechnicianInterface.tsx:37-43 | Each of the five statuses has its own confirmation message. |
| Technician.StatusChange | components/TechnicianInterface.tsx:34-55 | Nothing is sent without a selected bus. Otherwise the request carries that bus's id, the chosen status and its current berth, unchanged. |
| Technician.TechnicianChangeKeepsBerths | components/TechnicianInterface.tsx:55 | The forwarded change leaves the berth registry unchanged and the registries consistent, and the bus keeps its berth. |
| Technician.RefreshAfterChange | components/TechnicianInterface.tsx:73-80 | After a change the refresh picks up the bus's new record. |
| Technician.BerthNumberOf | components/TechnicianInterface.tsx:88 | `parseInt` of `B<n>` with the B removed reads back `n`. |
| Technician.LocatorTier | components/TechnicianInterface.tsx:88-101 | Tier 1 iff the number reads and is at most 4; tier 2 iff it reads and is 5 to 8; tier 3 iff it does not read (`NaN` fails both tests) or exceeds 8. |
| Technician.LocatorTierMonotone | components/TechnicianInterface.tsx:92-101 | A higher berth number never lands on a lower level. |
| Technician.GetBerthLocation | components/TechnicianInterface.tsx:82-104 | No location iff the id is absent, empty or unknown. A found location carries the berth's own id and label. Its level and zone are Level 1/Zone A for a number up to 4, Level 2/Zone B for 5 to 8, and Level 3/Zone C for a larger or unreadable number. |
| Technician.LocatedByNumber | components/TechnicianInterface.tsx:82-104 | A registered berth `B<n>` is found, and it is on Level 1 (Zone A) iff n <= 4, on Level 2 (Zone B) iff 4 < n <= 8, and on Level 3 (Zone C) iff n > 8. |
| Technician.UnnumberedLocation | components/TechnicianInterface.tsx:88-101 | In any registry, a berth it carries whose id is non-empty and has no readable number is located, under its own id, on Level 3, Zone C. |
| Technician.SeededLocation | components/TechnicianInterface.tsx:82-104 | On the seeded berths zone A is exactly the alighting row, zone B boarding and zone C layover. |
| Operations.StaleBuses | components/OperationsDashboard.tsx:68-76 | For any threshold in milliseconds, fractional hours included: exactly the en-route buses with a last tap strictly older than the threshold; so never one that is not en route or never tapped. |
| Operations.StaleThresholdMonotone | components/OperationsDashboard.tsx:68-76 | A larger threshold gives a sub-list of the smaller one's stale buses. |
| Operations.HoursInactive | components/OperationsDashboard.tsx:104-106 | The whole hours since the last tap, rounded down; 0 without a tap. |
| Operations.StaleShowsThreshold | components/OperationsDashboard.tsx:68-106 | A stale bus shows at least the threshold's whole hours, and at least the threshold itself when it is a whole number of hours. |
| Operations.FractionalThresholdShowsFewerHours | components/OperationsDashboard.tsx:104-129 | A threshold of 1.5 hours flags a bus idle for 1.6 hours, whose chip then shows 1 hour, less than the threshold. |
| Operations.OccupiedCountNamesOccupants | components/OperationsDashboard.tsx:56 | In a consistent registry the occupied count is the number of berths naming an occupant. |
| Operations.TapInCountsInPort | components/OperationsDashboard.tsx:57 | A tap-in raises the in-port count by one unless the bus was in port already. |
| Operations.ChargerCountsUnchanged | components/OperationsDashboard.tsx:205 | No transition changes the charger or chargers-in-use counts. |
| Operations.EmptyBatteryNotCounted | components/OperationsDashboard.tsx:206 | As written, a bus at 0% is not counted as low on battery. |
| Operations.CorrectedLowBatteryMeaning | components/OperationsDashboard.tsx:206 | The corrected test flags exactly the levels under 30, and agrees with the written one on every level but 0. |
| Operations.BerthOccupant | components/OperationsDashboard.tsx:244 | The card's bus is the first bus in the list whose own record names that berth; there is none iff no bus names it. |
| Operations.CardShowsFirstNaming | components/OperationsDashboard.tsx:244 | The card's bus is the head of the buses naming the berth, and none when that list is empty. |
| Operations.OccupantAgreesWhenConsistent | components/OperationsDashboard.tsx:244 | In a consistent registry the card's bus is the berth's named occupant. |
| Operations.SeedCardShowsUnoccupiedBerth | components/OperationsDashboard.tsx:244 | On the seed, B9's card shows BUS002 although B9 is marked free. |
| Operations.OverdueIsNear | components/OperationsDashboard.tsx:416-417 | A bus whose departure is due or past counts as near departure. |
| Operations.NearDepartureAfterTapIn | components/OperationsDashboard.tsx:416-417 | After a tap-in at `now`, the bus counts as near departure exactly once more than ten minutes have passed. |
| Captain.Countdown | components/BusCaptainInterface.tsx:31-32 | Whole seconds to departure, rounded down and never negative; 0 under one second. |
| Captain.CountdownAgreesWithNearDeparture | components/BusCaptainInterface.tsx:31-36 | The countdown is under 300 iff the departure is under 300000 ms away. |
| Captain.CountdownAfterTapIn | components/BusCaptainInterface.tsx:31-32 | Right after a tap-in the countdown reads 900. |
| Captain.FormatClockReadsBack | components/BusCaptainInterface.tsx:80-84 | The clock is digits, a colon and two digits under 60, and minutes*60 + seconds gives the input back. |
| Captain.Tick | components/BusCaptainInterface.tsx:36-47 | The prompt fires iff 290 < seconds <= 300 and it has not fired. The fired flag is set then and cleared above 300. |
| Captain.NoDeparture | components/BusCaptainInterface.tsx:50-52 | Without a departure the fired flag is cleared. |
| Captain.OneShotPrompt | components/BusCaptainInterface.tsx:36-42 | Through readings that never exceed 300 the prompt fires once if some reading is in the window, otherwise never. |
| Captain.ExtensionRearms | components/BusCaptainInterface.tsx:44-47 | A reading above 300 re-arms the prompt for the next window. |
| Captain.SelectBerth | components/BusCaptainInterface.tsx:184-185 | Pressing a free berth selects it and changes nothing else; an occupied berth is disabled, so pressing it changes nothing. |
| Captain.TapIn | components/BusCaptainInterface.tsx:56-73 | Nothing happens without a selected berth. Otherwise IN_PORT is requested at that berth, and the tap-in prompt closes and the vibration flag re-arms. The selected berth and the punctuality prompt are left as they were. |
| Captain.TapOut | components/BusCaptainInterface.tsx:75-78 | EN_ROUTE is requested with no berth, and the punctuality prompt closes. The vibration flag, the selected berth and the tap-in prompt are left as they were; the trigger effect may then reopen the prompt (`Captain.TapOutReopensAfterVoice`). |
| Captain.TapInAtFreeBerth | components/BusCaptainInterface.tsx:56-58 | A tap-in at a free berth claims it for the bus and keeps the registries consistent. |
| Captain.TapOutFreesBerth | components/BusCaptainInterface.tsx:75-76 | After a tap-out the bus holds no berth, no berth names it, and the registries stay consistent. |
| Captain.ExternalTrigger | components/BusCaptainInterface.tsx:22-26 | The tap-in prompt opens iff the counter is positive and the bus is en route. |
| Captain.VoiceOpensTapIn | components/BusCaptainInterface.tsx:22-26 | The voice trigger opens the tap-in prompt for an en-route bus. |
| Captain.TapOutReopensAfterVoice | components/BusCaptainInterface.tsx:21-26 | After one voice request, any later tap-out leaves the bus en route, and the effect, re-run on the status change, reopens the tap-in prompt. |
| Captain.CorrectedExternalTrigger | components/BusCaptainInterface.tsx:21-26 | The corrected effect opens the prompt iff it was open or the counter is new, positive and the bus en route. It records the counter it has seen and leaves every other field alone. |
| Captain.CorrectedVoiceOpensOnce | components/BusCaptainInterface.tsx:21-26 | With the corrected effect a voice request opens the prompt once, and a later tap-out does not reopen it. |
| Captain.CaptainBus | App.tsx:106 | The captain screen shows the first bus captained by BC01 if there is one, else the first bus of the list; none only for an empty fleet. |
| Captain.CaptainBusIsHead | App.tsx:106 | The captain's bus is the head of the BC01 buses, else the head of the fleet, else none. |
| Captain.SeedCaptainBus | App.tsx:106 | On the seed the captain drives BUS001, which has no departure. |
| Inventory.FilterByStatus | components/FleetInventory.tsx:20-23 | 'all' keeps every bus; a status keeps exactly the buses with that status. |
| Inventory.AnyStatusKeepsAll | components/FleetInventory.tsx:20-23 | 'all' returns the fleet unchanged. |
| Inventory.StatusFiltersPartition | components/FleetInventory.tsx:20-23 | The five single-status views together count every bus exactly once. |
| Inventory.StatusDisplayMerges | components/FleetInventory.tsx:25-33 | IN_PORT and EN_ROUTE both read "In Service" and LAYOVER reads "Parked"; all other statuses read differently. |
| Inventory.ActivityTime | components/FleetInventory.tsx:35-39 | An absent timestamp reads "N/A" and a present one reads as the clock shows it, so "N/A" means absent unless the clock itself prints it. |
| Inventory.StatusCellSpaced | components/FleetInventory.tsx:48 | The CSV status cell spells each status with a space for the underscore. |
| Inventory.FloorAndBay | components/FleetInventory.tsx:119-126 | Floor and bay are both N/A iff the berth number is missing, unreadable or 0. Otherwise the floor is 1 for numbers up to 4, 2 for 5 to 8 and 3 above, each iff, and the bay is `B` followed by the number. |
| Inventory.BayIsBerthId | components/FleetInventory.tsx:119-126 | A berth `B<n>` with n >= 1 gets a floor and the bay `B<n>`. |
| Inventory.FloorMatchesLocator | components/FleetInventory.tsx:119-126 | Where both screens place a bus, the floor is the locator's level number. |
| Inventory.UnnumberedBerthDisagrees | components/FleetInventory.tsx:119-126 | For an unreadable berth number the locator says Level 3 while the table says N/A. |
| Inventory.CsvRow | components/FleetInventory.tsx:44-53 | A row has one cell per header column: plate, service, the type or "N/A", the status with a space, "En Route" or the level, zone and berth, the battery with "%" ("0%" when missing or 0), the technician or "Unassigned", and the last activity. |
| Inventory.BatteryCellReadsBack | components/FleetInventory.tsx:50 | The battery cell without its "%" reads back as the level, and a missing level as 0. |
| Inventory.LocationCellCommas | components/FleetInventory.tsx:49 | A parked bus's location cell holds two commas of its own. |
| Inventory.CsvLineCount | components/FleetInventory.tsx:42-54 | With plain inputs the export has exactly one line per filtered bus below the header. |
| Inventory.AsWrittenRowFields | components/FleetInventory.tsx:42-54 | The header line has 7 commas. A row has 9 when the bus holds a berth and 7 when it does not. |
| Inventory.CorrectedRowFields | components/FleetInventory.tsx:42-54 | With the location cell quoted, every row reads as 8 fields, as the header does. |
| Handover.FilteredNotes | components/ShiftHandover.tsx:37-41 | Exactly the shown notes, newest first. Shown means: not resolved when hiding resolved, and of the chosen priority. |
| Handover.SortIsStable | components/ShiftHandover.tsx:41 | Notes with equal timestamps keep their original order. |
| Handover.FilteredNotesStable | components/ShiftHandover.tsx:37-41 | The board lists the notes of any one time in arrival order. |
| Handover.NoFilterListsAll | components/ShiftHandover.tsx:37-41 | With both filters off every note is listed as often as it occurs. |
| Handover.UnresolvedMatchesHiddenList | components/ShiftHandover.tsx:139 | The unresolved count equals the length of the list with resolved notes hidden. |
| Handover.ResolvedSplit | components/ShiftHandover.tsx:139 | Unresolved and resolved notes add up to all notes. |
| Handover.OrUndefined | components/ShiftHandover.tsx:66-67 | An empty field becomes absent, any other is kept. |
| Handover.AddNote | components/ShiftHandover.tsx:62-80 | A note is sent iff the message has a non-space character. A sent note copies the form, maps empty bus and berth to absent and is unresolved; the form resets and the dialog closes. Otherwise nothing changes. |
| Handover.AddResetsForNextNote | components/ShiftHandover.tsx:70-78 | After a successful add, adding again sends nothing. |
| Handover.NoteAge | components/ShiftHandover.tsx:82-92 | Minutes under an hour, whole hours under a day, the date otherwise, each rounded down. |
| Handover.FormatAge | components/ShiftHandover.tsx:89-91 | Minutes end in "m ago" and hours in "h ago", each with the number in front; a date age shows the locale date. |
| Handover.AgeReadsBack | components/ShiftHandover.tsx:86-90 | The number in front of "m ago" or "h ago" reads back as the minutes or hours. |
| Handover.RecentNoteReadsMinutes | components/ShiftHandover.tsx:86-89 | A note under an hour old reads "Nm ago", and N reads back as the elapsed whole minutes. |
| Text.TrimEmptyIff | components/ShiftHandover.tsx:63 | Trimming leaves nothing iff the message is all white space. |
| Text.ParseIntRoundTrip | components/TechnicianInterface.tsx:88 | `parseInt` reads back every integer a template literal writes. |
| Voice.Append | components/VoiceAssistant.tsx:33 | The new message is last, before it come the last (at most ten) earlier messages in order, and the length is at most eleven. |
| Voice.TranscriptIsLastEleven | components/VoiceAssistant.tsx:33 | Message by message, the transcript is always the last eleven messages heard, in order. |
| Voice.OnEvent | components/VoiceAssistant.tsx:32-39 | A message is appended, a tap-in request is forwarded, and a close or error marks the panel inactive. |
| Voice.ReplayActive | components/VoiceAssistant.tsx:38-39 | After a run of callbacks the panel is active iff it was before and no close or error came. |
| Voice.ReplayBounded | components/VoiceAssistant.tsx:33 | However many messages arrive, the transcript never holds more than eleven. |
| Voice.ToggleSession | components/VoiceAssistant.tsx:23-43 | Stopping clears the transcript, marks the panel inactive and changes nothing else. Starting unfolds the panel and then marks it active. The forwarded count rises by the tap-in requests heard while starting, and the transcript is kept unless a message arrives. If the start reports only closes or errors (a refused microphone), or nothing at all, nothing else changes. |
| Voice.ReplayCountsRequests | components/VoiceAssistant.tsx:35-37 | Every tap-in request the session reports is forwarded once. |
| Voice.ReplayKeepsMessages | components/VoiceAssistant.tsx:32-39 | Callbacks without a heard message leave the transcript as it was. |
| Voice.RefusedMicrophoneShowsActive | components/VoiceAssistant.tsx:31-41 | A start during which the session reports an error still leaves the panel active. |
| Voice.CorrectedActiveMeansLive | components/VoiceAssistant.tsx:23-43 | With the panel marked active before starting, it is active afterwards iff no close or error was reported. |
| Voice.RestartClearsTranscript | components/VoiceAssistant.tsx:24-41 | Stopping and starting again gives a live, unfolded panel with an empty transcript. |
| Analytics.TimeSavedPerSearch | components/AnalyticsDashboard.tsx:12-14 | The saved time and the current average add up to fifteen minutes; the saving is positive iff the average is under 900 seconds. |
| Analytics.SplitReadsBack | components/AnalyticsDashboard.tsx:172 | For t >= 0 the "min"/"sec" figures give min*60 + sec = t with sec < 60. |
| Analytics.NegativeSplitOffByAMinute | components/AnalyticsDashboard.tsx:172 | For negative t that is not whole minutes the figures read back one minute short. |
| Analytics.SavedTimeShown | components/AnalyticsDashboard.tsx:172 | For an average between 0 and 900 seconds the shown minutes and seconds add back to 900 minus the average. |
| Analytics.DailySearches | components/AnalyticsDashboard.tsx:131 | The daily figure times 7 covers the week's searches, by less than 7 too many. |
| Analytics.DailySearchesLeast | components/AnalyticsDashboard.tsx:131 | The daily figure is the least per-day count that covers the week. |
| Analytics.AnnualDisplay | components/AnalyticsDashboard.tsx:207 | The projection shows a minus sign iff twelve months' savings are negative. |
| Analytics.AnnualDisplayNearest | components/AnalyticsDashboard.tsx:207 | The shown thousands are twelve months' savings to the nearest thousand, halves away from zero. |
| Analytics.RowColorFallback | components/AnalyticsDashboard.tsx:248-256 | Grey exactly for a key the table does not name; named keys get distinct colours. |

## Left out

- services/geminiLiveService.ts: the live session's audio, network and tool-call handling. The model sees only what the session reports through its callbacks, as a sequence of events. Its one behaviour the panel depends on is the microphone refusal: report an error, then return (services/geminiLiveService.ts:30-36).
- components/ErrorBoundary.tsx: rendering only.
- All JSX and class strings, animations, `navigator.vibrate`, and the `setTimeout`/`setInterval` plumbing. Each timer tick is a function call with the current reading.
- The Blob download of the export (components/FleetInventory.tsx:56-61), including its file name.
- React's queued `setBerths` inside the `setBuses` updater. The transition is one atomic step over both registries; the berth updates are replayed in bus-list order, as React would apply them.
- The App wiring and props that App does not pass. Only the captain's bus choice and the voice hook are modelled.
- Timestamps are integer milliseconds, not ISO strings; an unparseable date (`NaN`) is not modelled.
- `formatTimeSince` and `toLocaleTimeString`/`toLocaleDateString` are not part of this model. They are parameters (`since`, `clock`, `date`) whose output is taken as given. `formatTimeSince`, called at components/FleetInventory.tsx:52, is neither defined nor imported in that file, and no other file this model covers defines it, so as written the export would throw a ReferenceError at its first bus row. The CSV rows, and the unquoted-location finding, assume such a function exists.
- The percentage and `toFixed(1)` figures at components/AnalyticsDashboard.tsx:15 and 34: floating point.
- Analytics.AnnualDisplay: assumes `toFixed(0)` is exact. That holds while twelve months' savings stay below 2^53; beyond that, double rounding is not modelled.
- Analytics.RowColorFallback: `colors[color]` on a key inherited from `Object.prototype` (such as "constructor") is not modelled; every key outside the four colours falls back to grey.
- Text.ParseInt: reads decimal digits only. No `0x` prefix and no radix. The white space it skips is the ASCII set plus U+00A0, U+FEFF, U+2028 and U+2029, not every Unicode space.
- Text.Lower: folds ASCII letters only.
- Text.Trim: trims the same white-space set as `parseInt` skips.
- Charger activation, automatic berth assignment and `lastTapTime` stamping: no code implements them.
- The Minimize button of the voice panel (components/VoiceAssistant.tsx:54). It only sets the flag that `Voice.ToggleSession` clears.
- UI events that arrive while `start` is still pending: a second toggle during an unresolved start is not modelled.
- The resolve and delete note callbacks of ShiftHandover: the parent supplies them and their code is not shown.
- The priority-colour and role-colour lookups of ShiftHandover and the status-colour lookup of the technician screen: presentation only.
- Berth `label` is called `displayLabel` in the model.
- JavaScript numbers are unbounded integers in the model: no fractions, no loss of precision from 2^53 on, and no exponent notation.
- Text.ParseIntRoundTrip: holds for the integers the model has. In JavaScript `${n}` writes 1e21 and above as "1e+21", which `parseInt` reads as 1, and integers are exact only below 2^53.
- Inventory.BatteryCellReadsBack: battery levels are whole numbers. A fractional level such as 45.5 prints "45.5%", which `parseInt` reads back as 45.
- Analytics.SplitReadsBack: whole seconds only. The `Math.floor` at components/AnalyticsDashboard.tsx:172 acts on fractional seconds, which `avgSearchTimeSeconds` admits.
- Analytics.NegativeSplitOffByAMinute: whole seconds only. For a fractional t the shown figures are off by the fraction as well.
- Analytics.SavedTimeShown: whole-second averages only. An average of 12.5 shows 14 min 47 sec, which adds back to 887, not 887.5.
- Registry.InPortDeparture: one clock reading per transition. App.tsx:41 and :42 read the clock twice, so the departure is 15 minutes after the check-in plus whatever time passed between the two readings.
- The trigger effect also runs when the captain screen mounts (components/BusCaptainInterface.tsx:21-26): a return to the screen with a positive counter and an en-route bus reopens the prompt, just as `Captain.ExternalTrigger` states for any view.

## Findings

| source | as written | input that shows it | evidently intended | confidence | as-written member | corrected member |
|---|---|---|---|---|---|---|
| constants.ts:7-14 | Every seeded berth is free, yet BUS002 is seeded at B9 and BUS003 at B5 | the seed itself | B9 occupied by BUS002 and B5 by BUS003, so the registries agree | high, not executed | Seed.SeedNotConsistent | Seed.CorrectedSeedConsistent |
| App.tsx:31-35 | The target berth is claimed without looking at its occupant, so the earlier bus still names a berth that no longer names it | bus A parks at B1, then bus C is sent to B1 | refuse an occupied target, as the captain screen does by disabling occupied berths | high, not executed | Registry.DoubleBookingBreaksConsistency | Registry.CheckedApply |
| components/FleetInventory.tsx:49-54 | The location cell `level, zone, berthId` is joined with commas unquoted | any bus holding a berth: its row reads as 10 fields under an 8-field header | quote the cell, so that every row has eight fields (section 2 of RFC 4180) | high, not executed | Inventory.AsWrittenRowFields | Inventory.CorrectedRowFields |
| components/OperationsDashboard.tsx:206 | `(b.batteryLevel \|\| 100) < 30` treats 0 as missing | a bus at 0% battery is not counted as low | count every level under 30, including 0 | medium, not executed | Operations.EmptyBatteryNotCounted | Operations.CorrectedLowBatteryMeaning |
| components/BusCaptainInterface.tsx:21-26 | The effect depends on the bus status as well as the counter, and App never resets the counter (App.tsx:49-52), so it fires on every status change, not only when the counter changes | one voice request, then a tap-in and a tap-out: the tap-out reopens the tap-in prompt | open the prompt only when the counter changes, as the effect's comment says | medium, not executed | Captain.TapOutReopensAfterVoice | Captain.CorrectedExternalTrigger |
| components/VoiceAssistant.tsx:31-41 | `setIsActive(true)` runs after `start` returns, even when `start` reported an error and gave up (services/geminiLiveService.ts:30-36) | the microphone is refused: the error callback marks the panel inactive, then the toggle marks it active | show the panel live only if no close or error was reported | high, not executed | Voice.RefusedMicrophoneShowsActive | Voice.CorrectedActiveMeansLive |
