/** The records of the depot console: buses, berths, shift notes and the
    analytics summary, with every optional TypeScript field as an `Option`.
    Timestamps are integer milliseconds since the epoch. */
module Fleet {
  import opened Wrappers

  /** The five states a bus can be in. */
  datatype BusStatus = EnRoute | InPort | Layover | Ready | UnderMaintenance

  datatype BusType = SingleDeck | DoubleDeck | Articulated | Electric

  datatype Bus = Bus(
    id: string,
    serviceNo: string,
    plateNo: string,
    status: BusStatus,
    captainId: string,
    berthId: Option<string>,
    scheduledDeparture: Option<int>,
    checkInTime: Option<int>,
    lastTapTime: Option<int>,
    level: Option<string>,
    zone: Option<string>,
    batteryLevel: Option<int>,
    isCharging: Option<bool>,
    lastChargeTime: Option<int>,
    busType: Option<BusType>,
    assignedTechnician: Option<string>)

  /** The use a berth is laid out for. */
  datatype BerthType = Boarding | Alighting | LayoverBay

  datatype ChargerStatus = Available | ChargerInUse | ChargerMaintenance

  datatype Berth = Berth(
    id: string,
    displayLabel: string,
    isOccupied: bool,
    busId: Option<string>,
    berthType: BerthType,
    hasCharger: Option<bool>,
    chargerStatus: Option<ChargerStatus>)

  /** The two registries the console keeps in memory. */
  datatype Depot = Depot(buses: seq<Bus>, berths: seq<Berth>)

  datatype UserRole = BusCaptain | OperationsManager | Technician

  datatype NotePriority = Low | Medium | High | Critical

  datatype NoteRole = CaptainRole | TechnicianRole | ManagerRole

  datatype ShiftNote = ShiftNote(
    id: string,
    busId: Option<string>,
    berthId: Option<string>,
    author: string,
    role: NoteRole,
    message: string,
    priority: NotePriority,
    timestamp: int,
    resolved: Option<bool>)

  datatype AnalyticsData = AnalyticsData(
    totalSearches: int,
    avgSearchTimeSeconds: int,
    timeSavedHours: int,
    costSavingsMonthly: int,
    dispatchesPerDay: int,
    maintenanceResolved: int)

  /** A string-valued optional field that JavaScript treats as set: present
      and not the empty string. */
  predicate Held(s: Option<string>) {
    s.Some? && s.value != ""
  }

  /** The status tags, each exactly once. */
  const AllStatuses: seq<BusStatus> := [EnRoute, InPort, Layover, Ready, UnderMaintenance]

  /** There are exactly five status tags and the list above names each of them once. */
  lemma StatusesEnumerated(s: BusStatus)
    ensures s in AllStatuses
    ensures |AllStatuses| == 5
    ensures forall i, j :: 0 <= i < j < |AllStatuses| ==> AllStatuses[i] != AllStatuses[j]
  {
  }

  /** The status as the source spells it. */
  function StatusTag(s: BusStatus): string {
    match s
    case EnRoute => "EN_ROUTE"
    case InPort => "IN_PORT"
    case Layover => "LAYOVER"
    case Ready => "READY"
    case UnderMaintenance => "UNDER_MAINTENANCE"
  }

  /** Distinct statuses have distinct spellings. */
  lemma StatusTagInjective(a: BusStatus, b: BusStatus)
    ensures StatusTag(a) == StatusTag(b) <==> a == b
  {
  }

  function BusTypeName(t: BusType): string {
    match t
    case SingleDeck => "Single-Deck"
    case DoubleDeck => "Double-Deck"
    case Articulated => "Articulated"
    case Electric => "Electric"
  }

  /** `batteryLevel` is documented as a percentage. */
  predicate BatteryInRange(b: Bus) {
    b.batteryLevel.None? || 0 <= b.batteryLevel.value <= 100
  }

  /** A bare bus record: only the fields the source always sets. */
  function NewBus(id: string, serviceNo: string, plateNo: string, status: BusStatus, captainId: string): (b: Bus)
    ensures b.id == id && b.serviceNo == serviceNo && b.plateNo == plateNo
    ensures b.status == status && b.captainId == captainId
    ensures b.berthId.None? && b.scheduledDeparture.None? && b.checkInTime.None? && b.lastTapTime.None?
    ensures b.level.None? && b.zone.None? && b.batteryLevel.None? && b.isCharging.None?
    ensures b.lastChargeTime.None? && b.busType.None? && b.assignedTechnician.None?
    ensures BatteryInRange(b)
  {
    Bus(id, serviceNo, plateNo, status, captainId, None, None, None, None, None, None, None, None, None, None, None)
  }
}
