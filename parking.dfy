/** The check-in/check-out engine: which slot classes a vehicle may use, how a slot is chosen, how
    a stay is opened and closed, and the occupancy invariant both keep. Each operation runs as one
    transaction: on an error the store is left exactly as it was. */
module Parking {
  import opened Wrappers
  import opened Errors
  import opened Vehicles
  import opened Entities
  import opened Repositories
  import opened Pricing
  import opened Store

  // ----- Compatibility -----

  /** How large a vehicle is, smallest first. */
  function VehicleSize(vehicleType: VehicleType): nat {
    match vehicleType
    case MOTORCYCLE => 0
    case CAR => 1
    case TRUCK => 2
  }

  /** How large a regular (non-accessible) slot class is, smallest first. */
  function RegularSlotSize(slotType: SlotType): nat
    requires slotType != SlotType.HANDICAPPED
  {
    match slotType
    case MOTORCYCLE => 0
    case COMPACT => 1
    case LARGE => 2
  }

  /** COMPATIBILITY_MAP: the slot classes a vehicle may take, in the order they are tried. The list
      holds exactly the regular classes at least as large as the vehicle, smallest first, so an
      accessible slot is never handed out and a vehicle is never put in a slot too small for it. */
  function AllowedSlotTypes(vehicleType: VehicleType): (types: seq<SlotType>)
    ensures SlotType.HANDICAPPED !in types
    ensures forall s :: s in types <==> s != SlotType.HANDICAPPED && VehicleSize(vehicleType) <= RegularSlotSize(s)
    ensures forall i :: 0 <= i < |types| - 1 ==> RegularSlotSize(types[i]) < RegularSlotSize(types[i + 1])
  {
    match vehicleType
    case MOTORCYCLE => [SlotType.MOTORCYCLE, SlotType.COMPACT, SlotType.LARGE]
    case CAR => [SlotType.COMPACT, SlotType.LARGE]
    case TRUCK => [SlotType.LARGE]
  }

  /** The search order of the three-argument check-in the controller and the integration tests
      call: a driver flagged as handicapped is offered an accessible slot first and otherwise falls
      back to the regular compatibility list. */
  function AccessibleSearchOrder(vehicleType: VehicleType, handicapped: bool): (order: seq<SlotType>)
    ensures SlotType.HANDICAPPED in order <==> handicapped
    ensures handicapped ==> order[0] == SlotType.HANDICAPPED
    ensures |order| == |AllowedSlotTypes(vehicleType)| + (if handicapped then 1 else 0)
    ensures order[|order| - |AllowedSlotTypes(vehicleType)|..] == AllowedSlotTypes(vehicleType)
  {
    if handicapped then [SlotType.HANDICAPPED] + AllowedSlotTypes(vehicleType) else AllowedSlotTypes(vehicleType)
  }

  // ----- Vehicle identity -----

  /** isInstanceValid: the stored vehicle is of the kind the request names. */
  predicate IsInstanceValid(vehicle: Vehicle, vehicleType: VehicleType) {
    vehicle.vehicleType == vehicleType
  }

  /** findById(plate).orElseGet(createVehicle): the stored row of the plate, or a new vehicle of the
      requested type. */
  function ResolveVehicle(vehicles: map<string, Vehicle>, licensePlate: string, vehicleType: VehicleType)
    : (vehicle: Vehicle)
    ensures licensePlate in vehicles ==> vehicle == vehicles[licensePlate]
    ensures licensePlate !in vehicles ==> vehicle == Vehicle(licensePlate, vehicleType)
  {
    if licensePlate in vehicles then vehicles[licensePlate] else CreateVehicle(licensePlate, vehicleType).value
  }

  /** An unseen plate is registered with the requested type, so it never fails the type check; a
      known plate fails it exactly when it was registered with another type. */
  lemma {:induction false} TypeCheckOnlyRejectsKnownPlates(vehicles: map<string, Vehicle>, licensePlate: string, vehicleType: VehicleType)
    ensures !IsInstanceValid(ResolveVehicle(vehicles, licensePlate, vehicleType), vehicleType)
        <==> licensePlate in vehicles && vehicles[licensePlate].vehicleType != vehicleType
  {
  }

  // ----- Slot search -----

  /** No class in the list has a free slot. */
  predicate NoSlotAmong(slots: map<SlotId, ParkingSlot>, levels: map<LevelId, Level>, order: seq<SlotType>) {
    forall k :: 0 <= k < |order| ==> !HasCandidate(slots, levels, order[k])
  }

  /** A slot the search may return: a first row of the query for some class in the list, every
      earlier class having no free slot at all. */
  ghost predicate IsPreferredSlot(slots: map<SlotId, ParkingSlot>, levels: map<LevelId, Level>, order: seq<SlotType>, id: SlotId) {
    exists k :: 0 <= k < |order| && IsFirstAvailable(slots, levels, order[k], id) && NoSlotAmong(slots, levels, order[..k])
  }

  /** The stream over the allowed classes: run the slot query for each class in turn and stop at
      the first class that yields a slot. */
  method FindSlot(slots: map<SlotId, ParkingSlot>, levels: map<LevelId, Level>, order: seq<SlotType>)
    returns (found: Option<SlotId>)
    ensures found.Some? ==> IsPreferredSlot(slots, levels, order, found.value)
    ensures found.None? <==> NoSlotAmong(slots, levels, order)
  {
    found := None;
    var k := 0;
    while k < |order| && found.None?
      invariant 0 <= k <= |order|
      invariant found.None? ==> NoSlotAmong(slots, levels, order[..k])
      invariant found.Some? ==> IsPreferredSlot(slots, levels, order, found.value)
    {
      found := FindFirstAvailable(slots, levels, order[k]);
      if found.Some? {
        assert IsFirstAvailable(slots, levels, order[k], found.value) && NoSlotAmong(slots, levels, order[..k]);
      } else {
        assert order[..k + 1] == order[..k] + [order[k]];
      }
      k := k + 1;
    }
    if found.None? {
      assert order[..k] == order;
    }
  }

  /** The search is determined up to ties: any two slots it may return are of the same class and
      on the same floor. */
  lemma PreferredSlotsTie(slots: map<SlotId, ParkingSlot>, levels: map<LevelId, Level>, order: seq<SlotType>, a: SlotId, b: SlotId)
    requires IsPreferredSlot(slots, levels, order, a) && IsPreferredSlot(slots, levels, order, b)
    ensures a in slots && b in slots && slots[a].slotType == slots[b].slotType
    ensures slots[a].levelId in levels && slots[b].levelId in levels && FloorOf(slots, levels, a) == FloorOf(slots, levels, b)
  {
    var ka :| 0 <= ka < |order| && IsFirstAvailable(slots, levels, order[ka], a) && NoSlotAmong(slots, levels, order[..ka]);
    var kb :| 0 <= kb < |order| && IsFirstAvailable(slots, levels, order[kb], b) && NoSlotAmong(slots, levels, order[..kb]);
    NoSlotBefore(slots, levels, order, ka);
    NoSlotBefore(slots, levels, order, kb);
    assert HasCandidate(slots, levels, order[ka]) && HasCandidate(slots, levels, order[kb]);
    assert ka == kb;
  }

  /** The classes before position `k` have no free slot. */
  lemma NoSlotBefore(slots: map<SlotId, ParkingSlot>, levels: map<LevelId, Level>, order: seq<SlotType>, k: nat)
    requires k <= |order| && NoSlotAmong(slots, levels, order[..k])
    ensures forall j :: 0 <= j < k ==> !HasCandidate(slots, levels, order[j])
  {
    forall j | 0 <= j < k
      ensures !HasCandidate(slots, levels, order[j])
    {
      assert order[..k][j] == order[j];
    }
  }

  /** The first class in the list that has a free slot is the one at position `j`. */
  predicate FirstFreeClassAt(slots: map<SlotId, ParkingSlot>, levels: map<LevelId, Level>, order: seq<SlotType>, j: int) {
    0 <= j < |order| && NoSlotAmong(slots, levels, order[..j]) && HasCandidate(slots, levels, order[j])
  }

  /** The stream over the allowed classes from position `k` on, run against the slot query as the
      repository declares it (SingleResultQuery): a class with no free slot is skipped, a class
      with exactly one is taken, and a class with two or more ends the search with the query's
      error. */
  ghost function SearchAsWritten(slots: map<SlotId, ParkingSlot>, levels: map<LevelId, Level>, order: seq<SlotType>, k: nat)
    : (r: Result<Option<SlotId>, QueryError>)
    requires k <= |order| && NoSlotAmong(slots, levels, order[..k])
    ensures r == Ok(None) <==> NoSlotAmong(slots, levels, order)
    ensures r.Ok? && r.value.Some? ==> IsPreferredSlot(slots, levels, order, r.value.value)
    ensures r.Err? <==> exists j :: FirstFreeClassAt(slots, levels, order, j) && |CandidateIds(slots, levels, order[j])| > 1
    decreases |order| - k
  {
    if k == |order| then
      assert order[..k] == order;
      Ok(None)
    else
      match SingleResultQuery(slots, levels, order[k])
      case Err(e) =>
        assert FirstFreeClassAt(slots, levels, order, k);
        Err(e)
      case Ok(Some(id)) =>
        assert IsFirstAvailable(slots, levels, order[k], id);
        assert FirstFreeClassAt(slots, levels, order, k);
        FirstFreeClassIsUnique(slots, levels, order, k);
        Ok(Some(id))
      case Ok(None) =>
        assert order[..k + 1] == order[..k] + [order[k]];
        SearchAsWritten(slots, levels, order, k + 1)
  }

  /** At most one position is the first with a free slot. */
  lemma FirstFreeClassIsUnique(slots: map<SlotId, ParkingSlot>, levels: map<LevelId, Level>, order: seq<SlotType>, k: int)
    requires FirstFreeClassAt(slots, levels, order, k)
    ensures forall j :: FirstFreeClassAt(slots, levels, order, j) ==> j == k
    ensures !NoSlotAmong(slots, levels, order)
  {
    forall j | FirstFreeClassAt(slots, levels, order, j)
      ensures j == k
    {
      NoSlotBefore(slots, levels, order, j);
      NoSlotBefore(slots, levels, order, k);
    }
  }

  /** The check-in search as written: the stream over the compatibility list from its start. */
  ghost function FindSlotAsWritten(slots: map<SlotId, ParkingSlot>, levels: map<LevelId, Level>, order: seq<SlotType>)
    : (r: Result<Option<SlotId>, QueryError>)
    ensures r == Ok(None) <==> NoSlotAmong(slots, levels, order)
    ensures r.Ok? && r.value.Some? ==> IsPreferredSlot(slots, levels, order, r.value.value)
    ensures r.Err? <==> exists j :: FirstFreeClassAt(slots, levels, order, j) && |CandidateIds(slots, levels, order[j])| > 1
  {
    assert order[..0] == [];
    SearchAsWritten(slots, levels, order, 0)
  }

  /** A car arriving at a floor with two free compact slots: the search as written ends in the
      query's error, so the check-in fails and is rolled back, although both slots are ones the
      corrected search may hand out. */
  lemma CarCheckInAsWrittenFailsOnTwoFreeCompactSlots()
    ensures var slots := map[1 := NewSlot("C-1", SlotType.COMPACT, 7), 2 := NewSlot("C-2", SlotType.COMPACT, 7)];
            var levels := map[7 := Level(1, 3, [1, 2])];
            && FindSlotAsWritten(slots, levels, AllowedSlotTypes(VehicleType.CAR)).Err?
            && IsPreferredSlot(slots, levels, AllowedSlotTypes(VehicleType.CAR), 1)
            && IsPreferredSlot(slots, levels, AllowedSlotTypes(VehicleType.CAR), 2)
  {
    var slots := map[1 := NewSlot("C-1", SlotType.COMPACT, 7), 2 := NewSlot("C-2", SlotType.COMPACT, 7)];
    var levels := map[7 := Level(1, 3, [1, 2])];
    var order := AllowedSlotTypes(VehicleType.CAR);
    SingleResultQueryFailsOnTwoFreeSlots();
    assert order[0] == SlotType.COMPACT && order[..0] == [];
    assert FirstFreeClassAt(slots, levels, order, 0);
  }

  // ----- Check-in -----

  /** The check-in answer: the new ticket's id, the vehicle, the entry time and where to park. */
  datatype TicketResponse = TicketResponse(
    ticketId: TicketId,
    licensePlate: string,
    vehicleType: VehicleType,
    entryTime: int,
    slotNumber: string,
    levelFloor: int)

  /** Why a check-in is refused, tested in the order the code tests it, or None when it goes ahead. */
  function CheckInRefusal(d: Db, licensePlate: string, vehicleType: VehicleType, order: seq<SlotType>)
    : (refusal: Option<ParkingError>)
    ensures refusal == Some(LicensePlateAlreadyRegistered)
        <==> licensePlate in d.vehicles && d.vehicles[licensePlate].vehicleType != vehicleType
    ensures refusal == Some(VehicleAlreadyParked)
        <==> !(licensePlate in d.vehicles && d.vehicles[licensePlate].vehicleType != vehicleType)
             && HasOpenTicketForVehicle(d.tickets, ResolveVehicle(d.vehicles, licensePlate, vehicleType))
    ensures refusal == Some(NoAvailableSlot)
        <==> !(licensePlate in d.vehicles && d.vehicles[licensePlate].vehicleType != vehicleType)
             && !HasOpenTicketForVehicle(d.tickets, ResolveVehicle(d.vehicles, licensePlate, vehicleType))
             && NoSlotAmong(d.slots, d.levels, order)
    ensures refusal.None? ==> !NoSlotAmong(d.slots, d.levels, order)
    ensures refusal.None? ==> !HasOpenTicketForVehicle(d.tickets, ResolveVehicle(d.vehicles, licensePlate, vehicleType))
    ensures refusal.Some? ==> refusal.value in {LicensePlateAlreadyRegistered, VehicleAlreadyParked, NoAvailableSlot}
  {
    var vehicle := ResolveVehicle(d.vehicles, licensePlate, vehicleType);
    if !IsInstanceValid(vehicle, vehicleType) then Some(LicensePlateAlreadyRegistered)
    else if HasOpenTicketForVehicle(d.tickets, vehicle) then Some(VehicleAlreadyParked)
    else if NoSlotAmong(d.slots, d.levels, order) then Some(NoAvailableSlot)
    else None
  }

  /** The writes of a successful check-in: the vehicle row is saved, the slot is taken, and a new
      open ticket for the vehicle and slot, entered now, gets the next ticket id. */
  function CheckInCommit(d: Db, vehicle: Vehicle, slotId: SlotId, now: int): Db
    requires slotId in d.slots
  {
    SetAvailable(d, slotId, false).(
      vehicles := d.vehicles[vehicle.licensePlate := vehicle],
      tickets := d.tickets[d.nextTicketId := ParkingTicket(vehicle, slotId, now, None, None)],
      nextTicketId := d.nextTicketId + 1)
  }

  /** The response built from the saved ticket, the vehicle and the slot with its level. */
  function CheckInResponse(d: Db, vehicle: Vehicle, slotId: SlotId, now: int): TicketResponse
    requires slotId in d.slots && d.slots[slotId].levelId in d.levels
  {
    TicketResponse(d.nextTicketId, vehicle.licensePlate, vehicle.vehicleType, now,
                   d.slots[slotId].slotNumber, FloorOf(d.slots, d.levels, slotId))
  }

  /** Every outcome a check-in may have, searching the slot classes in `order`: a refusal leaves the
      store as it was; otherwise some preferred slot is taken and the new ticket is reported. */
  ghost predicate CheckInOutcome(d: Db, d': Db, licensePlate: string, vehicleType: VehicleType, order: seq<SlotType>,
                                 now: int, r: Result<TicketResponse, ParkingError>)
  {
    match CheckInRefusal(d, licensePlate, vehicleType, order)
    case Some(e) => r == Err(e) && d' == d
    case None =>
      exists slotId :: CommitsTo(d, d', ResolveVehicle(d.vehicles, licensePlate, vehicleType), order, now, r, slotId)
  }

  /** The successful outcome that takes the preferred slot `slotId`. */
  ghost predicate CommitsTo(d: Db, d': Db, vehicle: Vehicle, order: seq<SlotType>, now: int,
                            r: Result<TicketResponse, ParkingError>, slotId: SlotId)
  {
    && slotId in d.slots && d.slots[slotId].levelId in d.levels
    && IsPreferredSlot(d.slots, d.levels, order, slotId)
    && d' == CheckInCommit(d, vehicle, slotId, now)
    && r == Ok(CheckInResponse(d, vehicle, slotId, now))
  }

  /** The slot a successful check-in took: a free slot of a class in the list. */
  lemma CheckInChoice(d: Db, d': Db, licensePlate: string, vehicleType: VehicleType, order: seq<SlotType>,
                      now: int, r: Result<TicketResponse, ParkingError>) returns (slotId: SlotId)
    requires CheckInOutcome(d, d', licensePlate, vehicleType, order, now, r)
    requires r.Ok?
    ensures CheckInRefusal(d, licensePlate, vehicleType, order).None?
    ensures CommitsTo(d, d', ResolveVehicle(d.vehicles, licensePlate, vehicleType), order, now, r, slotId)
    ensures d.slots[slotId].available && d.slots[slotId].slotType in order
  {
    slotId :| CommitsTo(d, d', ResolveVehicle(d.vehicles, licensePlate, vehicleType), order, now, r, slotId);
    var k :| 0 <= k < |order| && IsFirstAvailable(d.slots, d.levels, order[k], slotId) && NoSlotAmong(d.slots, d.levels, order[..k]);
  }

  /** A refused check-in changes nothing. */
  lemma CheckInRefusalChangesNothing(d: Db, d': Db, licensePlate: string, vehicleType: VehicleType, order: seq<SlotType>,
                                     now: int, r: Result<TicketResponse, ParkingError>)
    requires CheckInOutcome(d, d', licensePlate, vehicleType, order, now, r)
    requires r.Err?
    ensures d' == d && CheckInRefusal(d, licensePlate, vehicleType, order) == Some(r.error)
  {
    if CheckInRefusal(d, licensePlate, vehicleType, order).None? {
      assert false;
    }
  }

  /** Taking a preferred slot when nothing refuses the check-in is an outcome of check-in, and it
      keeps the store well-formed. */
  lemma CommitOutcome(d: Db, licensePlate: string, vehicleType: VehicleType, order: seq<SlotType>, now: int, slotId: SlotId)
    requires d.Valid()
    requires CheckInRefusal(d, licensePlate, vehicleType, order).None?
    requires IsPreferredSlot(d.slots, d.levels, order, slotId)
    ensures var vehicle := ResolveVehicle(d.vehicles, licensePlate, vehicleType);
            && slotId in d.slots && d.slots[slotId].levelId in d.levels && d.slots[slotId].available
            && CheckInCommit(d, vehicle, slotId, now).Valid()
            && CheckInOutcome(d, CheckInCommit(d, vehicle, slotId, now), licensePlate, vehicleType, order, now,
                              Ok(CheckInResponse(d, vehicle, slotId, now)))
  {
    var vehicle := ResolveVehicle(d.vehicles, licensePlate, vehicleType);
    var k :| 0 <= k < |order| && IsFirstAvailable(d.slots, d.levels, order[k], slotId) && NoSlotAmong(d.slots, d.levels, order[..k]);
    assert CommitsTo(d, CheckInCommit(d, vehicle, slotId, now), vehicle, order, now, Ok(CheckInResponse(d, vehicle, slotId, now)), slotId);
    assert VehiclesKeyedByPlate(d.vehicles);
    CommitKeepsValid(d, vehicle, slotId, now);
  }

  /** A check-in keeps the store well-formed. */
  lemma CheckInKeepsValid(d: Db, d': Db, licensePlate: string, vehicleType: VehicleType, order: seq<SlotType>,
                          now: int, r: Result<TicketResponse, ParkingError>)
    requires d.Valid()
    requires CheckInOutcome(d, d', licensePlate, vehicleType, order, now, r)
    ensures d'.Valid()
  {
    if r.Ok? {
      var slotId := CheckInChoice(d, d', licensePlate, vehicleType, order, now, r);
      CommitKeepsValid(d, ResolveVehicle(d.vehicles, licensePlate, vehicleType), slotId, now);
    } else {
      CheckInRefusalChangesNothing(d, d', licensePlate, vehicleType, order, now, r);
    }
  }

  lemma CommitKeepsValid(d: Db, vehicle: Vehicle, slotId: SlotId, now: int)
    requires d.Valid() && slotId in d.slots
    requires vehicle.licensePlate in d.vehicles ==> d.vehicles[vehicle.licensePlate] == vehicle
    ensures CheckInCommit(d, vehicle, slotId, now).Valid()
  {
    var d1 := SetAvailable(d, slotId, false);
    SetAvailableKeepsValid(d, slotId, false);
    InsertTicketKeepsValid(d1, vehicle, ParkingTicket(vehicle, slotId, now, None, None));
  }

  /** Saving the ticket's vehicle and inserting the ticket under the next id keeps the store
      well-formed when the ticket's slot exists. */
  lemma InsertTicketKeepsValid(d: Db, vehicle: Vehicle, ticket: ParkingTicket)
    requires d.Valid() && ticket.vehicle == vehicle && ticket.slotId in d.slots
    requires vehicle.licensePlate in d.vehicles ==> d.vehicles[vehicle.licensePlate] == vehicle
    ensures d.(vehicles := d.vehicles[vehicle.licensePlate := vehicle],
               tickets := d.tickets[d.nextTicketId := ticket],
               nextTicketId := d.nextTicketId + 1).Valid()
  {
    var d' := d.(vehicles := d.vehicles[vehicle.licensePlate := vehicle],
                 tickets := d.tickets[d.nextTicketId := ticket],
                 nextTicketId := d.nextTicketId + 1);
    IdsBelowAfterInsert(d.tickets.Keys, d.nextTicketId);
    assert d'.tickets.Keys == d.tickets.Keys + {d.nextTicketId};
    SaveKeepsTicketVehicles(d.vehicles, d.tickets, vehicle, d.nextTicketId, ticket, d'.vehicles, d'.tickets);
    assert TicketsReferToRows(d'.vehicles, d'.slots, d'.tickets);
  }

  /** Saving a vehicle row and a ticket for that vehicle keeps every ticket's vehicle stored. */
  lemma SaveKeepsTicketVehicles(vehicles: map<string, Vehicle>, tickets: map<TicketId, ParkingTicket>, vehicle: Vehicle,
                                id: TicketId, ticket: ParkingTicket,
                                vehicles': map<string, Vehicle>, tickets': map<TicketId, ParkingTicket>)
    requires forall i :: i in tickets ==> TicketVehicleIsStored(vehicles, tickets[i])
    requires vehicle.licensePlate in vehicles ==> vehicles[vehicle.licensePlate] == vehicle
    requires ticket.vehicle == vehicle
    requires vehicles' == vehicles[vehicle.licensePlate := vehicle] && tickets' == tickets[id := ticket]
    ensures forall i :: i in tickets' ==> TicketVehicleIsStored(vehicles', tickets'[i])
  {
    forall i | i in tickets'
      ensures TicketVehicleIsStored(vehicles', tickets'[i])
    {
      if i != id {
        assert TicketVehicleIsStored(vehicles, tickets[i]);
      }
    }
  }

  /** A check-in keeps the occupancy invariant: the taken slot was free, so no open ticket held it,
      and the vehicle had no open ticket, so it now has exactly one. */
  lemma CheckInKeepsConsistent(d: Db, d': Db, licensePlate: string, vehicleType: VehicleType, order: seq<SlotType>,
                               now: int, r: Result<TicketResponse, ParkingError>)
    requires d.Valid() && d.Consistent()
    requires CheckInOutcome(d, d', licensePlate, vehicleType, order, now, r)
    ensures d'.Consistent()
  {
    if r.Ok? {
      var slotId := CheckInChoice(d, d', licensePlate, vehicleType, order, now, r);
      CommitKeepsConsistent(d, ResolveVehicle(d.vehicles, licensePlate, vehicleType), slotId, now);
    } else {
      CheckInRefusalChangesNothing(d, d', licensePlate, vehicleType, order, now, r);
    }
  }

  lemma CommitKeepsConsistent(d: Db, vehicle: Vehicle, slotId: SlotId, now: int)
    requires d.Valid() && d.Consistent()
    requires slotId in d.slots && d.slots[slotId].available
    requires !HasOpenTicketForVehicle(d.tickets, vehicle)
    ensures CheckInCommit(d, vehicle, slotId, now).Consistent()
  {
    FreeSlotHasNoOpenTicket(d, slotId);
    assert d.nextTicketId !in d.tickets;
    var d1 := SetAvailable(d, slotId, false);
    assert OpenTicketsHoldTheirSlots(d1.tickets, d1.slots);
    InsertOpenTicketKeepsConsistent(d1, vehicle, ParkingTicket(vehicle, slotId, now, None, None));
  }

  /** Inserting an open ticket under a fresh id keeps the occupancy invariant when its slot is
      already marked taken and neither its vehicle nor its slot has an open ticket. */
  lemma InsertOpenTicketKeepsConsistent(d: Db, vehicle: Vehicle, ticket: ParkingTicket)
    requires d.Consistent() && d.nextTicketId !in d.tickets
    requires ticket.IsOpen() && ticket.slotId in d.slots && !d.slots[ticket.slotId].available
    requires !HasOpenTicketForVehicle(d.tickets, ticket.vehicle) && !HasOpenTicketForSlot(d.tickets, ticket.slotId)
    ensures d.(vehicles := d.vehicles[vehicle.licensePlate := vehicle],
               tickets := d.tickets[d.nextTicketId := ticket],
               nextTicketId := d.nextTicketId + 1).Consistent()
  {
    var tickets' := d.tickets[d.nextTicketId := ticket];
    var t := d.nextTicketId;
    forall i, j | i in tickets' && j in tickets' && tickets'[i].IsOpen() && tickets'[j].IsOpen()
      ensures tickets'[i].vehicle.licensePlate == tickets'[j].vehicle.licensePlate ==> i == j
      ensures tickets'[i].slotId == tickets'[j].slotId ==> i == j
    {
      if i != t && j != t {
        assert tickets'[i] == d.tickets[i] && tickets'[j] == d.tickets[j];
      }
    }
  }

  /** What a successful check-in did: the slot it took was free and of a class in the list, it is
      now taken, and the reported ticket is a new open ticket of this plate, in that slot, entered
      now; no other ticket and no other slot changed. */
  lemma CheckInOpensTicket(d: Db, d': Db, licensePlate: string, vehicleType: VehicleType, order: seq<SlotType>,
                           now: int, r: Result<TicketResponse, ParkingError>)
    requires d.Valid()
    requires CheckInOutcome(d, d', licensePlate, vehicleType, order, now, r)
    requires r.Ok?
    ensures r.value.ticketId == d.nextTicketId && r.value.ticketId !in d.tickets && r.value.ticketId in d'.tickets
    ensures var ticket := d'.tickets[r.value.ticketId];
            && ticket.IsOpen() && ticket.fee.None? && ticket.entryTime == now
            && ticket.vehicle.licensePlate == licensePlate
            && ticket.slotId in d.slots && d.slots[ticket.slotId].available && d.slots[ticket.slotId].slotType in order
            && ticket.slotId in d'.slots && !d'.slots[ticket.slotId].available
            && (forall id :: id in d.slots && id != ticket.slotId ==> id in d'.slots && d'.slots[id] == d.slots[id])
    ensures d'.slots.Keys == d.slots.Keys
    ensures forall id :: id in d.tickets ==> id in d'.tickets && d'.tickets[id] == d.tickets[id]
  {
    var slotId := CheckInChoice(d, d', licensePlate, vehicleType, order, now, r);
    assert VehiclesKeyedByPlate(d.vehicles) && IdsBelow(d.tickets.Keys, d.nextTicketId);
    assert d.nextTicketId !in d.tickets;
  }

  /** A known plate with a matching type is reused, so a check-in adds a vehicle row only for an
      unseen plate, registered with the requested type. */
  lemma CheckInRegistersOnlyNewPlates(d: Db, d': Db, licensePlate: string, vehicleType: VehicleType, order: seq<SlotType>,
                                      now: int, r: Result<TicketResponse, ParkingError>)
    requires d.Valid()
    requires CheckInOutcome(d, d', licensePlate, vehicleType, order, now, r)
    ensures licensePlate in d.vehicles ==> d'.vehicles == d.vehicles
    ensures licensePlate !in d.vehicles && r.Ok? ==> d'.vehicles == d.vehicles[licensePlate := Vehicle(licensePlate, vehicleType)]
    ensures r.Err? ==> d'.vehicles == d.vehicles
  {
    if r.Ok? {
      var slotId := CheckInChoice(d, d', licensePlate, vehicleType, order, now, r);
      var vehicle := ResolveVehicle(d.vehicles, licensePlate, vehicleType);
      assert d'.vehicles == d.vehicles[vehicle.licensePlate := vehicle];
      if licensePlate in d.vehicles {
        assert VehiclesKeyedByPlate(d.vehicles);
        assert d.vehicles[licensePlate := vehicle] == d.vehicles;
      }
    } else {
      CheckInRefusalChangesNothing(d, d', licensePlate, vehicleType, order, now, r);
    }
  }

  /** A vehicle parked once cannot check in again before it leaves. */
  lemma ParkedVehicleIsRefused(d: Db, d': Db, licensePlate: string, vehicleType: VehicleType, order: seq<SlotType>,
                               now: int, r: Result<TicketResponse, ParkingError>, order2: seq<SlotType>)
    requires d.Valid()
    requires CheckInOutcome(d, d', licensePlate, vehicleType, order, now, r)
    requires r.Ok?
    ensures CheckInRefusal(d', licensePlate, vehicleType, order2) == Some(VehicleAlreadyParked)
  {
    var slotId := CheckInChoice(d, d', licensePlate, vehicleType, order, now, r);
    assert VehiclesKeyedByPlate(d.vehicles);
    assert d'.tickets[d.nextTicketId].IsOpen();
  }

  /** The sequential reading of the concurrency test: when a single free slot fits a vehicle type,
      after one vehicle of that type takes it a second, unseen vehicle of that type is refused for
      lack of a slot. */
  lemma OneFreeSlotAdmitsOneVehicle(d: Db, d': Db, plate1: string, plate2: string, vehicleType: VehicleType,
                                    now: int, r: Result<TicketResponse, ParkingError>, only: SlotId)
    requires d.Valid()
    requires forall k, id :: 0 <= k < |AllowedSlotTypes(vehicleType)| && IsCandidate(d.slots, d.levels, AllowedSlotTypes(vehicleType)[k], id) ==> id == only
    requires CheckInOutcome(d, d', plate1, vehicleType, AllowedSlotTypes(vehicleType), now, r)
    requires r.Ok?
    requires plate2 != plate1 && plate2 !in d.vehicles
    ensures CheckInRefusal(d', plate2, vehicleType, AllowedSlotTypes(vehicleType)) == Some(NoAvailableSlot)
  {
    var order := AllowedSlotTypes(vehicleType);
    var slotId := CheckInChoice(d, d', plate1, vehicleType, order, now, r);
    var k :| 0 <= k < |order| && IsFirstAvailable(d.slots, d.levels, order[k], slotId);
    assert slotId == only;
    var vehicle := ResolveVehicle(d.vehicles, plate1, vehicleType);
    TakingOnlyFreeSlot(d, vehicle, slotId, now, order);
    UnseenPlateHasNoTicket(d, vehicle, slotId, now, plate2);
    UnseenPlateFindsNoSlot(d', plate2, vehicleType, order);
  }

  /** An unseen plate with no ticket is refused for lack of a slot when no listed class has one. */
  lemma UnseenPlateFindsNoSlot(d: Db, plate: string, vehicleType: VehicleType, order: seq<SlotType>)
    requires plate !in d.vehicles
    requires forall id :: id in d.tickets ==> d.tickets[id].vehicle.licensePlate != plate
    requires NoSlotAmong(d.slots, d.levels, order)
    ensures CheckInRefusal(d, plate, vehicleType, order) == Some(NoAvailableSlot)
  {
  }

  /** Taking the only free slot of the listed classes leaves none of them a free slot. */
  lemma TakingOnlyFreeSlot(d: Db, vehicle: Vehicle, slotId: SlotId, now: int, order: seq<SlotType>)
    requires slotId in d.slots
    requires forall k, id :: 0 <= k < |order| && IsCandidate(d.slots, d.levels, order[k], id) ==> id == slotId
    ensures var d' := CheckInCommit(d, vehicle, slotId, now);
            NoSlotAmong(d'.slots, d'.levels, order)
  {
    var d' := CheckInCommit(d, vehicle, slotId, now);
    forall j | 0 <= j < |order|
      ensures !HasCandidate(d'.slots, d'.levels, order[j])
    {
      forall id | id in d'.slots
        ensures !IsCandidate(d'.slots, d'.levels, order[j], id)
      {
        if id != slotId && IsCandidate(d'.slots, d'.levels, order[j], id) {
          assert IsCandidate(d.slots, d.levels, order[j], id);
        }
      }
    }
  }

  /** After a check-in by another plate, a plate the store has never seen has no ticket at all. */
  lemma UnseenPlateHasNoTicket(d: Db, vehicle: Vehicle, slotId: SlotId, now: int, plate: string)
    requires d.Valid() && slotId in d.slots
    requires plate != vehicle.licensePlate && plate !in d.vehicles
    ensures var d' := CheckInCommit(d, vehicle, slotId, now);
            forall id :: id in d'.tickets ==> d'.tickets[id].vehicle.licensePlate != plate
  {
    var d' := CheckInCommit(d, vehicle, slotId, now);
    forall id | id in d'.tickets
      ensures d'.tickets[id].vehicle.licensePlate != plate
    {
      if id in d.tickets && id != d.nextTicketId {
        assert TicketVehicleIsStored(d.vehicles, d.tickets[id]);
      }
    }
  }

  // ----- Check-out -----

  /** checkOut on the tables: an unknown ticket and a closed ticket are refused; otherwise the
      slot is freed and the ticket gets exit time `now` and the fee for its stay, unless pricing
      refuses, in which case the transaction is rolled back. */
  function CheckOutStep(d: Db, pricing: PricingService, ticketId: TicketId, now: int)
    : (out: (Result<ParkingTicket, ParkingError>, Db))
    requires d.Valid()
    ensures out.0.Err? ==> out.1 == d
    ensures out.0 == Err(TicketNotFound) <==> ticketId !in d.tickets
    ensures out.0 == Err(TicketAlreadyClosed) <==> ticketId in d.tickets && !d.tickets[ticketId].IsOpen()
    ensures out.0.Ok? <==> ticketId in d.tickets && d.tickets[ticketId].IsOpen()
                           && pricing.Calculate(d.tickets[ticketId].vehicle.vehicleType, d.tickets[ticketId].entryTime, now).Ok?
    ensures out.0.Err? && ticketId in d.tickets && d.tickets[ticketId].IsOpen() ==>
              out.0.error == pricing.Calculate(d.tickets[ticketId].vehicle.vehicleType, d.tickets[ticketId].entryTime, now).error
  {
    if ticketId !in d.tickets then (Err(TicketNotFound), d)
    else
      var ticket := d.tickets[ticketId];
      if !ticket.IsOpen() then (Err(TicketAlreadyClosed), d)
      else
        match pricing.Calculate(ticket.vehicle.vehicleType, ticket.entryTime, now)
        case Err(e) => (Err(e), d)
        case Ok(fee) => (Ok(Closed(ticket, now, fee)), CheckOutCommit(d, ticketId, now, fee))
  }

  /** The ticket stamped with its exit time and fee. */
  function Closed(ticket: ParkingTicket, now: int, fee: int): ParkingTicket {
    ticket.(exitTime := Some(now), fee := Some(fee))
  }

  /** The writes of a successful check-out: the ticket's slot is freed and the ticket closed. */
  function CheckOutCommit(d: Db, ticketId: TicketId, now: int, fee: int): Db
    requires ticketId in d.tickets && d.tickets[ticketId].slotId in d.slots
  {
    var ticket := d.tickets[ticketId];
    SetAvailable(d, ticket.slotId, true).(tickets := d.tickets[ticketId := Closed(ticket, now, fee)])
  }

  lemma CloseKeepsValid(d: Db, ticketId: TicketId, now: int, fee: int)
    requires d.Valid() && ticketId in d.tickets && d.tickets[ticketId].IsOpen()
    ensures CheckOutCommit(d, ticketId, now, fee).Valid()
  {
    var ticket := d.tickets[ticketId];
    SetAvailableKeepsValid(d, ticket.slotId, true);
    ClosingKeepsValid(SetAvailable(d, ticket.slotId, true), ticketId, Closed(ticket, now, fee));
  }

  /** Overwriting a ticket with a closed one for the same vehicle keeps the store well-formed. */
  lemma ClosingKeepsValid(d: Db, ticketId: TicketId, closed: ParkingTicket)
    requires d.Valid() && ticketId in d.tickets
    requires closed.vehicle == d.tickets[ticketId].vehicle && !closed.IsOpen()
    ensures d.(tickets := d.tickets[ticketId := closed]).Valid()
  {
    var d' := d.(tickets := d.tickets[ticketId := closed]);
    assert d'.tickets.Keys == d.tickets.Keys;
    forall id | id in d'.tickets
      ensures TicketVehicleIsStored(d'.vehicles, d'.tickets[id])
    {
      assert TicketVehicleIsStored(d.vehicles, d.tickets[id]);
    }
    assert TicketsReferToRows(d'.vehicles, d'.slots, d'.tickets);
  }

  lemma CloseKeepsConsistent(d: Db, ticketId: TicketId, now: int, fee: int)
    requires d.Valid() && d.Consistent()
    requires ticketId in d.tickets && d.tickets[ticketId].IsOpen() && d.tickets[ticketId].entryTime <= now
    ensures CheckOutCommit(d, ticketId, now, fee).Consistent()
  {
    var ticket := d.tickets[ticketId];
    var d1 := d.(tickets := d.tickets[ticketId := Closed(ticket, now, fee)]);
    ClosingKeepsConsistent(d, ticketId, Closed(ticket, now, fee));
    FreeingKeepsConsistent(d1, ticket.slotId);
    assert CheckOutCommit(d, ticketId, now, fee) == SetAvailable(d1, ticket.slotId, true);
  }

  /** Closing an open ticket (settled, with an exit time not before its entry) keeps the occupancy
      invariant, and afterwards no open ticket holds its slot. */
  lemma ClosingKeepsConsistent(d: Db, ticketId: TicketId, closed: ParkingTicket)
    requires d.Consistent() && ticketId in d.tickets && d.tickets[ticketId].IsOpen()
    requires closed.slotId == d.tickets[ticketId].slotId && !closed.IsOpen()
    requires closed.fee.Some? && closed.entryTime <= closed.exitTime.value
    ensures d.(tickets := d.tickets[ticketId := closed]).Consistent()
    ensures !HasOpenTicketForSlot(d.tickets[ticketId := closed], closed.slotId)
  {
    var tickets' := d.tickets[ticketId := closed];
    forall id | id in tickets' && tickets'[id].IsOpen()
      ensures tickets'[id].slotId != closed.slotId
    {
      assert id != ticketId && tickets'[id] == d.tickets[id];
    }
  }

  /** Marking free a slot that no open ticket holds keeps the occupancy invariant. */
  lemma FreeingKeepsConsistent(d: Db, slotId: SlotId)
    requires d.Consistent() && slotId in d.slots && !HasOpenTicketForSlot(d.tickets, slotId)
    ensures SetAvailable(d, slotId, true).Consistent()
  {
    var d' := SetAvailable(d, slotId, true);
    forall id | id in d'.tickets && d'.tickets[id].IsOpen()
      ensures d'.tickets[id].slotId in d'.slots && !d'.slots[d'.tickets[id].slotId].available
    {
      assert d.tickets[id].slotId != slotId;
    }
  }

  /** What a successful check-out did: the ticket is closed with exit time `now` and the fee pricing
      gives for its stay, everything else on it unchanged; its slot is free again; no other ticket
      and no other slot changed. */
  lemma CheckOutClosesTicket(d: Db, pricing: PricingService, ticketId: TicketId, now: int)
    requires d.Valid()
    requires CheckOutStep(d, pricing, ticketId, now).0.Ok?
    ensures var (r, d') := CheckOutStep(d, pricing, ticketId, now);
            var before := d.tickets[ticketId];
            && ticketId in d'.tickets && d'.tickets[ticketId] == r.value
            && r.value.vehicle == before.vehicle && r.value.slotId == before.slotId && r.value.entryTime == before.entryTime
            && r.value.exitTime == Some(now)
            && r.value.fee == Some(pricing.Calculate(before.vehicle.vehicleType, before.entryTime, now).value)
            && before.entryTime <= now
            && before.slotId in d'.slots && d'.slots[before.slotId].available
            && d'.slots.Keys == d.slots.Keys && d'.tickets.Keys == d.tickets.Keys
            && (forall id :: id in d.slots && id != before.slotId ==> d'.slots[id] == d.slots[id])
            && (forall id :: id in d.tickets && id != ticketId ==> d'.tickets[id] == d.tickets[id])
  {
  }

  /** A check-out keeps the store well-formed. */
  lemma CheckOutKeepsValid(d: Db, pricing: PricingService, ticketId: TicketId, now: int)
    requires d.Valid()
    ensures CheckOutStep(d, pricing, ticketId, now).1.Valid()
  {
    if ticketId in d.tickets && d.tickets[ticketId].IsOpen() {
      var ticket := d.tickets[ticketId];
      var fee := pricing.Calculate(ticket.vehicle.vehicleType, ticket.entryTime, now);
      if fee.Ok? {
        CloseKeepsValid(d, ticketId, now, fee.value);
      }
    }
  }

  /** A check-out keeps the occupancy invariant: the slot it frees was held by no other open ticket,
      and the ticket it closes gets its fee and an exit time not before its entry. */
  lemma CheckOutKeepsConsistent(d: Db, pricing: PricingService, ticketId: TicketId, now: int)
    requires d.Valid() && d.Consistent()
    ensures CheckOutStep(d, pricing, ticketId, now).1.Consistent()
  {
    if ticketId in d.tickets && d.tickets[ticketId].IsOpen() {
      var ticket := d.tickets[ticketId];
      var fee := pricing.Calculate(ticket.vehicle.vehicleType, ticket.entryTime, now);
      if fee.Ok? {
        CloseKeepsConsistent(d, ticketId, now, fee.value);
      }
    }
  }

  /** A ticket can be checked out once: a second check-out is refused as already closed and
      changes nothing. */
  lemma SecondCheckOutIsRefused(d: Db, pricing: PricingService, ticketId: TicketId, now: int, later: int)
    requires d.Valid()
    requires CheckOutStep(d, pricing, ticketId, now).0.Ok?
    ensures var d' := CheckOutStep(d, pricing, ticketId, now).1;
            d'.Valid() && CheckOutStep(d', pricing, ticketId, later) == (Err(TicketAlreadyClosed), d')
  {
    CheckOutKeepsValid(d, pricing, ticketId, now);
  }

  // ----- Active sessions -----

  /** toTicketResponse: the listing entry of a ticket, reading its vehicle and its slot with the
      slot's level. */
  function ToTicketResponse(d: Db, ticketId: TicketId): TicketResponse
    requires ticketId in d.tickets
    requires d.tickets[ticketId].slotId in d.slots && d.slots[d.tickets[ticketId].slotId].levelId in d.levels
  {
    var ticket := d.tickets[ticketId];
    TicketResponse(ticketId, ticket.vehicle.licensePlate, ticket.vehicle.vehicleType, ticket.entryTime,
                   d.slots[ticket.slotId].slotNumber, FloorOf(d.slots, d.levels, ticket.slotId))
  }

  /** getActiveSessions: one entry per open ticket and none for a closed one, keyed by ticket id. */
  function ActiveSessions(d: Db): (sessions: map<TicketId, TicketResponse>)
    requires d.Valid()
    ensures forall id :: id in sessions <==> id in d.tickets && d.tickets[id].IsOpen()
    ensures forall id :: id in sessions ==>
              && sessions[id].ticketId == id
              && sessions[id].licensePlate == d.tickets[id].vehicle.licensePlate
              && sessions[id].entryTime == d.tickets[id].entryTime
  {
    var open := FindAllOpen(d.tickets);
    map id | id in open :: ToTicketResponse(d, id)
  }

  /** The listing entry of one ticket: present iff the ticket is open, and then its response. */
  lemma SessionEntry(d: Db, id: TicketId)
    requires d.Valid()
    ensures id in ActiveSessions(d) <==> id in d.tickets && d.tickets[id].IsOpen()
    ensures id in ActiveSessions(d) ==>
              && d.tickets[id].slotId in d.slots && d.slots[d.tickets[id].slotId].levelId in d.levels
              && ActiveSessions(d)[id] == ToTicketResponse(d, id)
  {
  }

  /** The check-in answer is exactly the new session's listing entry. */
  lemma CheckInIsListed(d: Db, d': Db, licensePlate: string, vehicleType: VehicleType, order: seq<SlotType>,
                        now: int, r: Result<TicketResponse, ParkingError>)
    requires d.Valid()
    requires CheckInOutcome(d, d', licensePlate, vehicleType, order, now, r)
    requires r.Ok?
    ensures d'.Valid() && r.value.ticketId in ActiveSessions(d') && ActiveSessions(d')[r.value.ticketId] == r.value
  {
    CheckInKeepsValid(d, d', licensePlate, vehicleType, order, now, r);
    var slotId := CheckInChoice(d, d', licensePlate, vehicleType, order, now, r);
    CommitIsListed(d, ResolveVehicle(d.vehicles, licensePlate, vehicleType), slotId, now);
  }

  lemma CommitIsListed(d: Db, vehicle: Vehicle, slotId: SlotId, now: int)
    requires slotId in d.slots && d.slots[slotId].levelId in d.levels
    requires CheckInCommit(d, vehicle, slotId, now).Valid()
    ensures var d' := CheckInCommit(d, vehicle, slotId, now);
            && d.nextTicketId in ActiveSessions(d')
            && ActiveSessions(d')[d.nextTicketId] == CheckInResponse(d, vehicle, slotId, now)
  {
    SessionEntry(CheckInCommit(d, vehicle, slotId, now), d.nextTicketId);
  }

  /** A checked-out ticket leaves the active sessions; every other entry stays as it was. */
  lemma CheckOutUnlists(d: Db, pricing: PricingService, ticketId: TicketId, now: int)
    requires d.Valid()
    requires CheckOutStep(d, pricing, ticketId, now).0.Ok?
    ensures var d' := CheckOutStep(d, pricing, ticketId, now).1;
            d'.Valid() && ticketId in ActiveSessions(d) && ticketId !in ActiveSessions(d')
            && (forall id :: id in ActiveSessions(d) && id != ticketId ==> id in ActiveSessions(d') && ActiveSessions(d')[id] == ActiveSessions(d)[id])
  {
    var ticket := d.tickets[ticketId];
    var fee := pricing.Calculate(ticket.vehicle.vehicleType, ticket.entryTime, now);
    CloseKeepsValid(d, ticketId, now, fee.value);
    CloseUnlists(d, ticketId, now, fee.value);
  }

  lemma CloseUnlists(d: Db, ticketId: TicketId, now: int, fee: int)
    requires d.Valid() && ticketId in d.tickets && d.tickets[ticketId].IsOpen()
    requires CheckOutCommit(d, ticketId, now, fee).Valid()
    ensures var d' := CheckOutCommit(d, ticketId, now, fee);
            && ticketId in ActiveSessions(d) && ticketId !in ActiveSessions(d')
            && (forall id :: id in ActiveSessions(d) && id != ticketId ==> id in ActiveSessions(d') && ActiveSessions(d')[id] == ActiveSessions(d)[id])
  {
    var d' := CheckOutCommit(d, ticketId, now, fee);
    SessionEntry(d, ticketId);
    SessionEntry(d', ticketId);
    forall id | id in ActiveSessions(d) && id != ticketId
      ensures id in ActiveSessions(d') && ActiveSessions(d')[id] == ActiveSessions(d)[id]
    {
      CloseKeepsEntry(d, ticketId, now, fee, id);
    }
  }

  /** Closing one ticket leaves another open ticket's listing entry as it was. */
  lemma CloseKeepsEntry(d: Db, ticketId: TicketId, now: int, fee: int, id: TicketId)
    requires d.Valid() && ticketId in d.tickets && d.tickets[ticketId].IsOpen()
    requires CheckOutCommit(d, ticketId, now, fee).Valid()
    requires id in ActiveSessions(d) && id != ticketId
    ensures id in ActiveSessions(CheckOutCommit(d, ticketId, now, fee))
    ensures ActiveSessions(CheckOutCommit(d, ticketId, now, fee))[id] == ActiveSessions(d)[id]
  {
    var d' := CheckOutCommit(d, ticketId, now, fee);
    SessionEntry(d, id);
    SessionEntry(d', id);
    assert d'.tickets[id] == d.tickets[id];
    var slotId := d.tickets[id].slotId;
    assert d'.slots[slotId].slotNumber == d.slots[slotId].slotNumber && d'.slots[slotId].levelId == d.slots[slotId].levelId;
  }

  // ----- The configured fees -----

  /** With the configured rates a stay is billed its vehicle's rate per started hour: check-out
      always succeeds on an open ticket once the clock is not behind its entry. */
  lemma ConfiguredCheckOutFee(d: Db, ticketId: TicketId, now: int)
    requires d.Valid()
    requires ticketId in d.tickets && d.tickets[ticketId].IsOpen() && d.tickets[ticketId].entryTime <= now
    ensures var service := PricingService(Registry(ConfiguredStrategies()));
            var ticket := d.tickets[ticketId];
            var r := CheckOutStep(d, service, ticketId, now).0;
            && r.Ok?
            && r.value.fee == Some(ConfiguredStrategyFor(ticket.vehicle.vehicleType).rate
                                   * BillableHours(WholeMinutes(ticket.entryTime, now)))
  {
    var ticket := d.tickets[ticketId];
    ConfiguredCalculate(ticket.vehicle.vehicleType, ticket.entryTime, now);
  }

  /** The two-hour stay of the integration test: a car parked at `entry` and leaving 7200 seconds
      later pays 4. */
  lemma TwoHourCarStayCostsFour(d: Db, ticketId: TicketId)
    requires d.Valid()
    requires ticketId in d.tickets && d.tickets[ticketId].IsOpen() && d.tickets[ticketId].vehicle.vehicleType == VehicleType.CAR
    ensures var entry := d.tickets[ticketId].entryTime;
            CheckOutStep(d, PricingService(Registry(ConfiguredStrategies())), ticketId, entry + 7200).0.value.fee == Some(4)
  {
    var entry := d.tickets[ticketId].entryTime;
    ConfiguredCheckOutFee(d, ticketId, entry + 7200);
    CarRateForTwoHours(entry);
    var r := CheckOutStep(d, PricingService(Registry(ConfiguredStrategies())), ticketId, entry + 7200).0;
    assert r.value.fee == Some(ConfiguredStrategyFor(VehicleType.CAR).rate * BillableHours(WholeMinutes(entry, entry + 7200)));
  }

  /** A car's configured fee for exactly two hours from `entry`. */
  lemma CarRateForTwoHours(entry: int)
    ensures ConfiguredStrategyFor(VehicleType.CAR).rate * BillableHours(WholeMinutes(entry, entry + 7200)) == 4
  {
    assert WholeMinutes(entry, entry + 7200) == 120;
    assert BillableHours(120) == 2;
  }

  // ----- The service -----

  class ParkingService {
    const store: ParkingStore
    const pricing: PricingService

    constructor (store: ParkingStore, pricing: PricingService)
      ensures this.store == store && this.pricing == pricing
    {
      this.store := store;
      this.pricing := pricing;
    }

    /** checkIn(licensePlate, type) as written: search the vehicle's compatibility list. */
    method CheckIn(licensePlate: string, vehicleType: VehicleType, now: int)
      returns (r: Result<TicketResponse, ParkingError>)
      requires store.Valid()
      modifies store
      ensures store.Valid()
      ensures CheckInOutcome(old(store.Snapshot()), store.Snapshot(), licensePlate, vehicleType, AllowedSlotTypes(vehicleType), now, r)
      ensures old(store.Snapshot().Consistent()) ==> store.Snapshot().Consistent()
    {
      ghost var d := store.Snapshot();
      r := CheckInSearching(licensePlate, vehicleType, AllowedSlotTypes(vehicleType), now);
      CheckInKeepsValid(d, store.Snapshot(), licensePlate, vehicleType, AllowedSlotTypes(vehicleType), now, r);
      if d.Consistent() {
        CheckInKeepsConsistent(d, store.Snapshot(), licensePlate, vehicleType, AllowedSlotTypes(vehicleType), now, r);
      }
    }

    /** The three-argument check-in the controller and the integration tests call: an accessible
        slot first for a driver flagged as handicapped, then the compatibility list. */
    method CheckInAccessible(licensePlate: string, vehicleType: VehicleType, handicapped: bool, now: int)
      returns (r: Result<TicketResponse, ParkingError>)
      requires store.Valid()
      modifies store
      ensures store.Valid()
      ensures CheckInOutcome(old(store.Snapshot()), store.Snapshot(), licensePlate, vehicleType,
                             AccessibleSearchOrder(vehicleType, handicapped), now, r)
      ensures old(store.Snapshot().Consistent()) ==> store.Snapshot().Consistent()
    {
      ghost var d := store.Snapshot();
      var order := AccessibleSearchOrder(vehicleType, handicapped);
      r := CheckInSearching(licensePlate, vehicleType, order, now);
      CheckInKeepsValid(d, store.Snapshot(), licensePlate, vehicleType, order, now, r);
      if d.Consistent() {
        CheckInKeepsConsistent(d, store.Snapshot(), licensePlate, vehicleType, order, now, r);
      }
    }

    /** The body of check-in, searching the slot classes in `order`. The vehicle row is written
        only with the rest of the commit, which is what the transaction's rollback amounts to. */
    method CheckInSearching(licensePlate: string, vehicleType: VehicleType, order: seq<SlotType>, now: int)
      returns (r: Result<TicketResponse, ParkingError>)
      requires store.Valid()
      modifies store
      ensures CheckInOutcome(old(store.Snapshot()), store.Snapshot(), licensePlate, vehicleType, order, now, r)
    {
      ghost var d := store.Snapshot();
      var vehicle: Vehicle;
      if licensePlate in store.vehicles {
        vehicle := store.vehicles[licensePlate];
      } else {
        var created := CreateVehicle(licensePlate, vehicleType);
        vehicle := created.value;
      }
      if !IsInstanceValid(vehicle, vehicleType) {
        return Err(LicensePlateAlreadyRegistered);
      }
      if HasOpenTicketForVehicle(store.tickets, vehicle) {
        return Err(VehicleAlreadyParked);
      }
      var found := FindSlot(store.slots, store.levels, order);
      if found.None? {
        return Err(NoAvailableSlot);
      }
      var slotId := found.value;
      assert vehicle == ResolveVehicle(d.vehicles, licensePlate, vehicleType);
      CommitOutcome(d, licensePlate, vehicleType, order, now, slotId);
      var response := OpenTicket(vehicle, slotId, now);
      r := Ok(response);
    }

    /** The writes of a successful check-in and its answer: the slot is marked taken and saved, the
        vehicle is saved, and the new ticket is saved and reported with the slot's number and
        floor. */
    method OpenTicket(vehicle: Vehicle, slotId: SlotId, now: int) returns (response: TicketResponse)
      requires slotId in store.slots && store.slots[slotId].levelId in store.levels
      modifies store
      ensures store.Snapshot() == CheckInCommit(old(store.Snapshot()), vehicle, slotId, now)
      ensures response == CheckInResponse(old(store.Snapshot()), vehicle, slotId, now)
    {
      var slot := store.slots[slotId];
      store.SaveSlot(slotId, slot.(available := false));
      store.SaveVehicle(vehicle);
      var ticketId := store.InsertTicket(ParkingTicket(vehicle, slotId, now, None, None));
      response := TicketResponse(ticketId, vehicle.licensePlate, vehicle.vehicleType, now,
                                 slot.slotNumber, store.levels[slot.levelId].floorNumber);
    }

    /** checkOut: the slot is freed and the exit time stamped before the fee is asked for; if
        pricing refuses, the transaction rolls the slot back. */
    method CheckOut(ticketId: TicketId, now: int) returns (r: Result<ParkingTicket, ParkingError>)
      requires store.Valid()
      modifies store
      ensures (r, store.Snapshot()) == CheckOutStep(old(store.Snapshot()), pricing, ticketId, now)
      ensures store.Valid()
      ensures old(store.Snapshot().Consistent()) ==> store.Snapshot().Consistent()
    {
      ghost var d := store.Snapshot();
      if ticketId !in store.tickets {
        return Err(TicketNotFound);
      }
      var ticket := store.tickets[ticketId];
      if !ticket.IsOpen() {
        return Err(TicketAlreadyClosed);
      }
      var slot := store.slots[ticket.slotId];
      store.SaveSlot(ticket.slotId, slot.(available := true));
      ticket := ticket.(exitTime := Some(now));
      var fee := pricing.Calculate(ticket.vehicle.vehicleType, ticket.entryTime, now);
      if fee.Err? {
        // the transaction rolls back the slot it already saved
        store.SaveSlot(ticket.slotId, slot);
        assert store.slots == d.slots;
        return Err(fee.error);
      }
      ticket := ticket.(fee := Some(fee.value));
      store.SaveTicket(ticketId, ticket);
      r := Ok(ticket);
      CheckOutKeepsValid(d, pricing, ticketId, now);
      if d.Consistent() {
        CheckOutKeepsConsistent(d, pricing, ticketId, now);
      }
    }

    /** getActiveSessions: the listing of the open tickets; it changes nothing. */
    function GetActiveSessions(): (sessions: map<TicketId, TicketResponse>)
      reads store
      requires store.Valid()
      ensures forall id :: id in sessions <==> id in store.tickets && store.tickets[id].IsOpen()
      ensures sessions == ActiveSessions(store.Snapshot())
    {
      ActiveSessions(store.Snapshot())
    }
  }
}
