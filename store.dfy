/** The database the services work on: one table per entity, keyed by id, and the identity
    generators that number new rows. `Db` is a snapshot of all tables; `ParkingStore` is the
    mutable store whose tables the services update in place. */
module Store {
  import opened Wrappers
  import opened Vehicles
  import opened Entities
  import opened Repositories

  datatype Db = Db(
    vehicles: map<string, Vehicle>,
    lots: map<LotId, ParkingLot>,
    levels: map<LevelId, Level>,
    slots: map<SlotId, ParkingSlot>,
    tickets: map<TicketId, ParkingTicket>,
    nextLotId: LotId,
    nextLevelId: LevelId,
    nextSlotId: SlotId,
    nextTicketId: TicketId)
  {
    /** Referential well-formedness: vehicles are keyed by their plate, every id is below its
        generator, the lot/level and level/slot lists agree with the children's parent ids (the
        `mappedBy` side), every ticket's vehicle is the stored row of its plate, and every open
        ticket references an existing slot. */
    ghost predicate Valid() {
      && VehiclesKeyedByPlate(vehicles)
      && IdsBelow(lots.Keys, nextLotId)
      && IdsBelow(levels.Keys, nextLevelId)
      && IdsBelow(slots.Keys, nextSlotId)
      && IdsBelow(tickets.Keys, nextTicketId)
      && LotsOwnLevels(lots, levels)
      && LevelsOwnSlots(levels, slots)
      && TicketsReferToRows(vehicles, slots, tickets)
    }

    /** The occupancy invariant the check-in engine is built to keep: an open ticket's slot is
        marked unavailable, each vehicle and each slot has at most one open ticket, and a closed
        ticket carries a fee and an exit time not before its entry. */
    ghost predicate Consistent() {
      && OpenTicketsHoldTheirSlots(tickets, slots)
      && OneOpenTicketPerVehicle(tickets)
      && OneOpenTicketPerSlot(tickets)
      && ClosedTicketsSettled(tickets)
    }
  }

  ghost predicate VehiclesKeyedByPlate(vehicles: map<string, Vehicle>) {
    forall plate :: plate in vehicles ==> vehicles[plate].licensePlate == plate
  }

  /** Every id handed out so far is below the generator's next value. */
  ghost predicate IdsBelow(ids: set<nat>, next: nat) {
    forall id :: id in ids ==> id < next
  }

  /** A level belongs to an existing lot and is in that lot's list, and a lot lists only its own
      levels. */
  ghost predicate LotsOwnLevels(lots: map<LotId, ParkingLot>, levels: map<LevelId, Level>) {
    && (forall l :: l in levels ==> levels[l].parkingLotId in lots && l in lots[levels[l].parkingLotId].levelIds)
    && (forall lot, l :: lot in lots && l in lots[lot].levelIds ==> l in levels && levels[l].parkingLotId == lot)
  }

  /** A slot belongs to an existing level and is in that level's list, and a level lists only its
      own slots. */
  ghost predicate LevelsOwnSlots(levels: map<LevelId, Level>, slots: map<SlotId, ParkingSlot>) {
    && (forall s :: s in slots ==> slots[s].levelId in levels && s in levels[slots[s].levelId].slotIds)
    && (forall l, s :: l in levels && s in levels[l].slotIds ==> s in slots && slots[s].levelId == l)
  }

  /** Every ticket's vehicle is stored, and every open ticket's slot exists. */
  ghost predicate TicketsReferToRows(vehicles: map<string, Vehicle>, slots: map<SlotId, ParkingSlot>,
                                     tickets: map<TicketId, ParkingTicket>) {
    && (forall id :: id in tickets ==> TicketVehicleIsStored(vehicles, tickets[id]))
    && (forall id :: id in tickets && tickets[id].IsOpen() ==> tickets[id].slotId in slots)
  }

  /** The ticket's vehicle is the row stored under its plate. */
  predicate TicketVehicleIsStored(vehicles: map<string, Vehicle>, ticket: ParkingTicket) {
    ticket.vehicle.licensePlate in vehicles && vehicles[ticket.vehicle.licensePlate] == ticket.vehicle
  }

  /** Handing out the generator's next value keeps every id below the advanced generator. */
  lemma IdsBelowAfterInsert(ids: set<nat>, next: nat)
    requires IdsBelow(ids, next)
    ensures IdsBelow(ids + {next}, next + 1)
  {
  }

  /** Every open ticket's slot exists and is marked unavailable. */
  ghost predicate OpenTicketsHoldTheirSlots(tickets: map<TicketId, ParkingTicket>, slots: map<SlotId, ParkingSlot>) {
    forall id :: id in tickets && tickets[id].IsOpen() ==>
      tickets[id].slotId in slots && !slots[tickets[id].slotId].available
  }

  /** No two open tickets are for the same plate. */
  ghost predicate OneOpenTicketPerVehicle(tickets: map<TicketId, ParkingTicket>) {
    forall i, j :: i in tickets && j in tickets && tickets[i].IsOpen() && tickets[j].IsOpen() ==>
      (tickets[i].vehicle.licensePlate == tickets[j].vehicle.licensePlate ==> i == j)
  }

  /** No two open tickets are for the same slot. */
  ghost predicate OneOpenTicketPerSlot(tickets: map<TicketId, ParkingTicket>) {
    forall i, j :: i in tickets && j in tickets && tickets[i].IsOpen() && tickets[j].IsOpen() ==>
      (tickets[i].slotId == tickets[j].slotId ==> i == j)
  }

  /** A closed ticket has its fee and an exit time not before its entry. */
  ghost predicate ClosedTicketsSettled(tickets: map<TicketId, ParkingTicket>) {
    forall id :: id in tickets && !tickets[id].IsOpen() ==>
      tickets[id].fee.Some? && tickets[id].entryTime <= tickets[id].exitTime.value
  }

  /** Under the occupancy invariant a free slot has no open ticket, so the slot query can never
      hand out a slot somebody is parked in. */
  lemma FreeSlotHasNoOpenTicket(d: Db, slotId: SlotId)
    requires d.Consistent()
    requires slotId in d.slots && d.slots[slotId].available
    ensures !HasOpenTicketForSlot(d.tickets, slotId)
  {
  }

  /** The vehicle table and the four id generators are the same in both states. */
  predicate KeepsVehiclesAndGenerators(d: Db, d': Db) {
    && d'.vehicles == d.vehicles
    && d'.nextLotId == d.nextLotId && d'.nextLevelId == d.nextLevelId
    && d'.nextSlotId == d.nextSlotId && d'.nextTicketId == d.nextTicketId
  }

  /** The slot row with its `available` flag set (setAvailable followed by save). */
  function SetAvailable(d: Db, slotId: SlotId, available: bool): (d': Db)
    requires slotId in d.slots
    ensures d'.slots.Keys == d.slots.Keys && d'.slots[slotId].available == available
    ensures d'.slots[slotId].slotNumber == d.slots[slotId].slotNumber
    ensures d'.slots[slotId].slotType == d.slots[slotId].slotType
    ensures d'.slots[slotId].levelId == d.slots[slotId].levelId
    ensures forall id :: id in d.slots && id != slotId ==> d'.slots[id] == d.slots[id]
    ensures d'.lots == d.lots && d'.levels == d.levels && d'.tickets == d.tickets
    ensures KeepsVehiclesAndGenerators(d, d')
  {
    d.(slots := d.slots[slotId := d.slots[slotId].(available := available)])
  }

  /** Flipping a slot's flag keeps every reference intact: it changes neither which slots exist
      nor which level a slot is on. */
  lemma SetAvailableKeepsValid(d: Db, slotId: SlotId, available: bool)
    requires d.Valid() && slotId in d.slots
    ensures SetAvailable(d, slotId, available).Valid()
  {
    var d' := SetAvailable(d, slotId, available);
    assert forall s :: s in d'.slots ==> d'.slots[s].levelId == d.slots[s].levelId;
  }

  /** slotRepository.deleteById: the slot row goes, and the owning level's list forgets it. */
  function DeleteSlotRow(d: Db, slotId: SlotId): (d': Db)
    requires slotId in d.slots && d.slots[slotId].levelId in d.levels
    ensures d'.slots.Keys == d.slots.Keys - {slotId}
    ensures forall s :: s in d'.slots ==> d'.slots[s] == d.slots[s]
    ensures d'.levels.Keys == d.levels.Keys && d'.lots == d.lots && d'.tickets == d.tickets
    ensures var owner := d.slots[slotId].levelId;
            && d'.levels[owner] == d.levels[owner].(slotIds := Without(d.levels[owner].slotIds, slotId))
            && forall l :: l in d.levels && l != owner ==> d'.levels[l] == d.levels[l]
    ensures KeepsVehiclesAndGenerators(d, d')
  {
    var levelId := d.slots[slotId].levelId;
    var level := d.levels[levelId];
    d.(slots := d.slots - {slotId},
       levels := d.levels[levelId := level.(slotIds := Without(level.slotIds, slotId))])
  }

  /** levelRepository.deleteById: the level row goes with every slot on it (cascade with orphan
      removal), and the owning lot's list forgets it. */
  function DeleteLevelRow(d: Db, levelId: LevelId): (d': Db)
    requires levelId in d.levels && d.levels[levelId].parkingLotId in d.lots
    ensures d'.levels.Keys == d.levels.Keys - {levelId}
    ensures forall l :: l in d'.levels ==> d'.levels[l] == d.levels[l]
    ensures forall s :: s in d'.slots <==> s in d.slots && d.slots[s].levelId != levelId
    ensures forall s :: s in d'.slots ==> d'.slots[s] == d.slots[s]
    ensures d'.lots.Keys == d.lots.Keys && d'.tickets == d.tickets
    ensures var owner := d.levels[levelId].parkingLotId;
            && d'.lots[owner] == d.lots[owner].(levelIds := Without(d.lots[owner].levelIds, levelId))
            && forall l :: l in d.lots && l != owner ==> d'.lots[l] == d.lots[l]
    ensures KeepsVehiclesAndGenerators(d, d')
  {
    var lotId := d.levels[levelId].parkingLotId;
    var lot := d.lots[lotId];
    d.(levels := d.levels - {levelId},
       slots := map s | s in d.slots && d.slots[s].levelId != levelId :: d.slots[s],
       lots := d.lots[lotId := lot.(levelIds := Without(lot.levelIds, levelId))])
  }

  /** lotRepository.deleteById: the lot row goes with every level of it and every slot on those
      levels (cascade with orphan removal on both lists). */
  function DeleteLotRow(d: Db, lotId: LotId): (d': Db)
    ensures d'.lots.Keys == d.lots.Keys - {lotId}
    ensures forall l :: l in d'.lots ==> d'.lots[l] == d.lots[l]
    ensures forall l :: l in d'.levels <==> l in d.levels && d.levels[l].parkingLotId != lotId
    ensures forall l :: l in d'.levels ==> d'.levels[l] == d.levels[l]
    ensures forall s :: s in d'.slots <==> s in d.slots && d.slots[s].levelId in d'.levels
    ensures forall s :: s in d'.slots ==> d'.slots[s] == d.slots[s]
    ensures d'.tickets == d.tickets
    ensures KeepsVehiclesAndGenerators(d, d')
  {
    var levels' := map l | l in d.levels && d.levels[l].parkingLotId != lotId :: d.levels[l];
    d.(lots := d.lots - {lotId},
       levels := levels',
       slots := map s | s in d.slots && d.slots[s].levelId in levels' :: d.slots[s])
  }

  /** A deletion keeps the store well-formed when it keeps the ownership lists in agreement and
      deletes no slot an open ticket is in: vehicles, tickets and generators are untouched and
      every table only shrinks. */
  lemma ShrinkKeepsValid(d: Db, d': Db)
    requires d.Valid()
    requires d'.vehicles == d.vehicles && d'.tickets == d.tickets
    requires d'.nextLotId == d.nextLotId && d'.nextLevelId == d.nextLevelId
    requires d'.nextSlotId == d.nextSlotId && d'.nextTicketId == d.nextTicketId
    requires d'.lots.Keys <= d.lots.Keys && d'.levels.Keys <= d.levels.Keys && d'.slots.Keys <= d.slots.Keys
    requires LotsOwnLevels(d'.lots, d'.levels) && LevelsOwnSlots(d'.levels, d'.slots)
    requires forall id :: id in d.tickets && d.tickets[id].IsOpen() ==> d.tickets[id].slotId in d'.slots
    ensures d'.Valid()
  {
    assert TicketsReferToRows(d'.vehicles, d'.slots, d'.tickets);
  }

  /** A deletion keeps the occupancy invariant when the tickets stay, every kept slot row is
      unchanged, and every open ticket's slot is kept. */
  lemma ShrinkKeepsConsistent(d: Db, d': Db)
    requires d.Consistent()
    requires d'.tickets == d.tickets
    requires forall s :: s in d'.slots ==> s in d.slots && d'.slots[s] == d.slots[s]
    requires forall id :: id in d.tickets && d.tickets[id].IsOpen() ==> d.tickets[id].slotId in d'.slots
    ensures d'.Consistent()
  {
    assert OpenTicketsHoldTheirSlots(d'.tickets, d'.slots);
  }

  /** The empty database: no rows, every generator at 1. */
  function EmptyDb(): (d: Db)
    ensures d.Valid() && d.Consistent()
  {
    Db(map[], map[], map[], map[], map[], 1, 1, 1, 1)
  }

  /** The shared store behind the vehicle, lot, level, slot and ticket repositories. */
  class ParkingStore {
    var vehicles: map<string, Vehicle>
    var lots: map<LotId, ParkingLot>
    var levels: map<LevelId, Level>
    var slots: map<SlotId, ParkingSlot>
    var tickets: map<TicketId, ParkingTicket>
    var nextLotId: LotId
    var nextLevelId: LevelId
    var nextSlotId: SlotId
    var nextTicketId: TicketId

    /** The current contents of every table. */
    function Snapshot(): Db
      reads this
    {
      Db(vehicles, lots, levels, slots, tickets, nextLotId, nextLevelId, nextSlotId, nextTicketId)
    }

    ghost predicate Valid()
      reads this
    {
      Snapshot().Valid()
    }

    constructor ()
      ensures Snapshot() == EmptyDb()
    {
      vehicles, lots, levels, slots, tickets := map[], map[], map[], map[], map[];
      nextLotId, nextLevelId, nextSlotId, nextTicketId := 1, 1, 1, 1;
    }

    /** Save a vehicle row under its plate. */
    method SaveVehicle(vehicle: Vehicle)
      modifies this
      ensures Snapshot() == old(Snapshot()).(vehicles := old(vehicles)[vehicle.licensePlate := vehicle])
    {
      vehicles := vehicles[vehicle.licensePlate := vehicle];
    }

    /** Insert a new lot under the next generated id. */
    method InsertLot(lot: ParkingLot) returns (id: LotId)
      modifies this
      ensures id == old(nextLotId)
      ensures Snapshot() == old(Snapshot()).(lots := old(lots)[id := lot], nextLotId := id + 1)
    {
      id := nextLotId;
      lots := lots[id := lot];
      nextLotId := nextLotId + 1;
    }

    /** Save a lot row under its id. */
    method SaveLot(id: LotId, lot: ParkingLot)
      modifies this
      ensures Snapshot() == old(Snapshot()).(lots := old(lots)[id := lot])
    {
      lots := lots[id := lot];
    }

    /** Insert a new level under the next generated id. */
    method InsertLevel(level: Level) returns (id: LevelId)
      modifies this
      ensures id == old(nextLevelId)
      ensures Snapshot() == old(Snapshot()).(levels := old(levels)[id := level], nextLevelId := id + 1)
    {
      id := nextLevelId;
      levels := levels[id := level];
      nextLevelId := nextLevelId + 1;
    }

    /** Save a level row under its id. */
    method SaveLevel(id: LevelId, level: Level)
      modifies this
      ensures Snapshot() == old(Snapshot()).(levels := old(levels)[id := level])
    {
      levels := levels[id := level];
    }

    /** Insert a new slot under the next generated id. */
    method InsertSlot(slot: ParkingSlot) returns (id: SlotId)
      modifies this
      ensures id == old(nextSlotId)
      ensures Snapshot() == old(Snapshot()).(slots := old(slots)[id := slot], nextSlotId := id + 1)
    {
      id := nextSlotId;
      slots := slots[id := slot];
      nextSlotId := nextSlotId + 1;
    }

    /** Delete a slot row. */
    method DeleteSlot(slotId: SlotId)
      requires slotId in slots && slots[slotId].levelId in levels
      modifies this
      ensures Snapshot() == DeleteSlotRow(old(Snapshot()), slotId)
    {
      var levelId := slots[slotId].levelId;
      var level := levels[levelId];
      slots := slots - {slotId};
      levels := levels[levelId := level.(slotIds := Without(level.slotIds, slotId))];
    }

    /** Delete a level row and, by cascade, its slots. */
    method DeleteLevel(levelId: LevelId)
      requires levelId in levels && levels[levelId].parkingLotId in lots
      modifies this
      ensures Snapshot() == DeleteLevelRow(old(Snapshot()), levelId)
    {
      var lotId := levels[levelId].parkingLotId;
      var lot := lots[lotId];
      slots := map s | s in slots && slots[s].levelId != levelId :: slots[s];
      levels := levels - {levelId};
      lots := lots[lotId := lot.(levelIds := Without(lot.levelIds, levelId))];
    }

    /** Delete a lot row and, by cascade, its levels and their slots. */
    method DeleteLot(lotId: LotId)
      modifies this
      ensures Snapshot() == DeleteLotRow(old(Snapshot()), lotId)
    {
      var levels' := map l | l in levels && levels[l].parkingLotId != lotId :: levels[l];
      slots := map s | s in slots && slots[s].levelId in levels' :: slots[s];
      levels := levels';
      lots := lots - {lotId};
    }

    /** Save a slot row under its id. */
    method SaveSlot(id: SlotId, slot: ParkingSlot)
      modifies this
      ensures Snapshot() == old(Snapshot()).(slots := old(slots)[id := slot])
    {
      slots := slots[id := slot];
    }

    /** Insert a new ticket under the next generated id. */
    method InsertTicket(ticket: ParkingTicket) returns (id: TicketId)
      modifies this
      ensures id == old(nextTicketId)
      ensures Snapshot() == old(Snapshot()).(tickets := old(tickets)[id := ticket], nextTicketId := id + 1)
    {
      id := nextTicketId;
      tickets := tickets[id := ticket];
      nextTicketId := nextTicketId + 1;
    }

    /** Save an existing ticket row under its id. */
    method SaveTicket(id: TicketId, ticket: ParkingTicket)
      modifies this
      ensures Snapshot() == old(Snapshot()).(tickets := old(tickets)[id := ticket])
    {
      tickets := tickets[id := ticket];
    }
  }
}
