/** The persistent entities as rows: a parking lot owns levels, a level owns slots, a ticket
    records one vehicle's stay in one slot. Every table is keyed by the entity's id, so two rows are
    the same entity exactly when their ids are equal (the entities' equals and hashCode use only the
    id). A reference to another entity is that entity's id. */
module Entities {
  import opened Wrappers
  import opened Vehicles

  type SlotId = nat
  type LevelId = nat
  type LotId = nat
  type TicketId = nat

  /** Slot classes, in the order the code names them. */
  datatype SlotType = MOTORCYCLE | COMPACT | LARGE | HANDICAPPED

  /** A parking slot: its number on the level, its class, whether it is free, and its level. */
  datatype ParkingSlot = ParkingSlot(slotNumber: string, slotType: SlotType, available: bool, levelId: LevelId)

  /** The three-argument ParkingSlot constructor: the given number, class and level, and free (the
      field initialiser of `available`). */
  function NewSlot(slotNumber: string, slotType: SlotType, levelId: LevelId): (slot: ParkingSlot)
    ensures slot.available
    ensures slot.slotNumber == slotNumber && slot.slotType == slotType && slot.levelId == levelId
  {
    ParkingSlot(slotNumber, slotType, true, levelId)
  }

  /** SlotFactory.createSlot: a new slot object filled in by four setters, the last one making it
      available. It touches no level: appending the slot to its level is the caller's job. */
  method CreateSlot(slotNumber: string, slotType: SlotType, levelId: LevelId) returns (slot: ParkingSlot)
    ensures slot == NewSlot(slotNumber, slotType, levelId)
  {
    slot := ParkingSlot("", SlotType.COMPACT, false, 0);
    slot := slot.(slotNumber := slotNumber);
    slot := slot.(slotType := slotType);
    slot := slot.(levelId := levelId);
    slot := slot.(available := true);
  }

  /** A level: its floor number, its lot, and its slots in insertion order. */
  datatype Level = Level(floorNumber: int, parkingLotId: LotId, slotIds: seq<SlotId>)
  {
    /** Level.addSlot on the list side: append at the end, earlier entries kept in order. (The
        slot's back-reference is its own `levelId`.) */
    function AddSlot(slotId: SlotId): (level: Level)
      ensures |level.slotIds| == |slotIds| + 1 && level.slotIds[..|slotIds|] == slotIds
      ensures level.slotIds[|slotIds|] == slotId
      ensures level.floorNumber == floorNumber && level.parkingLotId == parkingLotId
    {
      this.(slotIds := slotIds + [slotId])
    }
  }

  /** A new level with a floor number, pointing to its lot, with an empty slot list. */
  function NewLevel(floorNumber: int, parkingLotId: LotId): (level: Level)
    ensures level.slotIds == [] && level.floorNumber == floorNumber && level.parkingLotId == parkingLotId
  {
    Level(floorNumber, parkingLotId, [])
  }

  /** A parking lot: its (unique) name and its levels in insertion order. */
  datatype ParkingLot = ParkingLot(name: string, levelIds: seq<LevelId>)
  {
    /** ParkingLot.addLevel on the list side: append at the end, earlier levels kept in order. */
    function AddLevel(levelId: LevelId): (lot: ParkingLot)
      ensures |lot.levelIds| == |levelIds| + 1 && lot.levelIds[..|levelIds|] == levelIds
      ensures lot.levelIds[|levelIds|] == levelId
      ensures lot.name == name
    {
      this.(levelIds := levelIds + [levelId])
    }
  }

  /** The name constructor of ParkingLot: the given name and no levels. */
  function NewLot(name: string): (lot: ParkingLot)
    ensures lot.name == name && lot.levelIds == []
  {
    ParkingLot(name, [])
  }

  /** A parking ticket: vehicle, slot and entry time are always set; exit time and fee are set
      together when the stay ends. */
  datatype ParkingTicket = ParkingTicket(
    vehicle: Vehicle,
    slotId: SlotId,
    entryTime: int,
    exitTime: Option<int>,
    fee: Option<int>)
  {
    /** A ticket is open iff it has no exit time. */
    predicate IsOpen() {
      exitTime.None?
    }
  }

  /** ParkingTicket.getLevelNumber: the floor number of the ticket's slot's level when both the
      slot and its level are present, and null otherwise. */
  function GetLevelNumber(ticket: ParkingTicket, slots: map<SlotId, ParkingSlot>, levels: map<LevelId, Level>)
    : (floor: Option<int>)
    ensures floor.Some? <==> ticket.slotId in slots && slots[ticket.slotId].levelId in levels
    ensures floor.Some? ==> floor.value == levels[slots[ticket.slotId].levelId].floorNumber
  {
    if ticket.slotId in slots && slots[ticket.slotId].levelId in levels
    then Some(levels[slots[ticket.slotId].levelId].floorNumber)
    else None
  }

  /** The sequence `s` without any occurrence of `x`, order kept. */
  function Without(s: seq<nat>, x: nat): (r: seq<nat>)
    ensures forall y :: y in r <==> y in s && y != x
  {
    if s == [] then []
    else if s[0] == x then Without(s[1..], x)
    else [s[0]] + Without(s[1..], x)
  }
}
