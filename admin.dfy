/** The administrative service: creating and removing lots, levels and slots, and switching a
    slot's availability by hand. Every removal is guarded by the open tickets of the slots it would
    delete; making a slot unavailable is guarded the same way, making it available is not. */
module Admin {
  import opened Wrappers
  import opened Errors
  import opened Entities
  import opened Repositories
  import opened Store

  // ----- Occupancy guards -----

  /** Some slot in the list has an open ticket. */
  predicate AnyOccupied(tickets: map<TicketId, ParkingTicket>, slotIds: seq<SlotId>) {
    exists s :: s in slotIds && HasOpenTicketForSlot(tickets, s)
  }

  /** Some slot on some level in the list has an open ticket. */
  predicate AnyLevelOccupied(tickets: map<TicketId, ParkingTicket>, levels: map<LevelId, Level>, levelIds: seq<LevelId>) {
    exists l :: l in levelIds && l in levels && AnyOccupied(tickets, levels[l].slotIds)
  }

  /** The stream over a level's slots, anyMatch on the open-ticket query: scan the list and stop at
      the first occupied slot. */
  method SlotsHaveTickets(tickets: map<TicketId, ParkingTicket>, slotIds: seq<SlotId>) returns (occupied: bool)
    ensures occupied <==> AnyOccupied(tickets, slotIds)
  {
    var i := 0;
    while i < |slotIds|
      invariant 0 <= i <= |slotIds|
      invariant forall k :: 0 <= k < i ==> !HasOpenTicketForSlot(tickets, slotIds[k])
    {
      if HasOpenTicketForSlot(tickets, slotIds[i]) {
        return true;
      }
      i := i + 1;
    }
    return false;
  }

  /** The stream over a lot's levels flattened to their slots, anyMatch on the open-ticket query. */
  method LevelsHaveTickets(tickets: map<TicketId, ParkingTicket>, levels: map<LevelId, Level>, levelIds: seq<LevelId>)
    returns (occupied: bool)
    ensures occupied <==> AnyLevelOccupied(tickets, levels, levelIds)
  {
    var i := 0;
    while i < |levelIds|
      invariant 0 <= i <= |levelIds|
      invariant forall k :: 0 <= k < i && levelIds[k] in levels ==> !AnyOccupied(tickets, levels[levelIds[k]].slotIds)
    {
      if levelIds[i] in levels {
        occupied := SlotsHaveTickets(tickets, levels[levelIds[i]].slotIds);
        if occupied {
          return;
        }
      }
      i := i + 1;
    }
    return false;
  }

  /** A slot of the given lot: its level exists and belongs to the lot. */
  predicate InLot(d: Db, lotId: LotId, s: SlotId)
    requires s in d.slots
  {
    d.slots[s].levelId in d.levels && d.levels[d.slots[s].levelId].parkingLotId == lotId
  }

  /** The lot guard sees exactly the slots the cascade deletes: its levels' lists hold an occupied
      slot iff some slot of the lot has an open ticket. */
  lemma LotGuardCoversCascade(d: Db, lotId: LotId)
    requires d.Valid() && lotId in d.lots
    ensures AnyLevelOccupied(d.tickets, d.levels, d.lots[lotId].levelIds)
        <==> exists s :: s in d.slots && InLot(d, lotId, s) && HasOpenTicketForSlot(d.tickets, s)
  {
    if exists s :: s in d.slots && InLot(d, lotId, s) && HasOpenTicketForSlot(d.tickets, s) {
      var s :| s in d.slots && InLot(d, lotId, s) && HasOpenTicketForSlot(d.tickets, s);
      var l := d.slots[s].levelId;
      assert LotsOwnLevels(d.lots, d.levels) && LevelsOwnSlots(d.levels, d.slots);
      assert l in d.lots[lotId].levelIds && s in d.levels[l].slotIds;
    }
    if AnyLevelOccupied(d.tickets, d.levels, d.lots[lotId].levelIds) {
      var l :| l in d.lots[lotId].levelIds && l in d.levels && AnyOccupied(d.tickets, d.levels[l].slotIds);
      var s :| s in d.levels[l].slotIds && HasOpenTicketForSlot(d.tickets, s);
      assert LotsOwnLevels(d.lots, d.levels) && LevelsOwnSlots(d.levels, d.slots);
      assert s in d.slots && InLot(d, lotId, s);
    }
  }

  /** The level guard sees exactly the slots the cascade deletes. */
  lemma LevelGuardCoversCascade(d: Db, levelId: LevelId)
    requires d.Valid() && levelId in d.levels
    ensures AnyOccupied(d.tickets, d.levels[levelId].slotIds)
        <==> exists s :: s in d.slots && d.slots[s].levelId == levelId && HasOpenTicketForSlot(d.tickets, s)
  {
    assert LevelsOwnSlots(d.levels, d.slots);
  }

  // ----- Specification of each operation on the tables -----

  /** A lot with this name is stored. */
  predicate NameTaken(lots: map<LotId, ParkingLot>, name: string) {
    exists id :: id in lots && lots[id].name == name
  }

  /** No two lots share a name (the unique constraint on the lot name column). */
  ghost predicate LotNamesUnique(lots: map<LotId, ParkingLot>) {
    forall i, j :: i in lots && j in lots && lots[i].name == lots[j].name ==> i == j
  }

  /** createLot: a new lot with the name and no levels under the next id; the unique constraint on
      the name rejects a name already stored. */
  function CreateLotStep(d: Db, name: string): (out: (Result<LotId, ParkingError>, Db))
    ensures out.0 == Err(DataIntegrityViolation) <==> NameTaken(d.lots, name)
    ensures out.0.Err? ==> out.0 == Err(DataIntegrityViolation) && out.1 == d
    ensures out.0.Ok? ==> out.0.value == d.nextLotId
                          && out.1 == d.(lots := d.lots[out.0.value := NewLot(name)], nextLotId := d.nextLotId + 1)
  {
    if NameTaken(d.lots, name) then (Err(DataIntegrityViolation), d)
    else (Ok(d.nextLotId), d.(lots := d.lots[d.nextLotId := NewLot(name)], nextLotId := d.nextLotId + 1))
  }

  /** removeLot: a missing lot is not found; a lot with an open ticket on any slot of any of its
      levels is refused and nothing is deleted; otherwise the lot goes with its levels and their
      slots. */
  function RemoveLotStep(d: Db, lotId: LotId): (out: (Outcome<ParkingError>, Db))
    ensures out.0 == Fail(ResourceNotFound) <==> lotId !in d.lots
    ensures out.0 == Fail(SlotOccupied)
        <==> lotId in d.lots && AnyLevelOccupied(d.tickets, d.levels, d.lots[lotId].levelIds)
    ensures out.0.Fail? ==> out.1 == d
    ensures out.0.Pass? ==> out.1 == DeleteLotRow(d, lotId)
  {
    if lotId !in d.lots then (Fail(ResourceNotFound), d)
    else if AnyLevelOccupied(d.tickets, d.levels, d.lots[lotId].levelIds) then (Fail(SlotOccupied), d)
    else (Pass, DeleteLotRow(d, lotId))
  }

  /** addLevel: a missing lot is not found; otherwise a new level with the floor number, pointing to
      the lot, under the next id, appended to the lot's levels. Floor numbers are not checked for
      duplicates. */
  function AddLevelStep(d: Db, lotId: LotId, floorNumber: int): (out: (Result<LevelId, ParkingError>, Db))
    ensures out.0 == Err(ResourceNotFound) <==> lotId !in d.lots
    ensures out.0.Err? ==> out.0 == Err(ResourceNotFound) && out.1 == d
    ensures out.0.Ok? ==>
              && out.0.value == d.nextLevelId
              && out.1 == d.(levels := d.levels[out.0.value := NewLevel(floorNumber, lotId)],
                             lots := d.lots[lotId := d.lots[lotId].AddLevel(out.0.value)],
                             nextLevelId := d.nextLevelId + 1)
  {
    if lotId !in d.lots then (Err(ResourceNotFound), d)
    else
      var id := d.nextLevelId;
      (Ok(id), d.(levels := d.levels[id := NewLevel(floorNumber, lotId)],
                  lots := d.lots[lotId := d.lots[lotId].AddLevel(id)],
                  nextLevelId := id + 1))
  }

  /** removeLevel: a missing level is not found; a level with an open ticket on any of its slots is
      refused and nothing is deleted; otherwise the level goes with its slots. */
  function RemoveLevelStep(d: Db, levelId: LevelId): (out: (Outcome<ParkingError>, Db))
    requires d.Valid()
    ensures out.0 == Fail(ResourceNotFound) <==> levelId !in d.levels
    ensures out.0 == Fail(SlotOccupied) <==> levelId in d.levels && AnyOccupied(d.tickets, d.levels[levelId].slotIds)
    ensures out.0.Fail? ==> out.1 == d
    ensures out.0.Pass? ==> levelId in d.levels && d.levels[levelId].parkingLotId in d.lots
                            && out.1 == DeleteLevelRow(d, levelId)
  {
    if levelId !in d.levels then (Fail(ResourceNotFound), d)
    else if AnyOccupied(d.tickets, d.levels[levelId].slotIds) then (Fail(SlotOccupied), d)
    else
      assert LotsOwnLevels(d.lots, d.levels);
      (Pass, DeleteLevelRow(d, levelId))
  }

  /** addSlot: a missing level is not found; otherwise the factory's new available slot, pointing
      to the level, under the next id, appended to the level's slots. */
  function AddSlotStep(d: Db, levelId: LevelId, slotNumber: string, slotType: SlotType)
    : (out: (Result<SlotId, ParkingError>, Db))
    ensures out.0 == Err(ResourceNotFound) <==> levelId !in d.levels
    ensures out.0.Err? ==> out.0 == Err(ResourceNotFound) && out.1 == d
    ensures out.0.Ok? ==>
              && out.0.value == d.nextSlotId
              && out.1 == d.(slots := d.slots[out.0.value := NewSlot(slotNumber, slotType, levelId)],
                             levels := d.levels[levelId := d.levels[levelId].AddSlot(out.0.value)],
                             nextSlotId := d.nextSlotId + 1)
  {
    if levelId !in d.levels then (Err(ResourceNotFound), d)
    else
      var id := d.nextSlotId;
      (Ok(id), d.(slots := d.slots[id := NewSlot(slotNumber, slotType, levelId)],
                  levels := d.levels[levelId := d.levels[levelId].AddSlot(id)],
                  nextSlotId := id + 1))
  }

  /** removeSlot: existence is checked first, then occupancy; an occupied slot is refused and not
      deleted. */
  function RemoveSlotStep(d: Db, slotId: SlotId): (out: (Outcome<ParkingError>, Db))
    requires d.Valid()
    ensures out.0 == Fail(ResourceNotFound) <==> slotId !in d.slots
    ensures out.0 == Fail(SlotOccupied) <==> slotId in d.slots && HasOpenTicketForSlot(d.tickets, slotId)
    ensures out.0.Fail? ==> out.1 == d
    ensures out.0.Pass? ==> slotId in d.slots && d.slots[slotId].levelId in d.levels
                            && out.1 == DeleteSlotRow(d, slotId)
  {
    if slotId !in d.slots then (Fail(ResourceNotFound), d)
    else if HasOpenTicketForSlot(d.tickets, slotId) then (Fail(SlotOccupied), d)
    else
      assert LevelsOwnSlots(d.levels, d.slots);
      (Pass, DeleteSlotRow(d, slotId))
  }

  /** updateSlotAvailability: a missing slot is not found; making an occupied slot unavailable is
      refused; otherwise the flag becomes exactly the requested value and the saved slot is
      returned. Making a slot available is never refused. */
  function UpdateSlotAvailabilityStep(d: Db, slotId: SlotId, available: bool)
    : (out: (Result<ParkingSlot, ParkingError>, Db))
    ensures out.0 == Err(ResourceNotFound) <==> slotId !in d.slots
    ensures out.0 == Err(SlotOccupied) <==> slotId in d.slots && !available && HasOpenTicketForSlot(d.tickets, slotId)
    ensures out.0.Err? ==> out.1 == d
    ensures out.0.Ok? ==> slotId in d.slots && out.1 == SetAvailable(d, slotId, available)
    ensures out.0.Ok? ==> out.0.value == d.slots[slotId].(available := available) && out.1.slots[slotId] == out.0.value
  {
    if slotId !in d.slots then (Err(ResourceNotFound), d)
    else if !available && HasOpenTicketForSlot(d.tickets, slotId) then (Err(SlotOccupied), d)
    else
      var slot := d.slots[slotId].(available := available);
      (Ok(slot), SetAvailable(d, slotId, available))
  }

  // ----- What the operations preserve -----

  /** A created lot is new: its id was not in use, so no stored lot is overwritten. */
  lemma CreateLotKeepsValid(d: Db, name: string)
    requires d.Valid()
    ensures var (r, d') := CreateLotStep(d, name);
            && d'.Valid()
            && (r.Ok? ==> r.value !in d.lots && d'.lots[r.value].name == name && d'.lots[r.value].levelIds == [])
  {
    var (r, d') := CreateLotStep(d, name);
    if r.Ok? {
      IdsBelowAfterInsert(d.lots.Keys, d.nextLotId);
      assert d'.lots.Keys == d.lots.Keys + {d.nextLotId};
      assert LotsOwnLevels(d'.lots, d'.levels);
    }
  }

  /** The name check keeps lot names unique, and a stored name is never created twice. */
  lemma CreateLotKeepsNamesUnique(d: Db, name: string)
    requires LotNamesUnique(d.lots)
    ensures LotNamesUnique(CreateLotStep(d, name).1.lots)
  {
    var (r, d') := CreateLotStep(d, name);
    if r.Ok? {
      forall i | i in d.lots
        ensures d.lots[i].name != name
      {
      }
    }
  }

  /** Removing a lot keeps the store well-formed: the guard has made sure that no open ticket is in
      a slot the cascade deletes. */
  lemma RemoveLotKeepsValid(d: Db, lotId: LotId)
    requires d.Valid()
    ensures RemoveLotStep(d, lotId).1.Valid()
  {
    if RemoveLotStep(d, lotId).0.Pass? {
      LotGuardCoversCascade(d, lotId);
      DeleteLotKeepsValid(d, lotId);
    }
  }

  lemma DeleteLotKeepsValid(d: Db, lotId: LotId)
    requires d.Valid()
    requires forall s :: s in d.slots && InLot(d, lotId, s) ==> !HasOpenTicketForSlot(d.tickets, s)
    ensures DeleteLotRow(d, lotId).Valid()
  {
    DeleteLotKeepsLotsOwnLevels(d, lotId);
    DeleteLotKeepsLevelsOwnSlots(d, lotId);
    DeleteLotKeepsOpenTicketSlots(d, lotId);
    ShrinkKeepsValid(d, DeleteLotRow(d, lotId));
  }

  /** The lot's levels go with it, so every remaining level's lot remains and lists it. */
  lemma DeleteLotKeepsLotsOwnLevels(d: Db, lotId: LotId)
    requires LotsOwnLevels(d.lots, d.levels)
    ensures LotsOwnLevels(DeleteLotRow(d, lotId).lots, DeleteLotRow(d, lotId).levels)
  {
    var d' := DeleteLotRow(d, lotId);
    forall l | l in d'.levels
      ensures d'.levels[l].parkingLotId in d'.lots && l in d'.lots[d'.levels[l].parkingLotId].levelIds
    {
      var lot := d.levels[l].parkingLotId;
      assert lot != lotId && d'.lots[lot] == d.lots[lot];
    }
    forall lot, l | lot in d'.lots && l in d'.lots[lot].levelIds
      ensures l in d'.levels && d'.levels[l].parkingLotId == lot
    {
      assert d'.lots[lot] == d.lots[lot];
    }
  }

  /** The slots of the deleted levels go with them, so every remaining level keeps its slots. */
  lemma DeleteLotKeepsLevelsOwnSlots(d: Db, lotId: LotId)
    requires LevelsOwnSlots(d.levels, d.slots)
    ensures LevelsOwnSlots(DeleteLotRow(d, lotId).levels, DeleteLotRow(d, lotId).slots)
  {
    var d' := DeleteLotRow(d, lotId);
    forall l, s | l in d'.levels && s in d'.levels[l].slotIds
      ensures s in d'.slots && d'.slots[s].levelId == l
    {
      assert d'.levels[l] == d.levels[l];
    }
  }

  /** When no slot of the lot has an open ticket, every open ticket's slot survives the cascade. */
  lemma DeleteLotKeepsOpenTicketSlots(d: Db, lotId: LotId)
    requires LevelsOwnSlots(d.levels, d.slots) && TicketsReferToRows(d.vehicles, d.slots, d.tickets)
    requires forall s :: s in d.slots && InLot(d, lotId, s) ==> !HasOpenTicketForSlot(d.tickets, s)
    ensures forall id :: id in d.tickets && d.tickets[id].IsOpen() ==> d.tickets[id].slotId in DeleteLotRow(d, lotId).slots
  {
    var d' := DeleteLotRow(d, lotId);
    forall id | id in d.tickets && d.tickets[id].IsOpen()
      ensures d.tickets[id].slotId in d'.slots
    {
      var s := d.tickets[id].slotId;
      assert s in d.slots && d.slots[s].levelId in d.levels;
      if InLot(d, lotId, s) {
        assert HasOpenTicketForSlot(d.tickets, s);
      }
    }
  }

  /** Removing a lot keeps the occupancy invariant: the open tickets and their slots stay. */
  lemma RemoveLotKeepsConsistent(d: Db, lotId: LotId)
    requires d.Valid() && d.Consistent()
    ensures RemoveLotStep(d, lotId).1.Consistent()
  {
    var d' := RemoveLotStep(d, lotId).1;
    RemoveLotKeepsValid(d, lotId);
    assert TicketsReferToRows(d'.vehicles, d'.slots, d'.tickets);
    ShrinkKeepsConsistent(d, d');
  }

  /** Adding a level keeps the store well-formed: the new level is listed by its lot, at the end. */
  lemma AddLevelKeepsValid(d: Db, lotId: LotId, floorNumber: int)
    requires d.Valid()
    ensures var (r, d') := AddLevelStep(d, lotId, floorNumber);
            && d'.Valid()
            && (r.Ok? ==> r.value !in d.levels && d'.levels[r.value].parkingLotId == lotId
                          && d'.lots[lotId].levelIds == d.lots[lotId].levelIds + [r.value])
  {
    var (r, d') := AddLevelStep(d, lotId, floorNumber);
    if r.Ok? {
      IdsBelowAfterInsert(d.levels.Keys, d.nextLevelId);
      assert d'.levels.Keys == d.levels.Keys + {r.value};
      AddLevelKeepsLotsOwnLevels(d, lotId, floorNumber);
      AddLevelKeepsLevelsOwnSlots(d, lotId, floorNumber);
      assert TicketsReferToRows(d'.vehicles, d'.slots, d'.tickets);
    }
  }

  /** The new level is listed by its lot, and every earlier level stays listed by its own. */
  lemma AddLevelKeepsLotsOwnLevels(d: Db, lotId: LotId, floorNumber: int)
    requires LotsOwnLevels(d.lots, d.levels) && IdsBelow(d.levels.Keys, d.nextLevelId) && lotId in d.lots
    ensures var d' := AddLevelStep(d, lotId, floorNumber).1;
            LotsOwnLevels(d'.lots, d'.levels)
  {
    var d' := AddLevelStep(d, lotId, floorNumber).1;
    var id := d.nextLevelId;
    forall l | l in d'.levels
      ensures d'.levels[l].parkingLotId in d'.lots && l in d'.lots[d'.levels[l].parkingLotId].levelIds
    {
      if l != id {
        assert l in d.lots[d.levels[l].parkingLotId].levelIds;
      }
    }
    forall lot, l | lot in d'.lots && l in d'.lots[lot].levelIds
      ensures l in d'.levels && d'.levels[l].parkingLotId == lot
    {
      if lot != lotId {
        assert d'.lots[lot] == d.lots[lot];
        assert l in d.levels;
      } else if l != id {
        assert d'.lots[lot].levelIds == d.lots[lot].levelIds + [id];
        assert l in d.lots[lot].levelIds;
      }
    }
  }

  /** The new level has no slots, and no slot points to its fresh id. */
  lemma AddLevelKeepsLevelsOwnSlots(d: Db, lotId: LotId, floorNumber: int)
    requires LevelsOwnSlots(d.levels, d.slots) && IdsBelow(d.levels.Keys, d.nextLevelId) && lotId in d.lots
    ensures var d' := AddLevelStep(d, lotId, floorNumber).1;
            LevelsOwnSlots(d'.levels, d'.slots)
  {
    var d' := AddLevelStep(d, lotId, floorNumber).1;
    forall l, s | l in d'.levels && s in d'.levels[l].slotIds
      ensures s in d'.slots && d'.slots[s].levelId == l
    {
      assert l != d.nextLevelId;
    }
  }

  /** Removing a level keeps the store well-formed. */
  lemma RemoveLevelKeepsValid(d: Db, levelId: LevelId)
    requires d.Valid()
    ensures RemoveLevelStep(d, levelId).1.Valid()
  {
    if RemoveLevelStep(d, levelId).0.Pass? {
      LevelGuardCoversCascade(d, levelId);
      DeleteLevelKeepsValid(d, levelId);
    }
  }

  lemma DeleteLevelKeepsValid(d: Db, levelId: LevelId)
    requires d.Valid() && levelId in d.levels && d.levels[levelId].parkingLotId in d.lots
    requires forall s :: s in d.slots && d.slots[s].levelId == levelId ==> !HasOpenTicketForSlot(d.tickets, s)
    ensures DeleteLevelRow(d, levelId).Valid()
  {
    DeleteLevelKeepsLotsOwnLevels(d, levelId);
    DeleteLevelKeepsLevelsOwnSlots(d, levelId);
    DeleteLevelKeepsOpenTicketSlots(d, levelId);
    ShrinkKeepsValid(d, DeleteLevelRow(d, levelId));
  }

  /** The lot's list forgets the deleted level and every other level stays listed by its lot. */
  /** Dropping one level row, and that level from its owner's list, keeps every other lot and
      level in agreement. */
  lemma DroppingLevelKeepsLotsOwnLevels(lots: map<LotId, ParkingLot>, levels: map<LevelId, Level>,
                                        lots': map<LotId, ParkingLot>, levels': map<LevelId, Level>,
                                        levelId: LevelId, owner: LotId)
    requires LotsOwnLevels(lots, levels) && levelId in levels && levels[levelId].parkingLotId == owner
    requires levels'.Keys == levels.Keys - {levelId} && forall l :: l in levels' ==> levels'[l] == levels[l]
    requires lots'.Keys == lots.Keys && lots'[owner].levelIds == Without(lots[owner].levelIds, levelId)
    requires forall lot :: lot in lots && lot != owner ==> lots'[lot] == lots[lot]
    ensures LotsOwnLevels(lots', levels')
  {
    RemainingLevelsStayListed(lots, levels, lots', levels', levelId, owner);
    ListedLevelsRemain(lots, levels, lots', levels', levelId, owner);
  }

  /** Every level that survives the drop is still listed by its lot. */
  lemma RemainingLevelsStayListed(lots: map<LotId, ParkingLot>, levels: map<LevelId, Level>,
                                  lots': map<LotId, ParkingLot>, levels': map<LevelId, Level>,
                                  levelId: LevelId, owner: LotId)
    requires LotsOwnLevels(lots, levels) && owner in lots
    requires levels'.Keys == levels.Keys - {levelId} && forall l :: l in levels' ==> levels'[l] == levels[l]
    requires lots'.Keys == lots.Keys && lots'[owner].levelIds == Without(lots[owner].levelIds, levelId)
    requires forall lot :: lot in lots && lot != owner ==> lots'[lot] == lots[lot]
    ensures forall l :: l in levels' ==> levels'[l].parkingLotId in lots' && l in lots'[levels'[l].parkingLotId].levelIds
  {
    forall l | l in levels'
      ensures levels'[l].parkingLotId in lots' && l in lots'[levels'[l].parkingLotId].levelIds
    {
      var lot := levels[l].parkingLotId;
      assert l in lots[lot].levelIds && l != levelId;
      if lot == owner {
        assert l in Without(lots[owner].levelIds, levelId);
      }
    }
  }

  /** Every level a lot still lists after the drop survived it and belongs to that lot. */
  lemma ListedLevelsRemain(lots: map<LotId, ParkingLot>, levels: map<LevelId, Level>,
                           lots': map<LotId, ParkingLot>, levels': map<LevelId, Level>,
                           levelId: LevelId, owner: LotId)
    requires LotsOwnLevels(lots, levels) && levelId in levels && levels[levelId].parkingLotId == owner
    requires levels'.Keys == levels.Keys - {levelId} && forall l :: l in levels' ==> levels'[l] == levels[l]
    requires lots'.Keys == lots.Keys && lots'[owner].levelIds == Without(lots[owner].levelIds, levelId)
    requires forall lot :: lot in lots && lot != owner ==> lots'[lot] == lots[lot]
    ensures forall lot, l :: lot in lots' && l in lots'[lot].levelIds ==> l in levels' && levels'[l].parkingLotId == lot
  {
    forall lot, l | lot in lots' && l in lots'[lot].levelIds
      ensures l in levels' && levels'[l].parkingLotId == lot
    {
      if lot == owner {
        assert l in Without(lots[owner].levelIds, levelId);
      } else {
        assert lots'[lot] == lots[lot];
      }
      assert l in lots[lot].levelIds && l != levelId;
    }
  }

  lemma DeleteLevelKeepsLotsOwnLevels(d: Db, levelId: LevelId)
    requires LotsOwnLevels(d.lots, d.levels) && levelId in d.levels && d.levels[levelId].parkingLotId in d.lots
    ensures LotsOwnLevels(DeleteLevelRow(d, levelId).lots, DeleteLevelRow(d, levelId).levels)
  {
    var d' := DeleteLevelRow(d, levelId);
    DroppingLevelKeepsLotsOwnLevels(d.lots, d.levels, d'.lots, d'.levels, levelId, d.levels[levelId].parkingLotId);
  }

  /** The deleted level's slots go with it and every other level keeps its slots. */
  lemma DeleteLevelKeepsLevelsOwnSlots(d: Db, levelId: LevelId)
    requires LevelsOwnSlots(d.levels, d.slots) && levelId in d.levels && d.levels[levelId].parkingLotId in d.lots
    ensures LevelsOwnSlots(DeleteLevelRow(d, levelId).levels, DeleteLevelRow(d, levelId).slots)
  {
    var d' := DeleteLevelRow(d, levelId);
    forall l, s | l in d'.levels && s in d'.levels[l].slotIds
      ensures s in d'.slots && d'.slots[s].levelId == l
    {
      assert d'.levels[l] == d.levels[l];
    }
  }

  /** When no slot of the level has an open ticket, every open ticket's slot survives the cascade. */
  lemma DeleteLevelKeepsOpenTicketSlots(d: Db, levelId: LevelId)
    requires TicketsReferToRows(d.vehicles, d.slots, d.tickets) && levelId in d.levels && d.levels[levelId].parkingLotId in d.lots
    requires forall s :: s in d.slots && d.slots[s].levelId == levelId ==> !HasOpenTicketForSlot(d.tickets, s)
    ensures forall id :: id in d.tickets && d.tickets[id].IsOpen() ==> d.tickets[id].slotId in DeleteLevelRow(d, levelId).slots
  {
    var d' := DeleteLevelRow(d, levelId);
    forall id | id in d.tickets && d.tickets[id].IsOpen()
      ensures d.tickets[id].slotId in d'.slots
    {
      var s := d.tickets[id].slotId;
      assert s in d.slots;
      if d.slots[s].levelId == levelId {
        assert HasOpenTicketForSlot(d.tickets, s);
      }
    }
  }

  /** Removing a level keeps the occupancy invariant. */
  lemma RemoveLevelKeepsConsistent(d: Db, levelId: LevelId)
    requires d.Valid() && d.Consistent()
    ensures RemoveLevelStep(d, levelId).1.Consistent()
  {
    var d' := RemoveLevelStep(d, levelId).1;
    RemoveLevelKeepsValid(d, levelId);
    assert TicketsReferToRows(d'.vehicles, d'.slots, d'.tickets);
    ShrinkKeepsConsistent(d, d');
  }

  /** Adding a slot keeps the store well-formed: the new slot is listed by its level, at the end,
      and it is free. */
  lemma AddSlotKeepsValid(d: Db, levelId: LevelId, slotNumber: string, slotType: SlotType)
    requires d.Valid()
    ensures var (r, d') := AddSlotStep(d, levelId, slotNumber, slotType);
            && d'.Valid()
            && (r.Ok? ==> r.value !in d.slots && d'.slots[r.value].available && d'.slots[r.value].levelId == levelId
                          && d'.levels[levelId].slotIds == d.levels[levelId].slotIds + [r.value])
  {
    var (r, d') := AddSlotStep(d, levelId, slotNumber, slotType);
    if r.Ok? {
      IdsBelowAfterInsert(d.slots.Keys, d.nextSlotId);
      assert d'.slots.Keys == d.slots.Keys + {r.value};
      AddSlotKeepsLotsOwnLevels(d, levelId, slotNumber, slotType);
      AddSlotKeepsLevelsOwnSlots(d, levelId, slotNumber, slotType);
      AddSlotKeepsTicketRows(d, levelId, slotNumber, slotType);
    }
  }

  /** Appending a slot changes no level's lot. */
  lemma AddSlotKeepsLotsOwnLevels(d: Db, levelId: LevelId, slotNumber: string, slotType: SlotType)
    requires LotsOwnLevels(d.lots, d.levels) && levelId in d.levels
    ensures var d' := AddSlotStep(d, levelId, slotNumber, slotType).1;
            LotsOwnLevels(d'.lots, d'.levels)
  {
    var d' := AddSlotStep(d, levelId, slotNumber, slotType).1;
    assert forall l :: l in d'.levels ==> d'.levels[l].parkingLotId == d.levels[l].parkingLotId;
  }

  /** The new slot is listed by its level, and every earlier slot stays listed by its own. */
  lemma AddSlotKeepsLevelsOwnSlots(d: Db, levelId: LevelId, slotNumber: string, slotType: SlotType)
    requires LevelsOwnSlots(d.levels, d.slots) && IdsBelow(d.slots.Keys, d.nextSlotId) && levelId in d.levels
    ensures var d' := AddSlotStep(d, levelId, slotNumber, slotType).1;
            LevelsOwnSlots(d'.levels, d'.slots)
  {
    var d' := AddSlotStep(d, levelId, slotNumber, slotType).1;
    var id := d.nextSlotId;
    forall s | s in d'.slots
      ensures d'.slots[s].levelId in d'.levels && s in d'.levels[d'.slots[s].levelId].slotIds
    {
      if s != id {
        assert s in d.levels[d.slots[s].levelId].slotIds;
      }
    }
    forall l, s | l in d'.levels && s in d'.levels[l].slotIds
      ensures s in d'.slots && d'.slots[s].levelId == l
    {
      if l != levelId {
        assert d'.levels[l] == d.levels[l];
        assert s in d.slots;
      } else if s != id {
        assert d'.levels[l].slotIds == d.levels[l].slotIds + [id];
        assert s in d.levels[l].slotIds;
      }
    }
  }

  /** Adding a slot keeps every ticket's references. */
  lemma AddSlotKeepsTicketRows(d: Db, levelId: LevelId, slotNumber: string, slotType: SlotType)
    requires TicketsReferToRows(d.vehicles, d.slots, d.tickets)
    ensures var d' := AddSlotStep(d, levelId, slotNumber, slotType).1;
            TicketsReferToRows(d'.vehicles, d'.slots, d'.tickets)
  {
  }

  /** Adding a slot keeps the occupancy invariant: no ticket refers to the new id. */
  lemma AddSlotKeepsConsistent(d: Db, levelId: LevelId, slotNumber: string, slotType: SlotType)
    requires d.Valid() && d.Consistent()
    ensures AddSlotStep(d, levelId, slotNumber, slotType).1.Consistent()
  {
    var (r, d') := AddSlotStep(d, levelId, slotNumber, slotType);
    if r.Ok? {
      assert r.value !in d.slots;
      forall id | id in d'.tickets && d'.tickets[id].IsOpen()
        ensures d'.tickets[id].slotId in d'.slots && !d'.slots[d'.tickets[id].slotId].available
      {
        assert d.tickets[id].slotId in d.slots;
      }
    }
  }

  /** Removing a slot keeps the store well-formed. */
  lemma RemoveSlotKeepsValid(d: Db, slotId: SlotId)
    requires d.Valid()
    ensures RemoveSlotStep(d, slotId).1.Valid()
  {
    if RemoveSlotStep(d, slotId).0.Pass? {
      DeleteSlotKeepsValid(d, slotId);
    }
  }

  lemma DeleteSlotKeepsValid(d: Db, slotId: SlotId)
    requires d.Valid() && slotId in d.slots && d.slots[slotId].levelId in d.levels
    requires !HasOpenTicketForSlot(d.tickets, slotId)
    ensures DeleteSlotRow(d, slotId).Valid()
  {
    var d' := DeleteSlotRow(d, slotId);
    DeleteSlotKeepsLotsOwnLevels(d, slotId);
    DeleteSlotKeepsLevelsOwnSlots(d, slotId);
    DeleteSlotKeepsOpenTicketSlots(d, slotId);
    ShrinkKeepsValid(d, d');
  }

  /** A slot no open ticket is in can go without taking an open ticket's slot with it. */
  lemma DeleteSlotKeepsOpenTicketSlots(d: Db, slotId: SlotId)
    requires TicketsReferToRows(d.vehicles, d.slots, d.tickets)
    requires slotId in d.slots && d.slots[slotId].levelId in d.levels && !HasOpenTicketForSlot(d.tickets, slotId)
    ensures forall id :: id in d.tickets && d.tickets[id].IsOpen() ==> d.tickets[id].slotId in DeleteSlotRow(d, slotId).slots
  {
    forall id | id in d.tickets && d.tickets[id].IsOpen()
      ensures d.tickets[id].slotId in DeleteSlotRow(d, slotId).slots
    {
      assert d.tickets[id].slotId != slotId;
    }
  }

  /** Deleting a slot changes no level's lot, so the lots' lists stay in agreement. */
  lemma DeleteSlotKeepsLotsOwnLevels(d: Db, slotId: SlotId)
    requires LotsOwnLevels(d.lots, d.levels) && slotId in d.slots && d.slots[slotId].levelId in d.levels
    ensures LotsOwnLevels(DeleteSlotRow(d, slotId).lots, DeleteSlotRow(d, slotId).levels)
  {
    var d' := DeleteSlotRow(d, slotId);
    assert forall l :: l in d'.levels ==> d'.levels[l].parkingLotId == d.levels[l].parkingLotId;
  }

  /** Every remaining slot is still listed by its level, and every slot a level still lists
      remains, on that level. */
  lemma DeleteSlotKeepsLevelsOwnSlots(d: Db, slotId: SlotId)
    requires LevelsOwnSlots(d.levels, d.slots) && slotId in d.slots && d.slots[slotId].levelId in d.levels
    ensures LevelsOwnSlots(DeleteSlotRow(d, slotId).levels, DeleteSlotRow(d, slotId).slots)
  {
    var d' := DeleteSlotRow(d, slotId);
    var owner := d.slots[slotId].levelId;
    forall s | s in d'.slots
      ensures d'.slots[s].levelId in d'.levels && s in d'.levels[d'.slots[s].levelId].slotIds
    {
      var l := d.slots[s].levelId;
      assert s in d.levels[l].slotIds && s != slotId;
      if l == owner {
        assert s in Without(d.levels[owner].slotIds, slotId);
      } else {
        assert d'.levels[l] == d.levels[l];
      }
    }
    forall l, s | l in d'.levels && s in d'.levels[l].slotIds
      ensures s in d'.slots && d'.slots[s].levelId == l
    {
      if l == owner {
        assert s in Without(d.levels[owner].slotIds, slotId);
      } else {
        assert d'.levels[l] == d.levels[l];
      }
      assert s in d.levels[l].slotIds;
    }
  }

  /** Removing a slot keeps the occupancy invariant. */
  lemma RemoveSlotKeepsConsistent(d: Db, slotId: SlotId)
    requires d.Valid() && d.Consistent()
    ensures RemoveSlotStep(d, slotId).1.Consistent()
  {
    var d' := RemoveSlotStep(d, slotId).1;
    RemoveSlotKeepsValid(d, slotId);
    assert TicketsReferToRows(d'.vehicles, d'.slots, d'.tickets);
    ShrinkKeepsConsistent(d, d');
  }

  /** Switching a slot's flag keeps the store well-formed. */
  lemma UpdateSlotAvailabilityKeepsValid(d: Db, slotId: SlotId, available: bool)
    requires d.Valid()
    ensures UpdateSlotAvailabilityStep(d, slotId, available).1.Valid()
  {
    if slotId in d.slots {
      SetAvailableKeepsValid(d, slotId, available);
    }
  }

  /** The occupancy invariant survives a flag switch exactly when it does not mark an occupied slot
      available: the unguarded direction breaks the invariant that check-in and check-out keep. */
  lemma UpdateSlotAvailabilityConsistency(d: Db, slotId: SlotId, available: bool)
    requires d.Consistent()
    ensures UpdateSlotAvailabilityStep(d, slotId, available).1.Consistent()
        <==> !(slotId in d.slots && available && HasOpenTicketForSlot(d.tickets, slotId))
  {
    var d' := UpdateSlotAvailabilityStep(d, slotId, available).1;
    if slotId in d.slots && available && HasOpenTicketForSlot(d.tickets, slotId) {
      var id :| id in d.tickets && d.tickets[id].IsOpen() && d.tickets[id].slotId == slotId;
      assert d'.tickets[id] == d.tickets[id] && d'.slots[slotId].available;
    } else if slotId in d.slots && !available {
      forall id | id in d'.tickets && d'.tickets[id].IsOpen()
        ensures d'.tickets[id].slotId in d'.slots && !d'.slots[d'.tickets[id].slotId].available
      {
      }
    } else if slotId in d.slots {
      forall id | id in d'.tickets && d'.tickets[id].IsOpen()
        ensures d'.tickets[id].slotId in d'.slots && !d'.slots[d'.tickets[id].slotId].available
      {
        assert d.tickets[id].slotId != slotId;
      }
    }
  }

  // ----- The service -----

  class AdminService {
    const store: ParkingStore

    constructor (store: ParkingStore)
      ensures this.store == store
    {
      this.store := store;
    }

    /** createLot: save a new lot with the requested name. */
    method CreateLot(name: string) returns (r: Result<LotId, ParkingError>)
      requires store.Valid()
      modifies store
      ensures (r, store.Snapshot()) == CreateLotStep(old(store.Snapshot()), name)
      ensures store.Valid()
      ensures old(store.Snapshot().Consistent()) ==> store.Snapshot().Consistent()
      ensures old(LotNamesUnique(store.lots)) ==> LotNamesUnique(store.lots)
    {
      ghost var d := store.Snapshot();
      if NameTaken(store.lots, name) {
        r := Err(DataIntegrityViolation);
      } else {
        var id := store.InsertLot(NewLot(name));
        r := Ok(id);
      }
      CreateLotKeepsValid(d, name);
      if LotNamesUnique(d.lots) {
        CreateLotKeepsNamesUnique(d, name);
      }
    }

    /** removeLot: find the lot, scan its levels' slots for an open ticket, then delete the lot
        with everything under it. */
    method RemoveLot(lotId: LotId) returns (r: Outcome<ParkingError>)
      requires store.Valid()
      modifies store
      ensures (r, store.Snapshot()) == RemoveLotStep(old(store.Snapshot()), lotId)
      ensures store.Valid()
      ensures old(store.Snapshot().Consistent()) ==> store.Snapshot().Consistent()
    {
      ghost var d := store.Snapshot();
      if lotId !in store.lots {
        return Fail(ResourceNotFound);
      }
      var hasTickets := LevelsHaveTickets(store.tickets, store.levels, store.lots[lotId].levelIds);
      if hasTickets {
        return Fail(SlotOccupied);
      }
      store.DeleteLot(lotId);
      r := Pass;
      RemoveLotKeepsValid(d, lotId);
      if d.Consistent() {
        RemoveLotKeepsConsistent(d, lotId);
      }
    }

    /** addLevel: find the lot, append a new level to it and save the level. */
    method AddLevel(lotId: LotId, floorNumber: int) returns (r: Result<LevelId, ParkingError>)
      requires store.Valid()
      modifies store
      ensures (r, store.Snapshot()) == AddLevelStep(old(store.Snapshot()), lotId, floorNumber)
      ensures store.Valid()
      ensures old(store.Snapshot().Consistent()) ==> store.Snapshot().Consistent()
    {
      ghost var d := store.Snapshot();
      if lotId !in store.lots {
        return Err(ResourceNotFound);
      }
      var lot := store.lots[lotId];
      var id := store.InsertLevel(NewLevel(floorNumber, lotId));
      store.SaveLot(lotId, lot.AddLevel(id));
      r := Ok(id);
      AddLevelKeepsValid(d, lotId, floorNumber);
    }

    /** removeLevel: find the level, scan its slots for an open ticket, then delete the level with
        its slots. */
    method RemoveLevel(levelId: LevelId) returns (r: Outcome<ParkingError>)
      requires store.Valid()
      modifies store
      ensures (r, store.Snapshot()) == RemoveLevelStep(old(store.Snapshot()), levelId)
      ensures store.Valid()
      ensures old(store.Snapshot().Consistent()) ==> store.Snapshot().Consistent()
    {
      ghost var d := store.Snapshot();
      if levelId !in store.levels {
        return Fail(ResourceNotFound);
      }
      var hasTickets := SlotsHaveTickets(store.tickets, store.levels[levelId].slotIds);
      if hasTickets {
        return Fail(SlotOccupied);
      }
      assert LotsOwnLevels(d.lots, d.levels);
      store.DeleteLevel(levelId);
      r := Pass;
      RemoveLevelKeepsValid(d, levelId);
      if d.Consistent() {
        RemoveLevelKeepsConsistent(d, levelId);
      }
    }

    /** addSlot: find the level, let the factory make the slot, append it to the level and save it. */
    method AddSlot(levelId: LevelId, slotNumber: string, slotType: SlotType) returns (r: Result<SlotId, ParkingError>)
      requires store.Valid()
      modifies store
      ensures (r, store.Snapshot()) == AddSlotStep(old(store.Snapshot()), levelId, slotNumber, slotType)
      ensures store.Valid()
      ensures old(store.Snapshot().Consistent()) ==> store.Snapshot().Consistent()
    {
      ghost var d := store.Snapshot();
      if levelId !in store.levels {
        return Err(ResourceNotFound);
      }
      var level := store.levels[levelId];
      var slot := CreateSlot(slotNumber, slotType, levelId);
      var id := store.InsertSlot(slot);
      store.SaveLevel(levelId, level.AddSlot(id));
      r := Ok(id);
      assert store.Snapshot() == AddSlotStep(d, levelId, slotNumber, slotType).1;
      AddSlotKeepsValid(d, levelId, slotNumber, slotType);
      if d.Consistent() {
        AddSlotKeepsConsistent(d, levelId, slotNumber, slotType);
      }
    }

    /** removeSlot: existence, then occupancy, then delete. */
    method RemoveSlot(slotId: SlotId) returns (r: Outcome<ParkingError>)
      requires store.Valid()
      modifies store
      ensures (r, store.Snapshot()) == RemoveSlotStep(old(store.Snapshot()), slotId)
      ensures store.Valid()
      ensures old(store.Snapshot().Consistent()) ==> store.Snapshot().Consistent()
    {
      ghost var d := store.Snapshot();
      if slotId !in store.slots {
        return Fail(ResourceNotFound);
      }
      if HasOpenTicketForSlot(store.tickets, slotId) {
        return Fail(SlotOccupied);
      }
      assert LevelsOwnSlots(d.levels, d.slots);
      store.DeleteSlot(slotId);
      r := Pass;
      RemoveSlotKeepsValid(d, slotId);
      if d.Consistent() {
        RemoveSlotKeepsConsistent(d, slotId);
      }
    }

    /** updateSlotAvailability: find the slot, refuse to make an occupied slot unavailable, set the
        flag and save the slot. The occupancy invariant survives unless an occupied slot is made
        available. */
    method UpdateSlotAvailability(slotId: SlotId, available: bool) returns (r: Result<ParkingSlot, ParkingError>)
      requires store.Valid()
      modifies store
      ensures (r, store.Snapshot()) == UpdateSlotAvailabilityStep(old(store.Snapshot()), slotId, available)
      ensures store.Valid()
      ensures old(store.Snapshot().Consistent()) ==>
                (store.Snapshot().Consistent()
                 <==> !(slotId in old(store.slots) && available && HasOpenTicketForSlot(old(store.tickets), slotId)))
    {
      ghost var d := store.Snapshot();
      if slotId !in store.slots {
        return Err(ResourceNotFound);
      }
      if !available && HasOpenTicketForSlot(store.tickets, slotId) {
        return Err(SlotOccupied);
      }
      var slot := store.slots[slotId].(available := available);
      store.SaveSlot(slotId, slot);
      r := Ok(slot);
      UpdateSlotAvailabilityKeepsValid(d, slotId, available);
      if d.Consistent() {
        UpdateSlotAvailabilityConsistency(d, slotId, available);
      }
    }
  }
}
