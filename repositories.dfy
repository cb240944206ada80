/** The read-only queries of the slot and ticket repositories, over the tables they read. */
module Repositories {
  import opened Wrappers
  import opened Vehicles
  import opened Entities

  // ----- TicketRepository -----

  /** existsByVehicleAndExitTimeIsNull: some open ticket belongs to the vehicle (vehicles are
      compared by their identity, the plate). */
  predicate HasOpenTicketForVehicle(tickets: map<TicketId, ParkingTicket>, vehicle: Vehicle) {
    exists id :: id in tickets && tickets[id].IsOpen() && tickets[id].vehicle.licensePlate == vehicle.licensePlate
  }

  /** existsBySlotIdAndExitTimeIsNull: some open ticket references the slot. */
  predicate HasOpenTicketForSlot(tickets: map<TicketId, ParkingTicket>, slotId: SlotId) {
    exists id :: id in tickets && tickets[id].IsOpen() && tickets[id].slotId == slotId
  }

  /** findAllByExitTimeIsNull: exactly the open tickets, unchanged. */
  function FindAllOpen(tickets: map<TicketId, ParkingTicket>): (open: map<TicketId, ParkingTicket>)
    ensures forall id :: id in open <==> id in tickets && tickets[id].IsOpen()
    ensures forall id :: id in open ==> open[id] == tickets[id]
  {
    map id | id in tickets && tickets[id].IsOpen() :: tickets[id]
  }

  /** A slot has an open ticket iff it is among the slots of the open-ticket listing. */
  lemma OpenSlotQueriesAgree(tickets: map<TicketId, ParkingTicket>, slotId: SlotId)
    ensures HasOpenTicketForSlot(tickets, slotId)
        <==> exists id :: id in FindAllOpen(tickets) && FindAllOpen(tickets)[id].slotId == slotId
  {
    if HasOpenTicketForSlot(tickets, slotId) {
      var id :| id in tickets && tickets[id].IsOpen() && tickets[id].slotId == slotId;
      assert id in FindAllOpen(tickets);
    }
  }

  // ----- SlotRepository -----

  /** A row the slot query selects: free, of the requested class, and joined to its level (the
      ORDER BY on the level's floor number is an inner join, so a slot without a level is never
      returned). */
  predicate IsCandidate(slots: map<SlotId, ParkingSlot>, levels: map<LevelId, Level>, slotType: SlotType, id: SlotId) {
    id in slots && slots[id].available && slots[id].slotType == slotType && slots[id].levelId in levels
  }

  predicate HasCandidate(slots: map<SlotId, ParkingSlot>, levels: map<LevelId, Level>, slotType: SlotType) {
    exists id :: id in slots && IsCandidate(slots, levels, slotType, id)
  }

  /** The floor number of a slot's level. */
  function FloorOf(slots: map<SlotId, ParkingSlot>, levels: map<LevelId, Level>, id: SlotId): int
    requires id in slots && slots[id].levelId in levels
  {
    levels[slots[id].levelId].floorNumber
  }

  /** A first row of the query's ordering: a candidate on the lowest floor any candidate is on.
      Rows on the same floor are not ordered further, so any of them may come first. */
  ghost predicate IsFirstAvailable(slots: map<SlotId, ParkingSlot>, levels: map<LevelId, Level>, slotType: SlotType, id: SlotId) {
    && IsCandidate(slots, levels, slotType, id)
    && forall other :: IsCandidate(slots, levels, slotType, other) ==>
         FloorOf(slots, levels, id) <= FloorOf(slots, levels, other)
  }

  /** findFirstByAvailableTrueAndTypeOrderByLevelFloorNumberAsc, with the first row taken: the
      rows are scanned in no particular order and a candidate on a strictly lower floor replaces
      the one kept so far, so among equal floors whichever is met first stays. */
  method FindFirstAvailable(slots: map<SlotId, ParkingSlot>, levels: map<LevelId, Level>, slotType: SlotType)
    returns (found: Option<SlotId>)
    ensures found.Some? ==> IsFirstAvailable(slots, levels, slotType, found.value)
    ensures found.None? <==> !HasCandidate(slots, levels, slotType)
  {
    found := None;
    var unseen := slots.Keys;
    while unseen != {}
      invariant unseen <= slots.Keys
      invariant found.None? ==> forall id :: id in slots && id !in unseen ==> !IsCandidate(slots, levels, slotType, id)
      invariant found.Some? ==> IsCandidate(slots, levels, slotType, found.value)
      invariant found.Some? ==> forall id :: id in slots && id !in unseen && IsCandidate(slots, levels, slotType, id) ==>
                  FloorOf(slots, levels, found.value) <= FloorOf(slots, levels, id)
      decreases unseen
    {
      var id :| id in unseen;
      if IsCandidate(slots, levels, slotType, id)
        && (found.None? || FloorOf(slots, levels, id) < FloorOf(slots, levels, found.value))
      {
        found := Some(id);
      }
      unseen := unseen - {id};
    }
  }

  // ----- The query as the repository declares it -----

  /** The ids of all rows the query's WHERE clause selects. */
  function CandidateIds(slots: map<SlotId, ParkingSlot>, levels: map<LevelId, Level>, slotType: SlotType): (ids: set<SlotId>)
    ensures forall id :: id in ids <==> IsCandidate(slots, levels, slotType, id)
  {
    set id | id in slots && IsCandidate(slots, levels, slotType, id)
  }

  /** Why a query that must return at most one row fails. */
  datatype QueryError = IncorrectResultSize

  /** The query as written: an explicit JPQL query whose method returns Optional<ParkingSlot>. The
      "First" in the method's name does not limit an explicit query, so the single result is taken
      from the whole selection: no row gives empty, one row gives that row, and two or more rows
      are an error. */
  ghost function SingleResultQuery(slots: map<SlotId, ParkingSlot>, levels: map<LevelId, Level>, slotType: SlotType)
    : (r: Result<Option<SlotId>, QueryError>)
    ensures r.Err? <==> |CandidateIds(slots, levels, slotType)| > 1
    ensures r == Ok(None) <==> !HasCandidate(slots, levels, slotType)
    ensures r.Ok? && r.value.Some? ==> CandidateIds(slots, levels, slotType) == {r.value.value}
  {
    var ids := CandidateIds(slots, levels, slotType);
    if |ids| == 0 then Ok(None)
    else if |ids| == 1 then
      var id :| id in ids;
      SingletonIsItsElement(ids, id);
      Ok(Some(id))
    else Err(IncorrectResultSize)
  }

  lemma SingletonIsItsElement(ids: set<SlotId>, id: SlotId)
    requires |ids| == 1 && id in ids
    ensures ids == {id}
  {
    var rest := ids - {id};
    assert |rest| == 0;
  }

  /** Two free compact slots on the same floor: the query as written fails, where taking the first
      row yields one of them. */
  lemma SingleResultQueryFailsOnTwoFreeSlots()
    ensures var slots := map[1 := NewSlot("C-1", SlotType.COMPACT, 7), 2 := NewSlot("C-2", SlotType.COMPACT, 7)];
            var levels := map[7 := Level(1, 3, [1, 2])];
            && SingleResultQuery(slots, levels, SlotType.COMPACT).Err?
            && IsFirstAvailable(slots, levels, SlotType.COMPACT, 1)
            && IsFirstAvailable(slots, levels, SlotType.COMPACT, 2)
  {
    var slots := map[1 := NewSlot("C-1", SlotType.COMPACT, 7), 2 := NewSlot("C-2", SlotType.COMPACT, 7)];
    var levels := map[7 := Level(1, 3, [1, 2])];
    assert CandidateIds(slots, levels, SlotType.COMPACT) == {1, 2};
  }
}
