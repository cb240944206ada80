# Smart parking system — a Dafny model of the check-in/check-out engine

This project models the core of the smart parking system as Dafny code and proves properties of
that model. The core is:

- the check-in/check-out engine (`ParkingService`);
- the repository queries it relies on;
- the pricing (`PricingService`, `UniversalHourlyStrategy`, the beans of `PricingConfig`, and the
  older `HourlyPricingStrategy` with its car and truck subclasses);
- the administrative service and its occupancy guards (`AdminService`, `SlotFactory`);
- the vehicle identity (`Vehicle`, `VehicleFactory`);
- the message logic of `GlobalExceptionHandler`.

Modules, leaf first:

| file | module | what it holds |
|---|---|---|
| `wrappers.dfy` | `Wrappers`, `Errors` | `Option`, `Result`, `Outcome`; the error kinds the services raise |
| `vehicles.dfy` | `Vehicles` | vehicle type tag, vehicle row, the factory |
| `entities.dfy` | `Entities` | slot, level, lot and ticket rows; `Level.addSlot`, `ParkingLot.addLevel`, `SlotFactory.createSlot`, `getLevelNumber` |
| `repositories.dfy` | `Repositories` | the open-ticket queries and the free-slot query |
| `pricing.dfy` | `Pricing` | billable hours, the strategies, the configured beans, the type-to-strategy registry and `calculate` |
| `store.dfy` | `Store` | the database: a `Db` snapshot value, its well-formedness (`Valid`) and occupancy (`Consistent`) invariants, and the mutable `ParkingStore` class the services update in place |
| `parking.dfy` | `Parking` | compatibility lists, slot search, check-in, check-out, active sessions, and the `ParkingService` class |
| `admin.dfy` | `Admin` | the guarded create/remove operations and the `AdminService` class |
| `exception_handler.dfy` | `ExceptionHandler` | constraint-name extraction over the chain of causes, the message choice, and the illegal-argument rewrite |

## How the model is built

**State.** `Store.ParkingStore` is a class. It holds one `map` field per table (vehicles by plate;
lots, levels, slots and tickets by id) and one counter per identity generator. Its methods are the
repositories' `save`, `insert` and `deleteById`. `ParkingService` and `AdminService` are classes that
hold the store and update it in place through those methods. Entity references are ids. A level's
slot list and a lot's level list are `seq` fields of the rows.

**Proof method.** Every service operation has a specification function on `Db` snapshots, such as
`Admin.RemoveLotStep` or `Parking.CheckOutStep`. Each function returns the result together with the
new tables. Each service method is proved to produce exactly that pair. Separate lemmas prove what
the specification functions promise:

- error cases and their order;
- that the operation keeps `Db.Valid` (referential well-formedness);
- that it keeps `Db.Consistent` (the occupancy invariant: an open ticket's slot is marked taken, and
  each vehicle and each slot has at most one open ticket);
- what changes and what stays.

**Check-in is a relation.** The free-slot query orders only by floor number, so several slots may
tie. Check-in is therefore specified by the relation `Parking.CheckInOutcome`, which admits any
tied slot.

**Transactions.** Both services' operations are `@Transactional`. They are modelled so that every
error leaves the store exactly as it was.

**Clock.** `LocalDateTime.now()` becomes a `now` parameter, in whole seconds.

**Where the code and the written design differ, the model follows the code:**

- The free-slot query orders by floor only, not also by slot number, so ties are left open.
- `checkIn` as written takes two arguments and searches only the compatibility list. The
  accessible-slot-first search the controller and integration tests use is modelled separately as
  `Parking.ParkingService.CheckInAccessible`, taken from the tests.
- The one exception is the free-slot query, which fails as written when two slots qualify (see
  "## Findings"). `Parking.FindSlotAsWritten` models the check-in search over the query as
  written. `Parking.FindSlot`, and with it every check-in contract, uses the corrected query.
- Making a slot available by hand is never refused, so the "available iff no open ticket" rule can
  be broken by the administrative service. `Admin.UpdateSlotAvailabilityConsistency` proves exactly
  when that happens.

## Model

Source paths are relative to the repository root.

| member | source | states |
|---|---|---|
| Vehicles.CreateVehicle | src/main/java/com/dev/marchenko/factory/VehicleFactory.java:16-22 | the factory always yields a vehicle, with the given plate and the given type |
| Vehicles.RegistryCoversEveryType | src/main/java/com/dev/marchenko/factory/VehicleFactory.java:10-20 | every vehicle type has a registry entry, so the "Unknown vehicle type" branch is unreachable |
| Entities.NewSlot | src/main/java/com/dev/marchenko/domain/slot/ParkingSlot.java:28-39 | the three-argument constructor keeps number, class and level, and the slot starts available |
| Entities.CreateSlot | src/main/java/com/dev/marchenko/factory/SlotFactory.java:11-19 | the factory's slot has the given number, class and level and is available; no level is touched |
| Entities.Level.AddSlot | src/main/java/com/dev/marchenko/domain/lot/Level.java:31-34 | the slot list grows by one at the end, earlier entries kept in order; floor and lot unchanged |
| Entities.NewLevel | src/main/java/com/dev/marchenko/domain/lot/Level.java:22-29 | a new level has the floor number, its lot and an empty slot list |
| Entities.ParkingLot.AddLevel | src/main/java/com/dev/marchenko/domain/lot/ParkingLot.java:28-31 | the level list grows by one at the end, earlier levels kept in order; the name unchanged |
| Entities.NewLot | src/main/java/com/dev/marchenko/domain/lot/ParkingLot.java:33-35 | the name constructor keeps the name, and the lot has no levels |
| Entities.GetLevelNumber | src/main/java/com/dev/marchenko/domain/ticket/ParkingTicket.java:40-42 | a floor number exactly when the ticket's slot and that slot's level exist, and then it is that level's floor |
| Repositories.FindAllOpen | src/main/java/com/dev/marchenko/repository/TicketRepository.java:16 | exactly the tickets without exit time, each unchanged |
| Repositories.OpenSlotQueriesAgree | src/main/java/com/dev/marchenko/repository/TicketRepository.java:16-18 | a slot has an open ticket iff it is the slot of some ticket in the open-ticket listing |
| Repositories.CandidateIds | src/main/java/com/dev/marchenko/repository/SlotRepository.java:21 | exactly the slots the query's WHERE clause and join select: free, of the class, on an existing level |
| Repositories.FindFirstAvailable | src/main/java/com/dev/marchenko/repository/SlotRepository.java:21-22 | a returned slot is free, of the requested class, and on the lowest floor any such slot is on; nothing is returned iff there is no such slot |
| Repositories.SingleResultQuery | src/main/java/com/dev/marchenko/repository/SlotRepository.java:21-22 | the query as declared: an error iff more than one slot qualifies, empty iff none does, otherwise the one slot |
| Repositories.SingleResultQueryFailsOnTwoFreeSlots | src/main/java/com/dev/marchenko/repository/SlotRepository.java:21-22 | two free compact slots on one floor make the declared query fail, although either is a valid first row |
| Pricing.WholeMinutes | src/main/java/com/dev/marchenko/service/PricingService.java:33 | the minutes are the whole minutes elapsed, a partial minute dropped |
| Pricing.BillableHours | src/main/java/com/dev/marchenko/strategy/UniversalHourlyStrategy.java:19-22 | at least one hour; the hours cover the minutes and one hour fewer would not, so this is the rounded-up hours with a one-hour minimum |
| Pricing.BillableHoursOfWholeHours | src/main/java/com/dev/marchenko/strategy/UniversalHourlyStrategy.java:19 | h whole hours bill h hours, and one more minute bills h + 1 |
| Pricing.UniversalHourlyStrategy.CalculateFee | src/main/java/com/dev/marchenko/strategy/UniversalHourlyStrategy.java:18-24 | the fee is the rate times the billable hours (`BillableHours`, characterised on its own as rounded-up hours with a one-hour minimum); so for a non-negative rate it is at least the rate, and exactly the rate for a stay of up to an hour |
| Pricing.FeeMonotone | src/main/java/com/dev/marchenko/strategy/UniversalHourlyStrategy.java:18-24 | for a non-negative rate, a longer stay never costs less |
| Pricing.UniversalHourlyStrategy.GetSupportedVehicleTypes | src/main/java/com/dev/marchenko/strategy/UniversalHourlyStrategy.java:12-15 | the supported types are exactly the list given at construction, element by element and in order |
| Pricing.HourlyAgreesWithUniversal | src/main/java/com/dev/marchenko/strategy/HourlyPricingStrategy.java:10-16 | the older formula, parameterised by the subclass's rate, equals UniversalHourlyStrategy's fee at that rate for every stay |
| Pricing.HourlyAgreesWithConfig | src/main/java/com/dev/marchenko/strategy/HourlyPricingStrategy.java:10-16 | the car and truck subclasses charge what the configured bean for their vehicle type charges, for every stay |
| Pricing.HourlyExamples | src/main/java/com/dev/marchenko/strategy/CarPricingStrategy.java:9-18 | car: rate 2, type CAR, 0 minutes cost 2, 120 minutes cost 4; truck: rate 3, type TRUCK, 0 minutes cost 3, 61 minutes cost 6 |
| Pricing.MotorcycleStrategy | src/main/java/com/dev/marchenko/config/PricingConfig.java:23-26 | rate 1, supports only MOTORCYCLE |
| Pricing.CarStrategy | src/main/java/com/dev/marchenko/config/PricingConfig.java:28-31 | rate 2, supports only CAR |
| Pricing.TruckStrategy | src/main/java/com/dev/marchenko/config/PricingConfig.java:33-36 | rate 3, supports only TRUCK |
| Pricing.ConfiguredStrategyFor | src/main/java/com/dev/marchenko/config/PricingConfig.java:23-36 | for every vehicle type there is a configured bean that supports it |
| Pricing.ConfiguredBeansAreDisjoint | src/main/java/com/dev/marchenko/config/PricingConfig.java:23-36 | a configured bean supports a type iff it is that type's bean, so each type is claimed by exactly one bean |
| Pricing.ConfiguredFeeOrder | src/main/java/com/dev/marchenko/config/PricingConfig.java:25-35 | for equal stays a motorcycle pays less than a car, and a car less than a truck |
| Pricing.RegisterAll | src/main/java/com/dev/marchenko/service/PricingService.java:22-24 | registering a strategy for a list of types adds exactly those types, maps them to it, and leaves every other entry unchanged |
| Pricing.LastClaimant | src/main/java/com/dev/marchenko/service/PricingService.java:21-25 | the position of the last strategy in the list that supports a type, and none iff no strategy supports it |
| Pricing.RegistryPicksLastClaimant | src/main/java/com/dev/marchenko/service/PricingService.java:19-26 | after construction a type is registered iff some strategy supports it, and it maps to the last such strategy in the list |
| Pricing.RegisteredStrategySupportsType | src/main/java/com/dev/marchenko/service/PricingService.java:19-26 | every registered type maps to a strategy from the list that supports it |
| Pricing.NewPricingService | src/main/java/com/dev/marchenko/service/PricingService.java:19-26 | the constructor's nested loop builds exactly the registry table of the strategy list |
| Pricing.ConfiguredRegistryIsTotal | src/main/java/com/dev/marchenko/config/PricingConfig.java:23-36 | with the configured beans every vehicle type is registered, to the bean that claims it |
| Pricing.PricingService.Calculate | src/main/java/com/dev/marchenko/service/PricingService.java:28-41 | an exit before the entry is rejected, and that is tested first; a type without a strategy is rejected next; otherwise the fee is the strategy's fee for the whole minutes |
| Pricing.ConfiguredCalculate | src/main/java/com/dev/marchenko/service/PricingService.java:28-41 | with the configured beans, calculate never reports a missing strategy: it rejects an exit before the entry and otherwise charges rate times billable hours |
| Pricing.ConfiguredExamples | src/test/java/com/dev/marchenko/service/PricingServiceTest.java:57-63 | 10:00 to 11:30 is 90 minutes and costs a car 4; two hours cost a car 4; entry equal to exit costs a truck 3; 59 seconds cost a motorcycle 1 |
| Store.FreeSlotHasNoOpenTicket | src/main/java/com/dev/marchenko/service/ParkingService.java:56-63 | under the occupancy invariant a free slot has no open ticket, so the slot query never hands out a slot somebody is parked in |
| Store.SetAvailable | src/main/java/com/dev/marchenko/domain/slot/ParkingSlot.java:28 | the slot's flag becomes the requested value while its number, class and level stay; no slot is added or removed, no other slot changes, and the lots, levels, tickets, vehicles and id generators are untouched |
| Store.SetAvailableKeepsValid | src/main/java/com/dev/marchenko/domain/slot/ParkingSlot.java:28 | flipping a flag keeps every reference intact |
| Store.DeleteSlotRow | src/main/java/com/dev/marchenko/service/AdminService.java:103 | exactly that slot row goes, and its level's list loses it; every other slot and level row, the lots, tickets, vehicles and id generators stay |
| Store.DeleteLevelRow | src/main/java/com/dev/marchenko/domain/lot/Level.java:28-29 | the level goes with exactly the slots on it (cascade with orphan removal), and its lot's list loses it; every other level, slot and lot row, the tickets, vehicles and id generators stay |
| Store.DeleteLotRow | src/main/java/com/dev/marchenko/domain/lot/ParkingLot.java:25-26 | the lot goes with exactly its levels and the slots on them; every other lot, level and slot row, the tickets, vehicles and id generators stay |
| Store.ParkingStore.DeleteSlot | src/main/java/com/dev/marchenko/service/AdminService.java:103 | the in-place delete leaves the tables DeleteSlotRow describes |
| Store.ParkingStore.DeleteLevel | src/main/java/com/dev/marchenko/service/AdminService.java:78 | the in-place cascade delete leaves the tables DeleteLevelRow describes |
| Store.ParkingStore.DeleteLot | src/main/java/com/dev/marchenko/service/AdminService.java:49 | the in-place cascade delete leaves the tables DeleteLotRow describes |
| Parking.AllowedSlotTypes | src/main/java/com/dev/marchenko/service/ParkingService.java:35-39 | the compatibility list holds exactly the regular slot classes at least as large as the vehicle, smallest first, and never the accessible class |
| Parking.AccessibleSearchOrder | src/test/java/com/dev/marchenko/service/ParkingServiceIT.java:162-182 | the accessible class is searched iff the driver is flagged, and then first, followed by the compatibility list |
| Parking.ResolveVehicle | src/main/java/com/dev/marchenko/service/ParkingService.java:43-44 | the stored row of a known plate, otherwise a new vehicle of the requested type |
| Parking.TypeCheckOnlyRejectsKnownPlates | src/main/java/com/dev/marchenko/service/ParkingService.java:43-48 | the type check fails iff the plate is stored with another type; an unseen plate never fails it |
| Parking.FindSlot | src/main/java/com/dev/marchenko/service/ParkingService.java:56-60 | over the corrected query: a found slot is a first row of the query for some class in the list, and every earlier class has no free slot; nothing is found iff no class in the list has a free slot |
| Parking.FindSlotAsWritten | src/main/java/com/dev/marchenko/service/ParkingService.java:56-59 | over the query as declared: nothing is found iff no listed class has a free slot; a slot found is one the corrected search may return; the search fails iff the first listed class with a free slot has two or more |
| Parking.CarCheckInAsWrittenFailsOnTwoFreeCompactSlots | src/main/java/com/dev/marchenko/service/ParkingService.java:56-59 | a car facing two free compact slots on one floor gets the query's error from the search as written, although either slot is one the corrected search may hand out |
| Parking.PreferredSlotsTie | src/main/java/com/dev/marchenko/service/ParkingService.java:56-59 | any two slots the search may return are of the same class and on the same floor |
| Parking.CheckInRefusal | src/main/java/com/dev/marchenko/service/ParkingService.java:43-60 | a type mismatch is refused iff the plate is stored with another type; an already-parked refusal happens iff the type check passes and the vehicle has an open ticket; a refusal for lack of space happens iff both earlier checks pass and no listed class has a free slot; no refusal means a slot exists and the vehicle has no open ticket |
| Parking.CheckInChoice | src/main/java/com/dev/marchenko/service/ParkingService.java:54-63 | a successful check-in took a slot that was free and of a class in the list |
| Parking.CheckInRefusalChangesNothing | src/main/java/com/dev/marchenko/service/ParkingService.java:41-60 | a refused check-in leaves the store unchanged, vehicle table included, and reports the refusal |
| Parking.CommitOutcome | src/main/java/com/dev/marchenko/service/ParkingService.java:56-79 | when nothing refuses, taking any preferred slot is an allowed outcome, and it keeps the store well-formed |
| Parking.CheckInKeepsValid | src/main/java/com/dev/marchenko/service/ParkingService.java:41-80 | every check-in outcome keeps the store well-formed |
| Parking.CheckInKeepsConsistent | src/main/java/com/dev/marchenko/service/ParkingService.java:50-70 | every check-in outcome keeps the occupancy invariant |
| Parking.CheckInOpensTicket | src/main/java/com/dev/marchenko/service/ParkingService.java:54-70 | the reported ticket is new and open, with no fee, entered now, for this plate, in a slot that was free and of a listed class and is now taken; no other slot or ticket changed |
| Parking.CheckInRegistersOnlyNewPlates | src/main/java/com/dev/marchenko/service/ParkingService.java:43-44 | a vehicle row is added only for an unseen plate on success, with the requested type; otherwise the vehicle table is unchanged |
| Parking.ParkedVehicleIsRefused | src/main/java/com/dev/marchenko/service/ParkingService.java:50-52 | after a successful check-in, a second check-in of the same plate is refused as already parked |
| Parking.OneFreeSlotAdmitsOneVehicle | src/test/java/com/dev/marchenko/service/ParkingServiceIT.java:200-239 | with one free compatible slot, after one vehicle takes it a second unseen vehicle is refused for lack of a slot |
| Parking.CheckOutStep | src/main/java/com/dev/marchenko/service/ParkingService.java:83-105 | an unknown ticket is not found, a closed ticket is already closed, a pricing error is passed on, and every error leaves the store unchanged; success iff the ticket is open and priced |
| Parking.CheckOutClosesTicket | src/main/java/com/dev/marchenko/service/ParkingService.java:91-102 | a successful check-out stamps exit time now and the fee pricing gives for the stay, keeps the rest of the ticket, frees its slot, and changes no other slot or ticket |
| Parking.CheckOutKeepsValid | src/main/java/com/dev/marchenko/service/ParkingService.java:83-105 | check-out keeps the store well-formed |
| Parking.CheckOutKeepsConsistent | src/main/java/com/dev/marchenko/service/ParkingService.java:83-105 | check-out keeps the occupancy invariant |
| Parking.SecondCheckOutIsRefused | src/main/java/com/dev/marchenko/service/ParkingService.java:87-89 | after a successful check-out, a second one is refused as already closed and changes nothing |
| Parking.ActiveSessions | src/main/java/com/dev/marchenko/service/ParkingService.java:107-111 | one entry per open ticket and none for a closed one, each carrying its ticket id, plate and entry time |
| Parking.SessionEntry | src/main/java/com/dev/marchenko/mapper/ParkingMapper.java:20-25 | an open ticket's listing entry is its mapped response, reading its slot's number and its level's floor |
| Parking.CheckInIsListed | src/main/java/com/dev/marchenko/service/ParkingService.java:72-79 | the check-in answer is exactly the new session's entry in the active listing |
| Parking.CheckOutUnlists | src/main/java/com/dev/marchenko/service/ParkingService.java:107-111 | a checked-out ticket leaves the active listing, and every other entry stays as it was |
| Parking.ConfiguredCheckOutFee | src/main/java/com/dev/marchenko/service/ParkingService.java:96-101 | with the configured beans, checking out an open ticket no later than now succeeds, with fee rate times billable hours |
| Parking.TwoHourCarStayCostsFour | src/test/java/com/dev/marchenko/service/ParkingServiceIT.java:185-197 | a car leaving two hours after entry pays 4 |
| Parking.ParkingService.CheckIn | src/main/java/com/dev/marchenko/service/ParkingService.java:41-80 | the two-argument check-in, over the corrected slot query: its outcome is one CheckInOutcome allows for the compatibility list; it keeps the store well-formed and the occupancy invariant |
| Parking.ParkingService.CheckInAccessible | src/test/java/com/dev/marchenko/service/ParkingServiceIT.java:162-182 | the check-in the tests call, searching an accessible slot first for a flagged driver; same guarantees as CheckIn |
| Parking.ParkingService.CheckInSearching | src/main/java/com/dev/marchenko/service/ParkingService.java:43-79 | resolve, type check, parked check, search and commit, in the code's order, end in an allowed outcome |
| Parking.ParkingService.OpenTicket | src/main/java/com/dev/marchenko/service/ParkingService.java:62-79 | the slot is saved taken, the vehicle and the new ticket are saved, and the answer carries the slot's number and floor |
| Parking.ParkingService.CheckOut | src/main/java/com/dev/marchenko/service/ParkingService.java:83-105 | the in-place check-out, with the slot rolled back when pricing fails, leaves exactly what CheckOutStep gives, and keeps both invariants |
| Parking.ParkingService.GetActiveSessions | src/main/java/com/dev/marchenko/service/ParkingService.java:107-111 | the listing has an entry exactly for each open ticket of the store, and it is `ActiveSessions` of the store, so each entry is that ticket's mapped response (`SessionEntry`) |
| Admin.SlotsHaveTickets | src/main/java/com/dev/marchenko/service/AdminService.java:71-72 | the scan finds an occupied slot iff some slot of the list has an open ticket |
| Admin.LevelsHaveTickets | src/main/java/com/dev/marchenko/service/AdminService.java:40-42 | the scan finds an occupied slot iff some slot on some listed level has an open ticket |
| Admin.LotGuardCoversCascade | src/main/java/com/dev/marchenko/service/AdminService.java:40-49 | the lot guard fires iff some slot the cascade would delete has an open ticket |
| Admin.LevelGuardCoversCascade | src/main/java/com/dev/marchenko/service/AdminService.java:71-78 | the level guard fires iff some slot on the level has an open ticket |
| Admin.CreateLotStep | src/main/java/com/dev/marchenko/service/AdminService.java:28-33 | a stored name is rejected by the unique constraint and nothing changes; otherwise a lot with the name and no levels is stored under the next id |
| Admin.CreateLotKeepsValid | src/main/java/com/dev/marchenko/service/AdminService.java:28-33 | the store stays well-formed, and the new lot's id was unused and holds the name |
| Admin.CreateLotKeepsNamesUnique | src/main/java/com/dev/marchenko/domain/lot/ParkingLot.java:21-23 | lot names stay unique |
| Admin.RemoveLotStep | src/main/java/com/dev/marchenko/service/AdminService.java:35-50 | a missing lot is not found; an open ticket on any slot of its levels refuses removal and deletes nothing; otherwise the lot is deleted with its levels and slots |
| Admin.RemoveLotKeepsValid | src/main/java/com/dev/marchenko/service/AdminService.java:35-50 | removing a lot keeps the store well-formed |
| Admin.RemoveLotKeepsConsistent | src/main/java/com/dev/marchenko/service/AdminService.java:35-50 | removing a lot keeps the occupancy invariant: no open ticket loses its slot |
| Admin.AddLevelStep | src/main/java/com/dev/marchenko/service/AdminService.java:52-64 | a missing lot is not found and nothing changes; otherwise a level with the floor number, pointing to the lot, is stored under the next id and appended to the lot's list; duplicate floors are not checked |
| Admin.AddLevelKeepsValid | src/main/java/com/dev/marchenko/service/AdminService.java:52-64 | the store stays well-formed; the new level's id was unused, it points to the lot, and the lot's list gained it at the end |
| Admin.RemoveLevelStep | src/main/java/com/dev/marchenko/service/AdminService.java:66-79 | a missing level is not found; an open ticket on any of its slots refuses removal and deletes nothing; otherwise the level is deleted with its slots |
| Admin.RemoveLevelKeepsValid | src/main/java/com/dev/marchenko/service/AdminService.java:66-79 | removing a level keeps the store well-formed |
| Admin.RemoveLevelKeepsConsistent | src/main/java/com/dev/marchenko/service/AdminService.java:66-79 | removing a level keeps the occupancy invariant |
| Admin.AddSlotStep | src/main/java/com/dev/marchenko/service/AdminService.java:81-92 | a missing level is not found and nothing changes; otherwise the factory's free slot, pointing to the level, is stored under the next id and appended to the level's list |
| Admin.AddSlotKeepsValid | src/main/java/com/dev/marchenko/service/AdminService.java:81-92 | the store stays well-formed; the new slot's id was unused, it is free, it points to the level, and the level's list gained it at the end |
| Admin.AddSlotKeepsConsistent | src/main/java/com/dev/marchenko/service/AdminService.java:81-92 | adding a slot keeps the occupancy invariant |
| Admin.RemoveSlotStep | src/main/java/com/dev/marchenko/service/AdminService.java:94-104 | existence is checked before occupancy; an occupied slot is refused and not deleted; otherwise exactly that slot is deleted |
| Admin.RemoveSlotKeepsValid | src/main/java/com/dev/marchenko/service/AdminService.java:94-104 | removing a slot keeps the store well-formed |
| Admin.RemoveSlotKeepsConsistent | src/main/java/com/dev/marchenko/service/AdminService.java:94-104 | removing a slot keeps the occupancy invariant |
| Admin.UpdateSlotAvailabilityStep | src/main/java/com/dev/marchenko/service/AdminService.java:106-119 | a missing slot is not found; making an occupied slot unavailable is refused and changes nothing; otherwise the flag becomes exactly the requested value and the saved slot is returned |
| Admin.UpdateSlotAvailabilityKeepsValid | src/main/java/com/dev/marchenko/service/AdminService.java:106-119 | switching a flag keeps the store well-formed |
| Admin.UpdateSlotAvailabilityConsistency | src/main/java/com/dev/marchenko/service/AdminService.java:111-117 | the occupancy invariant survives iff the call does not make an occupied slot available; the unguarded direction breaks it |
| Admin.AdminService.CreateLot | src/main/java/com/dev/marchenko/service/AdminService.java:28-33 | leaves exactly what CreateLotStep gives; keeps both invariants and unique lot names |
| Admin.AdminService.RemoveLot | src/main/java/com/dev/marchenko/service/AdminService.java:35-50 | scans the lot's levels' slots and leaves exactly what RemoveLotStep gives; keeps both invariants |
| Admin.AdminService.AddLevel | src/main/java/com/dev/marchenko/service/AdminService.java:52-64 | leaves exactly what AddLevelStep gives; keeps both invariants |
| Admin.AdminService.RemoveLevel | src/main/java/com/dev/marchenko/service/AdminService.java:66-79 | scans the level's slots and leaves exactly what RemoveLevelStep gives; keeps both invariants |
| Admin.AdminService.AddSlot | src/main/java/com/dev/marchenko/service/AdminService.java:81-92 | uses the factory and leaves exactly what AddSlotStep gives; keeps both invariants |
| Admin.AdminService.RemoveSlot | src/main/java/com/dev/marchenko/service/AdminService.java:94-104 | leaves exactly what RemoveSlotStep gives; keeps both invariants |
| Admin.AdminService.UpdateSlotAvailability | src/main/java/com/dev/marchenko/service/AdminService.java:106-119 | leaves exactly what UpdateSlotAvailabilityStep gives; keeps well-formedness, and keeps the occupancy invariant iff it does not make an occupied slot available |
| ExceptionHandler.ToUpper | src/main/java/com/dev/marchenko/exception/GlobalExceptionHandler.java:68 | same length, each character upper-cased on ASCII |
| ExceptionHandler.IndexOf | src/main/java/com/dev/marchenko/exception/GlobalExceptionHandler.java:70 | the first occurrence of the pattern at or after the start, or -1 iff there is none |
| ExceptionHandler.KeepNameChars | src/main/java/com/dev/marchenko/exception/GlobalExceptionHandler.java:73 | the filtered string holds only A-Z, 0-9 and '_' and is no longer than the input |
| ExceptionHandler.KeepNameCharsOfChar | src/main/java/com/dev/marchenko/exception/GlobalExceptionHandler.java:73 | one character survives iff the pattern accepts it; with `KeepNameCharsAppend` this fixes the filter on every string, order included |
| ExceptionHandler.KeepNameCharsCounts | src/main/java/com/dev/marchenko/exception/GlobalExceptionHandler.java:73 | every accepted character is kept as often as it occurs in the input, and every rejected character is dropped |
| ExceptionHandler.WordEnd | src/main/java/com/dev/marchenko/exception/GlobalExceptionHandler.java:78-79 | the end of the word holds no space before it and is the next space or the end of the message |
| ExceptionHandler.NameFromMessage | src/main/java/com/dev/marchenko/exception/GlobalExceptionHandler.java:67-82 | a cause yields a name iff its upper-cased message contains "CONSTRAINT" or "UK_", and every name is clean |
| ExceptionHandler.ConstraintBranchStartsWithKeyword | src/main/java/com/dev/marchenko/exception/GlobalExceptionHandler.java:70-74 | when the message contains "CONSTRAINT", the name starts with "CONSTRAINT" |
| ExceptionHandler.UkBranchStartsWithPrefix | src/main/java/com/dev/marchenko/exception/GlobalExceptionHandler.java:76-81 | without "CONSTRAINT" but with "UK_", the name starts with "UK_" |
| ExceptionHandler.NameAfterKeywordIsKept | src/main/java/com/dev/marchenko/exception/GlobalExceptionHandler.java:70-74 | a clean name anywhere after the first "CONSTRAINT" survives the filter inside the extracted name |
| ExceptionHandler.NameInWordIsKept | src/main/java/com/dev/marchenko/exception/GlobalExceptionHandler.java:76-81 | without the keyword, a clean name inside the word at the first "UK_" survives inside the extracted name |
| ExceptionHandler.ConstraintName | src/main/java/com/dev/marchenko/exception/GlobalExceptionHandler.java:64-86 | null iff no cause yields a name; otherwise the name of the first cause that yields one |
| ExceptionHandler.NamingCauseHidesRest | src/main/java/com/dev/marchenko/exception/GlobalExceptionHandler.java:71-81 | a cause that yields a name hides every cause after it |
| ExceptionHandler.ConstraintNameIsClean | src/main/java/com/dev/marchenko/exception/GlobalExceptionHandler.java:73-80 | every extracted name is clean, so the handler's later upper-casing changes nothing |
| ExceptionHandler.NameFromMessageIgnoresCase | src/main/java/com/dev/marchenko/exception/GlobalExceptionHandler.java:68 | a message and its upper-cased form yield the same name |
| ExceptionHandler.ExtractConstraintName | src/main/java/com/dev/marchenko/exception/GlobalExceptionHandler.java:64-86 | the loop over the causes returns exactly the chain's constraint name |
| ExceptionHandler.ConstraintMessage | src/main/java/com/dev/marchenko/exception/GlobalExceptionHandler.java:48-59 | one of the four messages; the lot message iff the name contains the lot constraint; the floor message iff it contains the floor constraint but not the lot one; the slot message iff it contains only the slot constraint; otherwise the generic one |
| ExceptionHandler.HandleConstraintViolation | src/main/java/com/dev/marchenko/exception/GlobalExceptionHandler.java:43-62 | the chosen message is the constraint message of the chain's extracted name |
| ExceptionHandler.LotNameAfterKeywordGivesLotMessage | src/main/java/com/dev/marchenko/exception/GlobalExceptionHandler.java:48-53 | a cause naming the lot constraint after the keyword, in any case, gets the lot-name message |
| ExceptionHandler.OuterKeywordShadowsInnerName | src/main/java/com/dev/marchenko/exception/GlobalExceptionHandler.java:64-74 | an outer cause "CONSTRAINT [NULL]" wins over any inner cause, and the response falls back to the generic message |
| ExceptionHandler.RewriteIllegalArgument | src/main/java/com/dev/marchenko/exception/GlobalExceptionHandler.java:88-97 | a message containing the plate/type phrase becomes the fixed message; any other message, and a null one, passes through |
| ExceptionHandler.PlateRegisteredMessageIsRewritten | src/main/java/com/dev/marchenko/exception/LicensePlateAlreadyRegisteredException.java:8-10 | the plate exception's message carries the phrase the rewrite looks for, whatever the plate |

## Left out

- Concurrency and locking: the pessimistic write lock and its 3000 ms timeout on the slot query are not modelled. Operations run one at a time, and the threaded tests become the sequential lemma `Parking.OneFreeSlotAdmitsOneVehicle`.
- Persistence machinery: JPA sessions, lazy loading and flush order are not modelled. A transaction is modelled as "an error leaves the store unchanged". Entity objects are rows in the store's maps, so aliasing between loaded objects is not modelled.
- Foreign keys of closed tickets: only an open ticket must reference an existing slot. Admin deletions may leave a closed ticket pointing to a deleted slot, where a real database would refuse the delete.
- Unique constraints on (lot, floor number) and (level, slot number): no entity declares them, so the model does not check for duplicates. Only the lot-name constraint is modelled, as `DataIntegrityViolation` in `Admin.CreateLotStep`.
- Clock: `LocalDateTime.now()` is the `now` parameter, in whole seconds. Timestamps finer than a second are not modelled.
- HTTP layer: controllers, request and response records, bean validation (`@NotBlank`, `@NotNull`), `buildResponse` and the status codes are not modelled. The 20-character width of the plate column is not modelled: plates are unbounded strings.
- `ParkingMapper`'s check-out response, its duration field and its two-decimal rounding are not modelled. `MoneyFormatter` and the currency formatter bean are not modelled either. Fees are whole currency units.
- `MotorcyclePricingStrategy` is not modelled: it uses floating point, has no one-hour minimum, and belongs to the older interface revision. The configured motorcycle bean is modelled instead.
- Mixed revisions are modelled as written. `PricingStrategy` declares `getVehicleType`, while `PricingService` calls `getSupportedVehicleTypes`; the model follows `UniversalHourlyStrategy`, which has both roles. The vehicle subclasses call a `Vehicle` constructor that does not exist; the model uses the type tag. `checkIn` takes two arguments, while the controller passes three. `checkOut`'s response mapping is not modelled; the model returns the closed ticket.
- ExceptionHandler.ToUpper: upper-casing is ASCII only. Locale rules (such as the Turkish dotless i) and non-ASCII letters are not modelled.
- ExceptionHandler.ConstraintName: the chain of causes is a finite list of messages. A cyclic cause chain is not modelled.
- ExceptionHandler.IndexOf: it assumes a non-empty pattern where Java's `indexOf` differs for an empty pattern past the end. Every pattern the handler uses is non-empty.
- ExceptionHandler.RewriteIllegalArgument: idempotence is not proved, because it needs a character-by-character check that the fixed message lacks the phrase. The rewrite never fires for `LicensePlateAlreadyRegisteredException` in the running system, because that exception is not an `IllegalArgumentException`. `ExceptionHandler.PlateRegisteredMessageIsRewritten` shows only that the phrases match.
- Parking.ParkingService.CheckIn: check-in is modelled over the corrected slot query, and so are `Parking.FindSlot`, `Parking.CheckInRefusal` and `Parking.CheckInOutcome`. As written, check-in fails with the query's incorrect-result-size error, and is rolled back, whenever the first listed class with a free slot has two or more. `Parking.FindSlotAsWritten` and `Parking.CarCheckInAsWrittenFailsOnTwoFreeCompactSlots` state that behaviour for the search alone.
- Repositories.FindFirstAvailable: the scan visits the rows in an unspecified order. Among slots on the lowest floor, which one is returned is left open, as the query leaves it.
- `Parking.ParkingService.CheckInAccessible` is derived from the integration tests, not from the service code, which has no such search.

## Findings

| source | as written | input that shows it | evidently intended | confidence | as-written member | corrected member |
|---|---|---|---|---|---|---|
| src/main/java/com/dev/marchenko/repository/SlotRepository.java:21-22 | The explicit `@Query` has no row limit, and the method returns `Optional<ParkingSlot>`. The "First" in the method name does not limit an explicit query, so the query must select at most one row and fails when two or more qualify. | Two free COMPACT slots on the same floor: the query selects both and raises an incorrect-result-size error instead of returning one. | Return the first row of the ordered selection: a free slot of the class on the lowest floor, or empty when there is none. | not executed | Repositories.SingleResultQuery | Repositories.FindFirstAvailable |
