/** Fees: the ceil-hour strategy (UniversalHourlyStrategy and the older HourlyPricingStrategy with
    its Car and Truck subclasses), the three configured strategies (PricingConfig) and the
    type-to-strategy registry with its fee calculation (PricingService). Amounts are integers: every
    configured rate is a whole number of currency units per hour. */
module Pricing {
  import opened Wrappers
  import opened Errors
  import opened Vehicles

  const MinutesPerHour := 60
  const SecondsPerMinute := 60

  /** Duration.between(entry, exit).toMinutes() for timestamps in seconds with exit not before
      entry: the whole minutes elapsed, a partial minute dropped. */
  function WholeMinutes(entry: int, exit: int): (minutes: nat)
    requires entry <= exit
    ensures minutes * SecondsPerMinute <= exit - entry < (minutes + 1) * SecondsPerMinute
  {
    (exit - entry) / SecondsPerMinute
  }

  /** The billable hours of a stay: whole hours rounded up, and never fewer than one. */
  function BillableHours(minutes: nat): (hours: nat)
    ensures 1 <= hours
    ensures minutes <= hours * MinutesPerHour
    ensures hours == 1 || (hours - 1) * MinutesPerHour < minutes
  {
    var hours := (minutes + 59) / 60;
    if hours == 0 then 1 else hours
  }

  /** A strategy that bills `rate` per started hour for the vehicle types it lists. */
  datatype UniversalHourlyStrategy = UniversalHourlyStrategy(rate: int, supportedTypes: seq<VehicleType>)
  {
    /** The fee for a stay of `minutes`: the rate for every billable hour, so at least the rate (the
        one-hour minimum), and exactly the rate for a stay of up to one hour. */
    function CalculateFee(minutes: nat): (fee: int)
      ensures fee == rate * BillableHours(minutes)
      ensures 0 <= rate ==> rate <= fee
      ensures minutes <= MinutesPerHour ==> fee == rate
    {
      rate * BillableHours(minutes)
    }

    /** getSupportedVehicleTypes: the list given at construction. */
    function GetSupportedVehicleTypes(): (types: seq<VehicleType>)
      ensures |types| == |supportedTypes|
      ensures forall i :: 0 <= i < |types| ==> types[i] == supportedTypes[i]
    {
      supportedTypes
    }
  }

  /** For a non-negative rate, a longer stay never costs less. */
  lemma FeeMonotone(s: UniversalHourlyStrategy, shorter: nat, longer: nat)
    requires 0 <= s.rate
    requires shorter <= longer
    ensures s.CalculateFee(shorter) <= s.CalculateFee(longer)
  {
    var h1, h2 := BillableHours(shorter), BillableHours(longer);
    assert h1 <= h2;
    MultiplyMonotone(s.rate, h1, h2);
  }

  lemma MultiplyMonotone(rate: int, a: int, b: int)
    requires 0 <= rate && a <= b
    ensures rate * a <= rate * b
  {
    assert rate * b - rate * a == rate * (b - a);
  }

  /** Billable hours are exactly the rounded-up hours: a stay of h whole hours bills h, one more
      minute bills h + 1. */
  lemma {:induction false} BillableHoursOfWholeHours(hours: nat)
    requires 1 <= hours
    ensures BillableHours(hours * MinutesPerHour) == hours
    ensures BillableHours(hours * MinutesPerHour + 1) == hours + 1
  {
  }

  /** The older abstract HourlyPricingStrategy with its two concrete subclasses: each fixes a rate
      and a vehicle type, and the fee formula is written out once more in the parent. */
  datatype HourlyPricingStrategy = CarPricingStrategy | TruckPricingStrategy
  {
    function GetRate(): (rate: int)
      ensures 0 < rate
    {
      match this
      case CarPricingStrategy => 2
      case TruckPricingStrategy => 3
    }

    function GetVehicleType(): VehicleType {
      match this
      case CarPricingStrategy => VehicleType.CAR
      case TruckPricingStrategy => VehicleType.TRUCK
    }

    /** HourlyPricingStrategy.calculateFee, parameterised by the subclass's rate. */
    function CalculateFee(minutes: nat): int {
      var billableHours := (minutes + 59) / 60;
      var billed := if billableHours == 0 then 1 else billableHours;
      GetRate() * billed
    }
  }

  /** For each legacy subclass and every stay, the older formula and UniversalHourlyStrategy at the
      subclass's rate agree. */
  lemma HourlyAgreesWithUniversal(s: HourlyPricingStrategy, minutes: nat)
    ensures s.CalculateFee(minutes) == UniversalHourlyStrategy(s.GetRate(), [s.GetVehicleType()]).CalculateFee(minutes)
  {
  }

  /** Each legacy subclass charges what the configured strategy for its vehicle type charges. */
  lemma HourlyAgreesWithConfig(s: HourlyPricingStrategy, minutes: nat)
    ensures s.CalculateFee(minutes) == ConfiguredStrategyFor(s.GetVehicleType()).CalculateFee(minutes)
  {
    HourlyAgreesWithUniversal(s, minutes);
  }

  /** Worked fees of the legacy strategies: a zero-minute car stay costs the one-hour minimum 2, two
      hours cost 4; a zero-minute truck stay costs 3 and 61 minutes cost 6. */
  lemma HourlyExamples()
    ensures CarPricingStrategy.GetRate() == 2 && CarPricingStrategy.GetVehicleType() == VehicleType.CAR
    ensures TruckPricingStrategy.GetRate() == 3 && TruckPricingStrategy.GetVehicleType() == VehicleType.TRUCK
    ensures CarPricingStrategy.CalculateFee(0) == 2 && CarPricingStrategy.CalculateFee(120) == 4
    ensures TruckPricingStrategy.CalculateFee(0) == 3 && TruckPricingStrategy.CalculateFee(61) == 6
  {
  }

  // ----- PricingConfig: the three strategy beans -----

  function MotorcycleStrategy(): (s: UniversalHourlyStrategy)
    ensures s.rate == 1 && s.supportedTypes == [VehicleType.MOTORCYCLE]
  {
    UniversalHourlyStrategy(1, [VehicleType.MOTORCYCLE])
  }

  function CarStrategy(): (s: UniversalHourlyStrategy)
    ensures s.rate == 2 && s.supportedTypes == [VehicleType.CAR]
  {
    UniversalHourlyStrategy(2, [VehicleType.CAR])
  }

  function TruckStrategy(): (s: UniversalHourlyStrategy)
    ensures s.rate == 3 && s.supportedTypes == [VehicleType.TRUCK]
  {
    UniversalHourlyStrategy(3, [VehicleType.TRUCK])
  }

  /** The strategy beans in declaration order, as injected into PricingService. */
  function ConfiguredStrategies(): seq<UniversalHourlyStrategy> {
    [MotorcycleStrategy(), CarStrategy(), TruckStrategy()]
  }

  /** The configured bean that claims `t`. */
  function ConfiguredStrategyFor(t: VehicleType): (s: UniversalHourlyStrategy)
    ensures s in ConfiguredStrategies() && t in s.supportedTypes
  {
    match t
    case MOTORCYCLE => MotorcycleStrategy()
    case CAR => CarStrategy()
    case TRUCK => TruckStrategy()
  }

  /** Each vehicle type is claimed by exactly one configured bean. */
  lemma ConfiguredBeansAreDisjoint(t: VehicleType, i: nat)
    requires i < |ConfiguredStrategies()|
    ensures t in ConfiguredStrategies()[i].supportedTypes <==> ConfiguredStrategies()[i] == ConfiguredStrategyFor(t)
  {
  }

  /** For equal stays a motorcycle pays less than a car, and a car less than a truck. */
  lemma ConfiguredFeeOrder(minutes: nat)
    ensures MotorcycleStrategy().CalculateFee(minutes) < CarStrategy().CalculateFee(minutes)
    ensures CarStrategy().CalculateFee(minutes) < TruckStrategy().CalculateFee(minutes)
  {
  }

  // ----- PricingService -----

  /** Registers `s` for each type of `types` in order, over the table `m`. */
  function RegisterAll(m: map<VehicleType, UniversalHourlyStrategy>, s: UniversalHourlyStrategy, types: seq<VehicleType>)
    : (r: map<VehicleType, UniversalHourlyStrategy>)
    ensures forall t :: t in r <==> t in m || t in types
    ensures forall t :: t in r ==> r[t] == if t in types then s else m[t]
    decreases |types|
  {
    if types == [] then m
    else RegisterAll(m, s, types[..|types| - 1])[types[|types| - 1] := s]
  }

  /** The table the PricingService constructor builds: strategies in list order, each registered
      for every type it supports, a later strategy replacing an earlier one for a shared type. */
  function Registry(strategyList: seq<UniversalHourlyStrategy>): map<VehicleType, UniversalHourlyStrategy>
    decreases |strategyList|
  {
    if strategyList == [] then map[]
    else
      var last := strategyList[|strategyList| - 1];
      RegisterAll(Registry(strategyList[..|strategyList| - 1]), last, last.supportedTypes)
  }

  /** The index of the last strategy of the list that supports `t`, if any. */
  function LastClaimant(strategyList: seq<UniversalHourlyStrategy>, t: VehicleType): (r: Option<nat>)
    ensures r.Some? ==> r.value < |strategyList| && t in strategyList[r.value].supportedTypes
    ensures r.Some? ==> forall j :: r.value < j < |strategyList| ==> t !in strategyList[j].supportedTypes
    ensures r.None? <==> forall j :: 0 <= j < |strategyList| ==> t !in strategyList[j].supportedTypes
    decreases |strategyList|
  {
    if strategyList == [] then None
    else if t in strategyList[|strategyList| - 1].supportedTypes then Some(|strategyList| - 1)
    else LastClaimant(strategyList[..|strategyList| - 1], t)
  }

  /** A type is registered iff some strategy supports it, and it maps to the LAST strategy of the
      list that supports it. */
  lemma {:induction false} RegistryPicksLastClaimant(strategyList: seq<UniversalHourlyStrategy>, t: VehicleType)
    ensures t in Registry(strategyList) <==> LastClaimant(strategyList, t).Some?
    ensures t in Registry(strategyList) ==> Registry(strategyList)[t] == strategyList[LastClaimant(strategyList, t).value]
    decreases |strategyList|
  {
    if strategyList != [] {
      var n := |strategyList| - 1;
      RegistryPicksLastClaimant(strategyList[..n], t);
    }
  }

  /** After construction every registered type maps to a strategy that supports it. */
  lemma RegisteredStrategySupportsType(strategyList: seq<UniversalHourlyStrategy>, t: VehicleType)
    requires t in Registry(strategyList)
    ensures t in Registry(strategyList)[t].supportedTypes
    ensures Registry(strategyList)[t] in strategyList
  {
    RegistryPicksLastClaimant(strategyList, t);
  }

  /** With the configured beans every vehicle type is registered, to the bean that claims it. */
  lemma ConfiguredRegistryIsTotal(t: VehicleType)
    ensures t in Registry(ConfiguredStrategies())
    ensures Registry(ConfiguredStrategies())[t] == ConfiguredStrategyFor(t)
  {
    var list := ConfiguredStrategies();
    RegistryPicksLastClaimant(list, t);
    var k := if t == VehicleType.MOTORCYCLE then 0 else if t == VehicleType.CAR then 1 else 2;
    ConfiguredBeansAreDisjoint(t, k);
    var i := LastClaimant(list, t).value;
    ConfiguredBeansAreDisjoint(t, i);
  }

  /** PricingService: the vehicle-type-to-strategy table it was constructed with. */
  datatype PricingService = PricingService(strategies: map<VehicleType, UniversalHourlyStrategy>)
  {
    /** PricingService.calculate: an exit before the entry is rejected first; then a type without a
        strategy is rejected; otherwise the fee is that strategy's fee for the whole minutes. */
    function Calculate(vehicleType: VehicleType, entry: int, exit: int): (r: Result<int, ParkingError>)
      ensures exit < entry <==> r == Err(InvalidInterval)
      ensures r == Err(NoPricingStrategy) <==> entry <= exit && vehicleType !in strategies
      ensures r.Ok? ==> entry <= exit && vehicleType in strategies
      ensures r.Ok? ==> r.value == strategies[vehicleType].CalculateFee(WholeMinutes(entry, exit))
    {
      if exit < entry then Err(InvalidInterval)
      else if vehicleType !in strategies then Err(NoPricingStrategy)
      else Ok(strategies[vehicleType].CalculateFee(WholeMinutes(entry, exit)))
    }
  }

  /** The PricingService constructor: walk the strategies and, for each, every type it supports,
      putting the strategy into the table under that type. */
  method NewPricingService(strategyList: seq<UniversalHourlyStrategy>) returns (service: PricingService)
    ensures service.strategies == Registry(strategyList)
  {
    var strategies: map<VehicleType, UniversalHourlyStrategy> := map[];
    for i := 0 to |strategyList|
      invariant strategies == Registry(strategyList[..i])
    {
      var strategy := strategyList[i];
      var types := strategy.GetSupportedVehicleTypes();
      for j := 0 to |types|
        invariant strategies == RegisterAll(Registry(strategyList[..i]), strategy, types[..j])
      {
        assert types[..j + 1][..j] == types[..j];
        strategies := strategies[types[j] := strategy];
      }
      assert types[..|types|] == types;
      assert strategyList[..i + 1][..i] == strategyList[..i];
    }
    assert strategyList[..|strategyList|] == strategyList;
    service := PricingService(strategies);
  }

  /** With the configured beans, calculate never reports a missing strategy: it charges
      rate x billable hours of the whole minutes, or rejects an exit before the entry. */
  lemma ConfiguredCalculate(vehicleType: VehicleType, entry: int, exit: int)
    ensures PricingService(Registry(ConfiguredStrategies())).Calculate(vehicleType, entry, exit)
      == if exit < entry then Err(InvalidInterval)
         else Ok(ConfiguredStrategyFor(vehicleType).rate * BillableHours(WholeMinutes(entry, exit)))
  {
    ConfiguredRegistryIsTotal(vehicleType);
  }

  /** The stays the tests price: 10:00 to 11:30 is 90 whole minutes and costs a car 4; two hours
      cost a car 4.00; entry equal to exit is 0 minutes, billed as one hour. */
  lemma ConfiguredExamples(entry: int)
    ensures WholeMinutes(entry, entry + 5400) == 90
    ensures PricingService(Registry(ConfiguredStrategies())).Calculate(VehicleType.CAR, entry, entry + 5400) == Ok(4)
    ensures PricingService(Registry(ConfiguredStrategies())).Calculate(VehicleType.CAR, entry, entry + 7200) == Ok(4)
    ensures PricingService(Registry(ConfiguredStrategies())).Calculate(VehicleType.TRUCK, entry, entry) == Ok(3)
    ensures PricingService(Registry(ConfiguredStrategies())).Calculate(VehicleType.MOTORCYCLE, entry, entry + 59) == Ok(1)
  {
    ConfiguredCalculate(VehicleType.CAR, entry, entry + 5400);
    ConfiguredCalculate(VehicleType.CAR, entry, entry + 7200);
    ConfiguredCalculate(VehicleType.TRUCK, entry, entry);
    ConfiguredCalculate(VehicleType.MOTORCYCLE, entry, entry + 59);
  }
}
