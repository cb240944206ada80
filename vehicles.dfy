/** Vehicles: a licence plate identity and a fixed vehicle type (Vehicle, Car, Truck, Motorcycle,
    VehicleFactory). The subclass hierarchy is a type tag. */
module Vehicles {
  import opened Wrappers

  datatype VehicleType = MOTORCYCLE | CAR | TRUCK

  /** A vehicle row: the plate is the identity, the type is fixed for the row's lifetime. */
  datatype Vehicle = Vehicle(licensePlate: string, vehicleType: VehicleType)

  /** The vehicle types that VehicleFactory's registry holds a constructor for. */
  function FactoryRegistry(): (types: set<VehicleType>) {
    {VehicleType.CAR, VehicleType.TRUCK, VehicleType.MOTORCYCLE}
  }

  /** VehicleFactory.createVehicle: look the type up in the fixed registry and build that kind of
      vehicle for the plate; a type without a registry entry is rejected. */
  function CreateVehicle(licensePlate: string, vehicleType: VehicleType): (r: Option<Vehicle>)
    ensures r.Some?
    ensures r.value.licensePlate == licensePlate && r.value.vehicleType == vehicleType
  {
    RegistryCoversEveryType(vehicleType);
    if vehicleType in FactoryRegistry() then Some(Vehicle(licensePlate, vehicleType)) else assert false; None
  }

  /** Every vehicle type has a registry entry, so the factory's "Unknown vehicle type" branch is
      unreachable. */
  lemma RegistryCoversEveryType(vehicleType: VehicleType)
    ensures vehicleType in FactoryRegistry()
  {
    match vehicleType
    case MOTORCYCLE =>
    case CAR =>
    case TRUCK =>
  }
}
