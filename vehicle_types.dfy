/** Values exchanged with the simulated vehicle hardware: property values,
    their payloads, status codes and the batched request/result records. */
module VehicleTypes {

  datatype Option<+T> = None | Some(value: T)

  /** Per-item status code of a get or set request. */
  datatype StatusCode = Ok | InvalidArg | NotAvailable

  /** Status carried by a property value; the zero value is Available. */
  datatype PropertyStatus = Available | Unavailable | Error

  /** The payload of a property (RawPropValues). Floating-point values are
      modelled as reals: the tests only compare them for equality and order. */
  datatype RawPropValues = RawPropValues(
    int32Values: seq<int>,
    floatValues: seq<real>,
    int64Values: seq<int>,
    byteValues: seq<int>,
    stringValue: string)

  /** `RawPropValues{}`: every field empty. */
  const EmptyRawValues := RawPropValues([], [], [], [], "")

  /** A property value; fields in the order of the AIDL record. */
  datatype VehiclePropValue = VehiclePropValue(
    timestamp: int,
    areaId: int,
    prop: int,
    status: PropertyStatus,
    value: RawPropValues)

  /** `VehiclePropValue{.prop = p, .areaId = a, .value = v}`: the remaining
      fields keep their zero values. */
  function PropValueOf(prop: int, areaId: int, value: RawPropValues): VehiclePropValue
  {
    VehiclePropValue(0, areaId, prop, Available, value)
  }

  /** The key under which the store keeps a value. */
  datatype PropIdAreaId = PropIdAreaId(prop: int, areaId: int)

  function KeyOf(v: VehiclePropValue): PropIdAreaId
  {
    PropIdAreaId(v.prop, v.areaId)
  }

  datatype GetValueRequest = GetValueRequest(requestId: int, prop: VehiclePropValue)

  /** `prop` is present only for a successful read. */
  datatype GetValueResult = GetValueResult(requestId: int, status: StatusCode, prop: Option<VehiclePropValue>)

  datatype SetValueRequest = SetValueRequest(requestId: int, value: VehiclePropValue)

  datatype SetValueResult = SetValueResult(requestId: int, status: StatusCode)

  /** The property id the tests use for an unknown property. */
  const INVALID_PROP_ID := 0

  /** Property ids are 32-bit; bits 24..27 hold the area type, and 1 means global. */
  const AREA_TYPE_GLOBAL := 1

  function AreaType(prop: int): (t: int)
    ensures 0 <= t < 16
  {
    (prop % 0x1_0000_0000) / 0x100_0000 % 0x10
  }

  /** isGlobalProp: `(prop & VehicleArea::MASK) == VehicleArea::GLOBAL`. */
  predicate IsGlobalProp(prop: int)
  {
    AreaType(prop) == AREA_TYPE_GLOBAL
  }

  /** Ids of the properties the tests address (values of the AIDL enums). */
  const INFO_FUEL_CAPACITY := 0x1160_0104
  const TIRE_PRESSURE := 0x1760_0309
  const VEHICLE_MAP_SERVICE := 0x11e0_0c00
  const WHEEL_FRONT_LEFT := 0x1
  const WHEEL_FRONT_RIGHT := 0x2

  /** A value with its timestamp cleared, as the tests compare values. */
  function WithoutTimestamp(v: VehiclePropValue): VehiclePropValue
  {
    v.(timestamp := 0)
  }

  function AllWithoutTimestamp(vs: seq<VehiclePropValue>): (r: seq<VehiclePropValue>)
    ensures |r| == |vs|
    ensures forall i :: 0 <= i < |vs| ==> r[i] == WithoutTimestamp(vs[i])
  {
    seq(|vs|, i requires 0 <= i < |vs| => WithoutTimestamp(vs[i]))
  }
}
