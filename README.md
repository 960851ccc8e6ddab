# FakeVehicleHardware, as its test suite pins it down

A model of the simulated vehicle property bus `FakeVehicleHardware` of the
Android automotive vehicle HAL, reconstructed from its GoogleTest suite
`FakeVehicleHardwareTest.cpp`, together with the test fixture and each test
case of that suite. The implementation file of the hardware is not part of
this model; its behaviour is what the suite asserts.

- `vehicle_types.dfy` (module `VehicleTypes`): property values, their
  payloads (`RawPropValues`), status codes, the batched get/set request and
  result records, the property ids the tests use and `isGlobalProp`.
- `prop_value_order.dfy` (module `PropValueOrder`): the fixture's
  `PropValueCmp`, built from `operator<` on vectors (lexicographic) and on
  the payload record (member-wise), proved a strict order; and the fact that
  sorting by it determines the result, which is what the change-event test
  relies on.
- `seeding.dfy` (module `Seeding`): the seeding decision for one
  configuration entry and one area, and the store it builds at construction.
- `fake_vehicle_hardware.dfy` (module `FakeHardware`): the hardware as a
  class with a store (`map` from (prop, areaId) to value), a clock and a
  listener flag; `getValues`/`setValues` as methods with loops, proved
  against the specification functions `ReadResult` and `ApplySets`, and the
  lemmas that state what a batch does.
- `fake_vehicle_hardware_test.dfy` (module `HardwareTest`): the fixture
  class (result accumulators, `addSetValueRequest`/`addGetValueRequest`),
  and one method per test case whose postconditions are the test's
  assertions.

The configuration table (`defaultconfig::getDefaultConfigs()`) is an input
sequence of entries; each area config is reduced to its area id. Every test
method takes the table and the clock reading at construction as parameters
and requires of the table only what the test presumes (the test properties
are configured, prop id 0 is not, no prop is configured twice,
VEHICLE_MAP_SERVICE is a global property without an initial value).

Three behaviours that are easy to get wrong; the tests pin down the first two:
- A set does not keep the caller's timestamp: the store stamps the value
  with a clock reading. The read test takes its reference reading after the
  requests were stamped (`:96`, `:304`) and still expects stored timestamps
  no smaller than it (`:325`).
- When an area-scoped entry has per-area initial values, an area missing
  from them reads NOT_AVAILABLE; the property-level initial value is not a
  fallback (the per-area branch `:191-202`, the rule itself `:197-202`).
- A change event is emitted for every accepted write, whether or not it
  changes the stored value; the tests do not distinguish the two.

## Model

| member | source | states |
|---|---|---|
| VehicleTypes.IsGlobalProp | automotive/vehicle/aidl/impl/fake_impl/hardware/test/FakeVehicleHardwareTest.cpp:171 | the definition of `isGlobalProp`: the area-type bits (24 to 27) of the 32-bit prop id, which AreaType extracts and bounds to 0..15, equal the global area type 1 |
| PropValueOrder.LexLess | automotive/vehicle/aidl/impl/fake_impl/hardware/test/FakeVehicleHardwareTest.cpp:146 | the definition of `operator<` on vectors (first differing position decides, a proper prefix is less); its properties are stated by LexLessIrreflexive, LexLessTransitive, LexLessTrichotomy and LexLessAsymmetric |
| PropValueOrder.LexLessIrreflexive | automotive/vehicle/aidl/impl/fake_impl/hardware/test/FakeVehicleHardwareTest.cpp:144-149 | `operator<` on vectors, under a strict total element order, never holds between a vector and itself |
| PropValueOrder.LexLessTransitive | automotive/vehicle/aidl/impl/fake_impl/hardware/test/FakeVehicleHardwareTest.cpp:144-149 | lexicographic vector order is transitive |
| PropValueOrder.LexLessTrichotomy | automotive/vehicle/aidl/impl/fake_impl/hardware/test/FakeVehicleHardwareTest.cpp:144-149 | two vectors are equal or one is lexicographically less than the other |
| PropValueOrder.LexLessAsymmetric | automotive/vehicle/aidl/impl/fake_impl/hardware/test/FakeVehicleHardwareTest.cpp:144-149 | no two vectors are each less than the other |
| PropValueOrder.RawLess | automotive/vehicle/aidl/impl/fake_impl/hardware/test/FakeVehicleHardwareTest.cpp:146 | the definition of `a.value < b.value`: member-wise over the payload record, each member compared by LexLess; RawLessIsStrictTotal states that it is a strict total order |
| PropValueOrder.RawLessIsStrictTotal | automotive/vehicle/aidl/impl/fake_impl/hardware/test/FakeVehicleHardwareTest.cpp:146 | `a.value < b.value` (member-wise over int32, float, int64, byte and string fields) is irreflexive, transitive and total on distinct payloads |
| PropValueOrder.PropValueCmp | automotive/vehicle/aidl/impl/fake_impl/hardware/test/FakeVehicleHardwareTest.cpp:144-149 | the definition of the fixture's comparator: by prop, then payload, then area id, ignoring timestamp and status; PropValueCmpIrreflexive, PropValueCmpTransitive and PropValueCmpEquivalence state that it is a strict weak order whose ties differ only in timestamp and status |
| PropValueOrder.PropValueCmpIrreflexive | automotive/vehicle/aidl/impl/fake_impl/hardware/test/FakeVehicleHardwareTest.cpp:144-149 | PropValueCmp never holds between a value and itself |
| PropValueOrder.PropValueCmpTransitive | automotive/vehicle/aidl/impl/fake_impl/hardware/test/FakeVehicleHardwareTest.cpp:144-149 | PropValueCmp is transitive |
| PropValueOrder.PropValueCmpEquivalence | automotive/vehicle/aidl/impl/fake_impl/hardware/test/FakeVehicleHardwareTest.cpp:144-149 | two values are incomparable under PropValueCmp exactly when prop, payload and area id agree |
| PropValueOrder.SortedHeadsEqual | automotive/vehicle/aidl/impl/fake_impl/hardware/test/FakeVehicleHardwareTest.cpp:292 | two PropValueCmp-sorted permutations of values sharing timestamp and status start with the same element |
| PropValueOrder.SortedPermutationUnique | automotive/vehicle/aidl/impl/fake_impl/hardware/test/FakeVehicleHardwareTest.cpp:292 | two PropValueCmp-sorted permutations of such values are equal, so sorting by PropValueCmp determines the result |
| Seeding.InitialValueFor | automotive/vehicle/aidl/impl/fake_impl/hardware/test/FakeVehicleHardwareTest.cpp:171-204 | the definition of the seeding decision for one entry and area: a global prop takes its initial value; an area-scoped prop without per-area values takes its initial value; otherwise the area's own entry; an empty value or a missing area means no value. SeedStoreLookup, SeededGetGlobal and SeededGetArea tie the store and the reads to it |
| Seeding.RegisteredIffDeclared | automotive/vehicle/aidl/impl/fake_impl/hardware/test/FakeVehicleHardwareTest.cpp:169-170 | a prop id is configured exactly when some entry of the table declares it |
| Seeding.SeedStoreValid | automotive/vehicle/aidl/impl/fake_impl/hardware/test/FakeVehicleHardwareTest.cpp:169-206 | every seeded value sits under its own key, belongs to a configured prop, is Available, and carries exactly the construction-time stamp |
| Seeding.ConfigEntriesLookup | automotive/vehicle/aidl/impl/fake_impl/hardware/test/FakeVehicleHardwareTest.cpp:171-205 | one entry seeds exactly the keys of its areas that the seeding decision gives a payload, with that payload |
| Seeding.SeedStoreLookup | automotive/vehicle/aidl/impl/fake_impl/hardware/test/FakeVehicleHardwareTest.cpp:169-206 | with no prop configured twice, a configured key holds a seeded value iff the seeding decision gives a payload, and the value is exactly that payload, Available, stamped at construction |
| Seeding.SeedStoreUnconfigured | automotive/vehicle/aidl/impl/fake_impl/hardware/test/FakeVehicleHardwareTest.cpp:169-206 | a key of an unconfigured prop has no seeded value |
| FakeHardware.ReadResult | automotive/vehicle/aidl/impl/fake_impl/hardware/test/FakeVehicleHardwareTest.cpp:60-64 | the definition of one get: InvalidArg for an unconfigured prop, Ok with the stored value when the key holds one, NotAvailable otherwise; FakeVehicleHardware.GetValues is proved equal to it per request, and SetThenGet, SeededGetGlobal and SeededGetArea state what it returns after a set and after construction |
| FakeHardware.SetStep | automotive/vehicle/aidl/impl/fake_impl/hardware/test/FakeVehicleHardwareTest.cpp:54-58 | the definition of one set: InvalidArg and nothing else for an unconfigured prop, otherwise the value is stamped with a clock reading, stored with status Available, reported Ok and emitted as an event; its effect over a batch is stated by the ApplySets lemmas below |
| FakeHardware.ApplySets | automotive/vehicle/aidl/impl/fake_impl/hardware/test/FakeVehicleHardwareTest.cpp:54-58 | the definition of a set batch as SetStep applied in request order; ApplySetsResults, ApplySetsStamps, ApplySetsEvents, ApplySetsStore, InvalidRequestIsInert and SetThenGet state what it does, and FakeVehicleHardware.SetValues is proved equal to it |
| FakeHardware.ApplySetsResults | automotive/vehicle/aidl/impl/fake_impl/hardware/test/FakeVehicleHardwareTest.cpp:222-263 | a set batch gives exactly one result per request, in request order, echoing its requestId, Ok for a configured prop and InvalidArg otherwise |
| FakeHardware.ApplySetsStamps | automotive/vehicle/aidl/impl/fake_impl/hardware/test/FakeVehicleHardwareTest.cpp:277-286 | the clock never goes back, a batch only appends events, and every new event is stamped with a reading taken during the batch |
| FakeHardware.ApplySetsEvents | automotive/vehicle/aidl/impl/fake_impl/hardware/test/FakeVehicleHardwareTest.cpp:265-292 | a batch appends one change event per accepted request which, timestamp aside, is the request's value with status Available, in request order (the stamps are ApplySetsStamps) |
| FakeHardware.AcceptedAll | automotive/vehicle/aidl/impl/fake_impl/hardware/test/FakeVehicleHardwareTest.cpp:265-292 | a batch of configured props accepts every request |
| FakeHardware.ApplySetsStore | automotive/vehicle/aidl/impl/fake_impl/hardware/test/FakeVehicleHardwareTest.cpp:295-331 | after a batch a key holds a value iff it held one or was written; a written key holds its last accepted write stamped during the batch; other keys keep their values |
| FakeHardware.LastWriteOfLatest | automotive/vehicle/aidl/impl/fake_impl/hardware/test/FakeVehicleHardwareTest.cpp:295-331 | an accepted write not followed by another to the same key is the last write to that key |
| FakeHardware.SetThenGet | automotive/vehicle/aidl/impl/fake_impl/hardware/test/FakeVehicleHardwareTest.cpp:295-331 | a get after a set on the same key, when no later request of the batch writes that key (the last write wins, see ApplySetsStore), returns Ok with the set key and payload, status Available whatever the caller sent, and a timestamp no earlier than the clock before the set |
| FakeHardware.InvalidRequestIsInert | automotive/vehicle/aidl/impl/fake_impl/hardware/test/FakeVehicleHardwareTest.cpp:240-263 | a request for an unconfigured prop anywhere in a batch leaves store, clock and events exactly as the batch without it |
| FakeHardware.ApplySetsIgnoresResults | automotive/vehicle/aidl/impl/fake_impl/hardware/test/FakeVehicleHardwareTest.cpp:240-263 | results already gathered do not influence the store, clock or events a batch produces |
| FakeHardware.SeededGetGlobal | automotive/vehicle/aidl/impl/fake_impl/hardware/test/FakeVehicleHardwareTest.cpp:171-184 | right after construction a get on a global prop is NotAvailable iff its initial value is empty, else Ok with exactly that value |
| FakeHardware.SeededGetArea | automotive/vehicle/aidl/impl/fake_impl/hardware/test/FakeVehicleHardwareTest.cpp:185-205 | right after construction a get on an area reads the prop's initial value (NotAvailable if empty) when there are no per-area values, else that area's entry (NotAvailable if absent) |
| FakeHardware.FakeVehicleHardware.constructor | automotive/vehicle/aidl/impl/fake_impl/hardware/test/FakeVehicleHardwareTest.cpp:152 | the hardware starts with the seeded store, the store invariant, and no listener |
| FakeHardware.FakeVehicleHardware.ElapsedRealtimeNano | automotive/vehicle/aidl/impl/fake_impl/hardware/test/FakeVehicleHardwareTest.cpp:96 | a clock reading returns the current time and later readings are larger; the store invariant is kept |
| FakeHardware.FakeVehicleHardware.GetAllPropertyConfigs | automotive/vehicle/aidl/impl/fake_impl/hardware/test/FakeVehicleHardwareTest.cpp:158-162 | one configuration per table entry, in table order |
| FakeHardware.FakeVehicleHardware.RegisterOnPropertyChangeEvent | automotive/vehicle/aidl/impl/fake_impl/hardware/test/FakeVehicleHardwareTest.cpp:266-268 | a listener is registered afterwards |
| FakeHardware.FakeVehicleHardware.GetValues | automotive/vehicle/aidl/impl/fake_impl/hardware/test/FakeVehicleHardwareTest.cpp:60-64 | overall Ok, and the results are the per-request reads of the unchanged store, in request order |
| FakeHardware.FakeVehicleHardware.SetValues | automotive/vehicle/aidl/impl/fake_impl/hardware/test/FakeVehicleHardwareTest.cpp:54-58 | overall Ok; new store, clock and results are those of `ApplySets`; the listener receives its events only when registered; the store invariant is kept |
| HardwareTest.GetTestPropValues | automotive/vehicle/aidl/impl/fake_impl/hardware/test/FakeVehicleHardwareTest.cpp:123-142 | three values with distinct keys, zero timestamp and status Available; the first is of a global prop, the others of an area-scoped one |
| HardwareTest.DefaultCasesFromTable | automotive/vehicle/aidl/impl/fake_impl/hardware/test/FakeVehicleHardwareTest.cpp:169-206 | every case the default-value test visits is a table entry with one of its areas |
| HardwareTest.CaseExpected | automotive/vehicle/aidl/impl/fake_impl/hardware/test/FakeVehicleHardwareTest.cpp:171-204 | the definition of the result the default-value test expects for one case: Ok with the seeded payload when the seeding decision gives one, else NotAvailable without value; DefaultCaseRead and DefaultResultsMatch prove the seeded hardware reads exactly that |
| HardwareTest.ResultWithNoTimestamp | automotive/vehicle/aidl/impl/fake_impl/hardware/test/FakeVehicleHardwareTest.cpp:214-217 | clearing keeps requestId and status, keeps a value present iff it was, and clears only its timestamp |
| HardwareTest.ResultWithNoTimestampAsWritten | automotive/vehicle/aidl/impl/fake_impl/hardware/test/FakeVehicleHardwareTest.cpp:216 | the clearing through `prop->` needs a value to be present |
| HardwareTest.DefaultResultWithoutValue | automotive/vehicle/aidl/impl/fake_impl/hardware/test/FakeVehicleHardwareTest.cpp:171-175 | a global prop without initial value is a case of the default-value test whose result carries no value |
| HardwareTest.DefaultCaseRead | automotive/vehicle/aidl/impl/fake_impl/hardware/test/FakeVehicleHardwareTest.cpp:169-219 | right after construction each case's request reads, timestamps cleared, exactly as expected |
| HardwareTest.DefaultCasesRead | automotive/vehicle/aidl/impl/fake_impl/hardware/test/FakeVehicleHardwareTest.cpp:169-219 | the same for every case, numbered from 1 |
| HardwareTest.DefaultResultsMatch | automotive/vehicle/aidl/impl/fake_impl/hardware/test/FakeVehicleHardwareTest.cpp:209-219 | reading all cases from the seeded store and clearing timestamps gives the expected results |
| HardwareTest.FakeVehicleHardwareTest.constructor | automotive/vehicle/aidl/impl/fake_impl/hardware/test/FakeVehicleHardwareTest.cpp:151-155 | a fresh hardware built from the table and empty accumulators |
| HardwareTest.FakeVehicleHardwareTest.OnSetValues | automotive/vehicle/aidl/impl/fake_impl/hardware/test/FakeVehicleHardwareTest.cpp:66-70 | appends the batch's set results, in order |
| HardwareTest.FakeVehicleHardwareTest.OnGetValues | automotive/vehicle/aidl/impl/fake_impl/hardware/test/FakeVehicleHardwareTest.cpp:74-78 | appends the batch's get results, in order |
| HardwareTest.FakeVehicleHardwareTest.OnPropertyChangeEvent | automotive/vehicle/aidl/impl/fake_impl/hardware/test/FakeVehicleHardwareTest.cpp:82-86 | appends the changed values, in order |
| HardwareTest.FakeVehicleHardwareTest.RegisterOnPropertyChangeEvent | automotive/vehicle/aidl/impl/fake_impl/hardware/test/FakeVehicleHardwareTest.cpp:266-268 | the fixture's listener is registered with the hardware |
| HardwareTest.FakeVehicleHardwareTest.SetValues | automotive/vehicle/aidl/impl/fake_impl/hardware/test/FakeVehicleHardwareTest.cpp:54-58 | overall Ok; the hardware moves to the `ApplySets` state; set results are appended; change events are appended only when a listener is registered; get results untouched |
| HardwareTest.FakeVehicleHardwareTest.GetValues | automotive/vehicle/aidl/impl/fake_impl/hardware/test/FakeVehicleHardwareTest.cpp:60-64 | overall Ok; the per-request reads of the store are appended |
| HardwareTest.FakeVehicleHardwareTest.AddSetValueRequest | automotive/vehicle/aidl/impl/fake_impl/hardware/test/FakeVehicleHardwareTest.cpp:90-103 | appends a request carrying the value stamped with a fresh clock reading, and the expected result |
| HardwareTest.FakeVehicleHardwareTest.AddSetValueRequests | automotive/vehicle/aidl/impl/fake_impl/hardware/test/FakeVehicleHardwareTest.cpp:225-228 | one stamped request per value, numbered on, each with its own reading, and one expected result each |
| HardwareTest.FakeVehicleHardwareTest.AddGetValueRequest | automotive/vehicle/aidl/impl/fake_impl/hardware/test/FakeVehicleHardwareTest.cpp:105-121 | appends a request carrying only prop and area id, and a result carrying the value only when Ok is expected |
| HardwareTest.FakeVehicleHardwareTest.AddGetValueRequests | automotive/vehicle/aidl/impl/fake_impl/hardware/test/FakeVehicleHardwareTest.cpp:314-318 | one key-only request per value, numbered on, with its expected result |
| HardwareTest.FakeVehicleHardwareTest.CollectDefaultRequests | automotive/vehicle/aidl/impl/fake_impl/hardware/test/FakeVehicleHardwareTest.cpp:166-206 | one request per visited case numbered from 1, each with the result the seeding decision leads it to expect |
| HardwareTest.FakeVehicleHardwareTest.AddConfigRequests | automotive/vehicle/aidl/impl/fake_impl/hardware/test/FakeVehicleHardwareTest.cpp:170-205 | for one entry, appends the requests and expected results of its cases in area order |
| HardwareTest.ClearTimestamps | automotive/vehicle/aidl/impl/fake_impl/hardware/test/FakeVehicleHardwareTest.cpp:213-218 | each result with its value's timestamp cleared, in order |
| HardwareTest.ConfiguredBatchResults | automotive/vehicle/aidl/impl/fake_impl/hardware/test/FakeVehicleHardwareTest.cpp:222-238 | setting values of configured props gives one Ok per value, numbered as the requests |
| HardwareTest.RejectedThenConfiguredResults | automotive/vehicle/aidl/impl/fake_impl/hardware/test/FakeVehicleHardwareTest.cpp:240-263 | an unconfigured request ahead of such a batch gets InvalidArg and the others' results follow unchanged |
| HardwareTest.TestValueEvents | automotive/vehicle/aidl/impl/fake_impl/hardware/test/FakeVehicleHardwareTest.cpp:265-292 | setting the test values produces events that, timestamps cleared, are the test values, each stamped no earlier than the clock before the set |
| HardwareTest.TestValuesWhenSorted | automotive/vehicle/aidl/impl/fake_impl/hardware/test/FakeVehicleHardwareTest.cpp:292 | the test values are in PropValueCmp order, so every PropValueCmp-sorted permutation of them is the test values in their own order |
| HardwareTest.ReadBackMatch | automotive/vehicle/aidl/impl/fake_impl/hardware/test/FakeVehicleHardwareTest.cpp:312-330 | reading the set test values back gives values stamped no earlier than the clock before the set and, timestamps cleared, Ok with the test values |
| HardwareTest.UnsetGlobalRead | automotive/vehicle/aidl/impl/fake_impl/hardware/test/FakeVehicleHardwareTest.cpp:363-379 | a global prop without initial value reads NotAvailable with no value after construction |
| HardwareTest.TestGetAllPropertyConfigs | automotive/vehicle/aidl/impl/fake_impl/hardware/test/FakeVehicleHardwareTest.cpp:158-162 | as many configurations as table entries |
| HardwareTest.TestGetDefaultValues | automotive/vehicle/aidl/impl/fake_impl/hardware/test/FakeVehicleHardwareTest.cpp:164-220 | overall Ok; the expected results are, case by case, the seeding decision's result numbered from 1; the compared list is the hardware's results with timestamps cleared, and it equals the expected list |
| HardwareTest.TestSetValues | automotive/vehicle/aidl/impl/fake_impl/hardware/test/FakeVehicleHardwareTest.cpp:222-238 | overall Ok and the set results are exactly Ok for requests 1 to 3, in order |
| HardwareTest.TestSetValuesError | automotive/vehicle/aidl/impl/fake_impl/hardware/test/FakeVehicleHardwareTest.cpp:240-263 | overall Ok; the results are InvalidArg for request 1 and Ok for requests 2 to 4, in order |
| HardwareTest.TestRegisterOnPropertyChangeEvent | automotive/vehicle/aidl/impl/fake_impl/hardware/test/FakeVehicleHardwareTest.cpp:265-293 | overall Ok; every event is stamped no earlier than the reading before the set; timestamps cleared they are the test values, and sorted by PropValueCmp they equal the test values |
| HardwareTest.TestReadValues | automotive/vehicle/aidl/impl/fake_impl/hardware/test/FakeVehicleHardwareTest.cpp:295-331 | both calls Ok; every read value is stamped no earlier than the reading before the set; the hardware's results with timestamps cleared are Ok with the test values, ids 4 to 6 |
| HardwareTest.TestReadValuesErrorInvalidProp | automotive/vehicle/aidl/impl/fake_impl/hardware/test/FakeVehicleHardwareTest.cpp:333-361 | both calls Ok; the get on prop 0 gives exactly one InvalidArg result without value |
| HardwareTest.TestReadValuesErrorNotAvailable | automotive/vehicle/aidl/impl/fake_impl/hardware/test/FakeVehicleHardwareTest.cpp:363-379 | overall Ok; the get on VEHICLE_MAP_SERVICE gives exactly one NotAvailable result without value |
| HardwareTest.TestSetStatusMustIgnore | automotive/vehicle/aidl/impl/fake_impl/hardware/test/FakeVehicleHardwareTest.cpp:381-424 | all four calls Ok; the set gives one Ok result; both reads, after the first and after the repeated set, return the fuel capacity with status Available although it was sent Unavailable |

## Left out

- The implementation of `FakeVehicleHardware` is not part of this model; the store, the batch handling and the listener are reconstructed from what the tests assert of them.
- The contents of the default configuration table: it is an input sequence, and each area config is reduced to its area id.
- Floating-point payloads are modelled as reals: the tests only compare them for equality and order, and no NaN occurs.
- Integer widths: prop ids, area ids, request ids, int32/int64 payloads and bytes are unbounded integers; only `isGlobalProp` reads bits of the 32-bit prop id, which `AreaType` extracts explicitly.
- `elapsedRealtimeNano` is a counter held by the hardware object that every reading advances by one; the real clock is only required to be non-decreasing, and any such clock satisfies the lemmas that speak of "no earlier than".
- The callbacks are synchronous: the tests rely on results arriving before `setValues`/`getValues` return (`:235-237`); asynchrony and concurrency are not modelled.
- GoogleTest machinery (`ASSERT_*`, `ContainerEq`, `WhenSortedBy`) and `std::bind` wiring: each test's assertions are the postconditions of its method, and `WhenSortedBy(mPropValueCmp, Eq(...))` is stated as "every PropValueCmp-sorted permutation equals the expected values".
- Whether a write that does not change the stored value emits a change event is not asserted by the tests; the model emits one for every accepted write.
- The per-test fixture construction (`SetUp`, a fresh `mHardware` per test) is modelled by each test method constructing its own fixture.
- HardwareTest.TestReadValuesErrorNotAvailable: requires that VEHICLE_MAP_SERVICE is configured as a global property without initial value, which the test presumes of the default table.

## Findings

| source | as written | input that shows it | evidently intended | confidence | as-written member | corrected member |
|---|---|---|---|---|---|---|
| automotive/vehicle/aidl/impl/fake_impl/hardware/test/FakeVehicleHardwareTest.cpp:216 | `resultCopy.prop->timestamp = 0` is applied to every result, including NOT_AVAILABLE results whose optional `prop` is empty, which is undefined behaviour | a configured global prop with an empty initial value (the test itself names VEHICLE_MAP_SERVICE as one): its expected result has no value (`:171-175`) and so has the hardware's result | clear the timestamp only when the result carries a value (`if (resultCopy.prop) ...`) | not executed; high that the access is undefined, the test may still pass in practice | HardwareTest.ResultWithNoTimestampAsWritten, HardwareTest.DefaultResultWithoutValue | HardwareTest.ResultWithNoTimestamp |
