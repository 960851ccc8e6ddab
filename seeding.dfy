/** Default-value seeding: which (prop, areaId) keys a configuration entry
    gives a value at construction time, and with which payload. */
module Seeding {
  import opened VehicleTypes

  /** A property configuration; each area config is reduced to its area id. */
  datatype VehiclePropConfig = VehiclePropConfig(prop: int, areaIds: seq<int>)

  /** One entry of the default configuration table. */
  datatype ConfigDeclaration = ConfigDeclaration(
    config: VehiclePropConfig,
    initialValue: RawPropValues,
    initialAreaValues: map<int, RawPropValues>)

  type PropStore = map<PropIdAreaId, VehiclePropValue>

  /** The areas a configuration entry addresses: area 0 for a global
      property, otherwise each configured area. */
  function SeedAreas(d: ConfigDeclaration): seq<int>
  {
    if IsGlobalProp(d.config.prop) then [0] else d.config.areaIds
  }

  /** The seeding decision for one area of one entry: the payload the key
      starts with, or None when it starts without a value. */
  function InitialValueFor(d: ConfigDeclaration, areaId: int): Option<RawPropValues>
  {
    if IsGlobalProp(d.config.prop) then
      (if d.initialValue == EmptyRawValues then None else Some(d.initialValue))
    else if |d.initialAreaValues| == 0 then
      (if d.initialValue == EmptyRawValues then None else Some(d.initialValue))
    else if areaId in d.initialAreaValues then
      Some(d.initialAreaValues[areaId])
    else
      None
  }

  /** The values one entry puts into the store, stamped with `timestamp`. */
  function ConfigEntries(d: ConfigDeclaration, timestamp: int): PropStore
  {
    map a | a in SeedAreas(d) && InitialValueFor(d, a).Some? ::
      PropIdAreaId(d.config.prop, a) := VehiclePropValue(timestamp, a, d.config.prop, Available, InitialValueFor(d, a).value)
  }

  /** The store after seeding every entry of the table in order. */
  function SeedStore(configs: seq<ConfigDeclaration>, timestamp: int): PropStore
    decreases |configs|
  {
    if |configs| == 0 then map[]
    else SeedStore(configs[..|configs| - 1], timestamp) + ConfigEntries(configs[|configs| - 1], timestamp)
  }

  /** The property ids the table configures. */
  function Registered(configs: seq<ConfigDeclaration>): set<int>
    decreases |configs|
  {
    if |configs| == 0 then {}
    else Registered(configs[..|configs| - 1]) + {configs[|configs| - 1].config.prop}
  }

  /** A property id is configured exactly when some entry of the table
      declares it. */
  lemma {:induction false} RegisteredIffDeclared(configs: seq<ConfigDeclaration>, p: int)
    ensures p in Registered(configs) <==> exists d :: d in configs && d.config.prop == p
    decreases |configs|
  {
    if |configs| > 0 {
      var init := configs[..|configs| - 1];
      var last := configs[|configs| - 1];
      RegisteredIffDeclared(init, p);
      assert configs == init + [last];
      if p in Registered(init) {
        var d :| d in init && d.config.prop == p;
        assert d in configs;
      }
      if exists d :: d in configs && d.config.prop == p {
        var d :| d in configs && d.config.prop == p;
        assert d in init || d == last;
      }
    }
  }

  /** The property of every entry of the table is configured. */
  lemma DeclaredIsRegistered(configs: seq<ConfigDeclaration>, d: ConfigDeclaration)
    requires d in configs
    ensures d.config.prop in Registered(configs)
  {
    RegisteredIffDeclared(configs, d.config.prop);
  }

  /** No property id is configured twice. */
  predicate UniqueProps(configs: seq<ConfigDeclaration>)
  {
    forall i, j :: 0 <= i < j < |configs| ==> configs[i].config.prop != configs[j].config.prop
  }

  /** What every value in the store satisfies: it sits under its own key,
      belongs to a configured property, has status Available, and was
      stamped before the clock reading `now`. */
  ghost predicate StoreInvariant(store: PropStore, registered: set<int>, now: int)
  {
    forall k {:trigger store[k]} :: k in store ==>
      && store[k].prop == k.prop
      && store[k].areaId == k.areaId
      && k.prop in registered
      && store[k].status == Available
      && 0 <= store[k].timestamp < now
  }

  /** The seeded store satisfies the store invariant, and every seeded
      value carries exactly the construction-time stamp. */
  lemma {:induction false} SeedStoreValid(configs: seq<ConfigDeclaration>, timestamp: nat)
    ensures StoreInvariant(SeedStore(configs, timestamp), Registered(configs), timestamp + 1)
    ensures forall k :: k in SeedStore(configs, timestamp) ==> SeedStore(configs, timestamp)[k].timestamp == timestamp
    decreases |configs|
  {
    if |configs| > 0 {
      var init := configs[..|configs| - 1];
      SeedStoreValid(init, timestamp);
    }
  }

  /** The values one entry seeds are exactly those of its areas that the
      seeding decision gives a payload. */
  lemma ConfigEntriesLookup(d: ConfigDeclaration, timestamp: int, k: PropIdAreaId)
    ensures k in ConfigEntries(d, timestamp) <==>
      k.prop == d.config.prop && k.areaId in SeedAreas(d) && InitialValueFor(d, k.areaId).Some?
    ensures k in ConfigEntries(d, timestamp) ==>
      ConfigEntries(d, timestamp)[k] == VehiclePropValue(timestamp, k.areaId, k.prop, Available, InitialValueFor(d, k.areaId).value)
  {
    if k.prop == d.config.prop && k.areaId in SeedAreas(d) && InitialValueFor(d, k.areaId).Some? {
      assert k == PropIdAreaId(d.config.prop, k.areaId);
    }
  }

  /** An entry of the table other than the last one is an entry of the
      table without its last entry, and configures a different property. */
  lemma EarlierEntry(configs: seq<ConfigDeclaration>, d: ConfigDeclaration)
    requires UniqueProps(configs)
    requires d in configs && configs[|configs| - 1] != d
    ensures d in configs[..|configs| - 1]
    ensures configs[|configs| - 1].config.prop != d.config.prop
  {
    var i :| 0 <= i < |configs| && configs[i] == d;
    assert configs[..|configs| - 1][i] == d;
  }

  /** With no property configured twice, the seeded value under
      (prop, area) of a configured area is exactly the seeding decision
      for that entry and area. */
  lemma {:induction false} SeedStoreLookup(configs: seq<ConfigDeclaration>, timestamp: int, d: ConfigDeclaration, a: int)
    requires UniqueProps(configs)
    requires d in configs && a in SeedAreas(d)
    ensures PropIdAreaId(d.config.prop, a) in SeedStore(configs, timestamp) <==> InitialValueFor(d, a).Some?
    ensures InitialValueFor(d, a).Some? ==>
      SeedStore(configs, timestamp)[PropIdAreaId(d.config.prop, a)]
        == VehiclePropValue(timestamp, a, d.config.prop, Available, InitialValueFor(d, a).value)
    decreases |configs|
  {
    var n := |configs|;
    var k := PropIdAreaId(d.config.prop, a);
    var last := configs[n - 1];
    assert SeedStore(configs, timestamp) == SeedStore(configs[..n - 1], timestamp) + ConfigEntries(last, timestamp);
    ConfigEntriesLookup(last, timestamp, k);
    if last != d {
      EarlierEntry(configs, d);
      assert k !in ConfigEntries(last, timestamp);
      SeedStoreLookup(configs[..n - 1], timestamp, d, a);
    } else {
      forall e | e in configs[..n - 1] ensures e.config.prop != k.prop {
        var i :| 0 <= i < n - 1 && configs[..n - 1][i] == e;
        assert configs[i] == e;
      }
      RegisteredIffDeclared(configs[..n - 1], k.prop);
      SeedStoreUnconfigured(configs[..n - 1], timestamp, k);
    }
  }

  /** A key whose property no entry configures has no seeded value. */
  lemma {:induction false} SeedStoreUnconfigured(configs: seq<ConfigDeclaration>, timestamp: int, k: PropIdAreaId)
    requires k.prop !in Registered(configs)
    ensures k !in SeedStore(configs, timestamp)
    decreases |configs|
  {
    if |configs| > 0 {
      var init := configs[..|configs| - 1];
      SeedStoreUnconfigured(init, timestamp, k);
    }
  }
}
