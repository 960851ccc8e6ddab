/** The simulated vehicle hardware: a store of property values keyed by
    (prop, areaId), seeded from the configuration table, read and written
    in batches, and a change listener that receives every written value. */
module FakeHardware {
  import opened VehicleTypes
  import opened Seeding

  /** What a successful set keeps of the caller's value, before the clock
      stamp: key and payload. The status is forced to Available. */
  function Normalized(v: VehiclePropValue): VehiclePropValue
  {
    v.(timestamp := 0, status := Available)
  }

  /** The result of one get request against `store`. */
  function ReadResult(store: PropStore, registered: set<int>, req: GetValueRequest): GetValueResult
  {
    if req.prop.prop !in registered then GetValueResult(req.requestId, InvalidArg, None)
    else if KeyOf(req.prop) in store then GetValueResult(req.requestId, Ok, Some(store[KeyOf(req.prop)]))
    else GetValueResult(req.requestId, NotAvailable, None)
  }

  /** The results of a batch of get requests against `store`, in request order. */
  function ReadResults(store: PropStore, registered: set<int>, reqs: seq<GetValueRequest>): (r: seq<GetValueResult>)
    ensures |r| == |reqs|
    ensures forall i :: 0 <= i < |reqs| ==> r[i] == ReadResult(store, registered, reqs[i])
  {
    seq(|reqs|, i requires 0 <= i < |reqs| => ReadResult(store, registered, reqs[i]))
  }

  /** The state a batch of set requests threads through: the store, the
      clock, the results so far and the change events so far. */
  datatype SetState = SetState(store: PropStore, clock: nat, results: seq<SetValueResult>, events: seq<VehiclePropValue>)

  /** One set request: an unconfigured property gives InvalidArg and changes
      nothing else; otherwise the value is stamped with a clock reading,
      stored with status Available, reported Ok and emitted as an event. */
  function SetStep(st: SetState, registered: set<int>, req: SetValueRequest): SetState
  {
    if req.value.prop !in registered then
      st.(results := st.results + [SetValueResult(req.requestId, InvalidArg)])
    else
      var v := req.value.(timestamp := st.clock, status := Available);
      SetState(st.store[KeyOf(v) := v], st.clock + 1, st.results + [SetValueResult(req.requestId, Ok)], st.events + [v])
  }

  /** A batch of set requests, processed in order. */
  function ApplySets(st: SetState, registered: set<int>, reqs: seq<SetValueRequest>): SetState
    decreases |reqs|
  {
    if |reqs| == 0 then st
    else ApplySets(SetStep(st, registered, reqs[0]), registered, reqs[1..])
  }

  /** The values of the accepted requests of a batch, as they are stored
      apart from the timestamp, in request order. */
  function Accepted(registered: set<int>, reqs: seq<SetValueRequest>): seq<VehiclePropValue>
    decreases |reqs|
  {
    if |reqs| == 0 then []
    else (if reqs[0].value.prop in registered then [Normalized(reqs[0].value)] else []) + Accepted(registered, reqs[1..])
  }

  /** A batch whose every request is for a configured property accepts
      every request. */
  lemma {:induction false} AcceptedAll(registered: set<int>, reqs: seq<SetValueRequest>)
    requires forall i :: 0 <= i < |reqs| ==> reqs[i].value.prop in registered
    ensures |Accepted(registered, reqs)| == |reqs|
    ensures forall i :: 0 <= i < |reqs| ==> Accepted(registered, reqs)[i] == Normalized(reqs[i].value)
    decreases |reqs|
  {
    if |reqs| > 0 {
      AcceptedAll(registered, reqs[1..]);
      assert Accepted(registered, reqs) == [Normalized(reqs[0].value)] + Accepted(registered, reqs[1..]);
    }
  }

  /** The last accepted write to key `k` in a batch, apart from its timestamp. */
  function LastWrite(registered: set<int>, reqs: seq<SetValueRequest>, k: PropIdAreaId): Option<VehiclePropValue>
    decreases |reqs|
  {
    if |reqs| == 0 then None
    else match LastWrite(registered, reqs[1..], k)
      case Some(v) => Some(v)
      case None =>
        if reqs[0].value.prop in registered && KeyOf(reqs[0].value) == k then Some(Normalized(reqs[0].value)) else None
  }

  /** A batch gives exactly one result per request, in request order, each
      echoing its request's id; the status is Ok for a configured property
      and InvalidArg otherwise. Earlier results are kept. */
  lemma {:induction false} ApplySetsResults(st: SetState, registered: set<int>, reqs: seq<SetValueRequest>)
    ensures |ApplySets(st, registered, reqs).results| == |st.results| + |reqs|
    ensures ApplySets(st, registered, reqs).results[..|st.results|] == st.results
    ensures forall i :: 0 <= i < |reqs| ==>
      ApplySets(st, registered, reqs).results[|st.results| + i]
        == SetValueResult(reqs[i].requestId, if reqs[i].value.prop in registered then Ok else InvalidArg)
    decreases |reqs|
  {
    if |reqs| > 0 {
      var next := SetStep(st, registered, reqs[0]);
      ApplySetsResults(next, registered, reqs[1..]);
      var out := ApplySets(st, registered, reqs);
      assert out == ApplySets(next, registered, reqs[1..]);
      assert out.results[..|next.results|] == next.results;
      assert out.results[..|st.results|] == out.results[..|next.results|][..|st.results|];
      forall i | 0 <= i < |reqs|
        ensures out.results[|st.results| + i]
          == SetValueResult(reqs[i].requestId, if reqs[i].value.prop in registered then Ok else InvalidArg)
      {
        if i == 0 {
          assert out.results[|st.results|] == out.results[..|next.results|][|st.results|];
        } else {
          assert reqs[1..][i - 1] == reqs[i];
        }
      }
    }
  }

  /** The clock never goes back; the batch only appends to the events, and
      every new event is stamped with a clock reading taken during the batch. */
  lemma {:induction false} ApplySetsStamps(st: SetState, registered: set<int>, reqs: seq<SetValueRequest>)
    ensures st.clock <= ApplySets(st, registered, reqs).clock
    ensures |st.events| <= |ApplySets(st, registered, reqs).events|
    ensures ApplySets(st, registered, reqs).events[..|st.events|] == st.events
    ensures forall i :: |st.events| <= i < |ApplySets(st, registered, reqs).events| ==>
      st.clock <= ApplySets(st, registered, reqs).events[i].timestamp < ApplySets(st, registered, reqs).clock
    decreases |reqs|
  {
    if |reqs| > 0 {
      var next := SetStep(st, registered, reqs[0]);
      ApplySetsStamps(next, registered, reqs[1..]);
      var out := ApplySets(st, registered, reqs);
      assert out == ApplySets(next, registered, reqs[1..]);
      assert out.events[..|st.events|] == out.events[..|next.events|][..|st.events|];
      if reqs[0].value.prop in registered {
        assert out.events[|st.events|] == out.events[..|next.events|][|st.events|];
      }
    }
  }

  /** The events a batch appends are, apart from their timestamps, the
      values of its accepted requests with status Available, one per
      accepted request, in request order (how they are stamped is
      ApplySetsStamps). */
  lemma {:induction false} ApplySetsEvents(st: SetState, registered: set<int>, reqs: seq<SetValueRequest>)
    ensures |st.events| <= |ApplySets(st, registered, reqs).events|
    ensures AllWithoutTimestamp(ApplySets(st, registered, reqs).events[|st.events|..]) == Accepted(registered, reqs)
    decreases |reqs|
  {
    ApplySetsStamps(st, registered, reqs);
    if |reqs| > 0 {
      var next := SetStep(st, registered, reqs[0]);
      ApplySetsStamps(next, registered, reqs[1..]);
      ApplySetsEvents(next, registered, reqs[1..]);
      var out := ApplySets(st, registered, reqs);
      assert out == ApplySets(next, registered, reqs[1..]);
      var head := if reqs[0].value.prop in registered then [Normalized(reqs[0].value)] else [];
      assert Accepted(registered, reqs) == head + Accepted(registered, reqs[1..]);
      if reqs[0].value.prop in registered {
        assert out.events[|st.events|..] == [out.events[|st.events|]] + out.events[|next.events|..];
        assert out.events[|st.events|] == out.events[..|next.events|][|st.events|];
      } else {
        assert next.events == st.events;
      }
    }
  }

  /** After a batch, a key holds a value exactly when it held one before or
      the batch wrote it; a written key holds its last accepted write,
      stamped during the batch; any other key keeps its value. */
  lemma {:induction false} ApplySetsStore(st: SetState, registered: set<int>, reqs: seq<SetValueRequest>, k: PropIdAreaId)
    ensures k in ApplySets(st, registered, reqs).store <==> k in st.store || LastWrite(registered, reqs, k).Some?
    ensures LastWrite(registered, reqs, k).Some? ==>
      && WithoutTimestamp(ApplySets(st, registered, reqs).store[k]) == LastWrite(registered, reqs, k).value
      && st.clock <= ApplySets(st, registered, reqs).store[k].timestamp < ApplySets(st, registered, reqs).clock
    ensures LastWrite(registered, reqs, k).None? && k in st.store ==>
      ApplySets(st, registered, reqs).store[k] == st.store[k]
    decreases |reqs|
  {
    if |reqs| > 0 {
      var next := SetStep(st, registered, reqs[0]);
      ApplySetsStore(next, registered, reqs[1..], k);
      ApplySetsStamps(next, registered, reqs[1..]);
      assert ApplySets(st, registered, reqs) == ApplySets(next, registered, reqs[1..]);
    }
  }

  /** A value is the last accepted write to its key when no later accepted
      request of the batch has the same key. */
  lemma {:induction false} LastWriteOfLatest(registered: set<int>, reqs: seq<SetValueRequest>, i: int)
    requires 0 <= i < |reqs| && reqs[i].value.prop in registered
    requires forall j :: i < j < |reqs| && reqs[j].value.prop in registered ==> KeyOf(reqs[j].value) != KeyOf(reqs[i].value)
    ensures LastWrite(registered, reqs, KeyOf(reqs[i].value)) == Some(Normalized(reqs[i].value))
    decreases |reqs|
  {
    var k := KeyOf(reqs[i].value);
    if i == 0 {
      LastWriteAbsent(registered, reqs[1..], k);
    } else {
      LastWriteOfLatest(registered, reqs[1..], i - 1);
    }
  }

  /** No accepted request with key `k` means no write to `k`. */
  lemma {:induction false} LastWriteAbsent(registered: set<int>, reqs: seq<SetValueRequest>, k: PropIdAreaId)
    requires forall j :: 0 <= j < |reqs| && reqs[j].value.prop in registered ==> KeyOf(reqs[j].value) != k
    ensures LastWrite(registered, reqs, k) == None
    decreases |reqs|
  {
    if |reqs| > 0 {
      LastWriteAbsent(registered, reqs[1..], k);
    }
  }

  /** Set, then get on the same key: the get returns Ok with the set
      payload and key, status Available whatever status the caller sent,
      and a timestamp no earlier than the clock before the set. */
  lemma SetThenGet(st: SetState, registered: set<int>, reqs: seq<SetValueRequest>, i: int, req: GetValueRequest)
    requires 0 <= i < |reqs| && reqs[i].value.prop in registered
    requires forall j :: i < j < |reqs| && reqs[j].value.prop in registered ==> KeyOf(reqs[j].value) != KeyOf(reqs[i].value)
    requires KeyOf(req.prop) == KeyOf(reqs[i].value)
    ensures ReadResult(ApplySets(st, registered, reqs).store, registered, req).requestId == req.requestId
    ensures ReadResult(ApplySets(st, registered, reqs).store, registered, req).status == Ok
    ensures ReadResult(ApplySets(st, registered, reqs).store, registered, req).prop.Some?
    ensures WithoutTimestamp(ReadResult(ApplySets(st, registered, reqs).store, registered, req).prop.value)
      == reqs[i].value.(timestamp := 0, status := Available)
    ensures ReadResult(ApplySets(st, registered, reqs).store, registered, req).prop.value.timestamp >= st.clock
  {
    LastWriteOfLatest(registered, reqs, i);
    ApplySetsStore(st, registered, reqs, KeyOf(reqs[i].value));
  }

  /** Only the results see anything of a batch's past results. */
  lemma {:induction false} ApplySetsIgnoresResults(st1: SetState, st2: SetState, registered: set<int>, reqs: seq<SetValueRequest>)
    requires st1.store == st2.store && st1.clock == st2.clock && st1.events == st2.events
    ensures ApplySets(st1, registered, reqs).store == ApplySets(st2, registered, reqs).store
    ensures ApplySets(st1, registered, reqs).clock == ApplySets(st2, registered, reqs).clock
    ensures ApplySets(st1, registered, reqs).events == ApplySets(st2, registered, reqs).events
    decreases |reqs|
  {
    if |reqs| > 0 {
      ApplySetsIgnoresResults(SetStep(st1, registered, reqs[0]), SetStep(st2, registered, reqs[0]), registered, reqs[1..]);
    }
  }

  /** A request for an unconfigured property, wherever it stands in a batch,
      leaves the store, the clock and the change events exactly as the
      batch without it leaves them. */
  lemma {:induction false} InvalidRequestIsInert(st: SetState, registered: set<int>, pre: seq<SetValueRequest>, bad: SetValueRequest, post: seq<SetValueRequest>)
    requires bad.value.prop !in registered
    ensures ApplySets(st, registered, pre + [bad] + post).store == ApplySets(st, registered, pre + post).store
    ensures ApplySets(st, registered, pre + [bad] + post).clock == ApplySets(st, registered, pre + post).clock
    ensures ApplySets(st, registered, pre + [bad] + post).events == ApplySets(st, registered, pre + post).events
    decreases |pre|
  {
    if |pre| == 0 {
      assert pre + [bad] + post == [bad] + post && pre + post == post;
      assert ([bad] + post)[1..] == post;
      ApplySetsIgnoresResults(SetStep(st, registered, bad), st, registered, post);
    } else {
      assert (pre + [bad] + post)[1..] == pre[1..] + [bad] + post;
      assert (pre + post)[1..] == pre[1..] + post;
      assert (pre + [bad] + post)[0] == pre[0] == (pre + post)[0];
      InvalidRequestIsInert(SetStep(st, registered, pre[0]), registered, pre[1..], bad, post);
    }
  }

  /** Right after construction, a get on a global property returns
      NotAvailable exactly when its configured initial value is empty, and
      otherwise Ok with that value. */
  lemma SeededGetGlobal(configs: seq<ConfigDeclaration>, bootNanos: int, d: ConfigDeclaration, id: int)
    requires UniqueProps(configs) && d in configs && IsGlobalProp(d.config.prop)
    ensures var r := ReadResult(SeedStore(configs, bootNanos), Registered(configs),
                                GetValueRequest(id, PropValueOf(d.config.prop, 0, EmptyRawValues)));
      && r.requestId == id
      && (r.status == NotAvailable <==> d.initialValue == EmptyRawValues)
      && (d.initialValue == EmptyRawValues ==> r.prop == None)
      && (d.initialValue != EmptyRawValues ==>
            r.status == Ok && r.prop == Some(VehiclePropValue(bootNanos, 0, d.config.prop, Available, d.initialValue)))
  {
    DeclaredIsRegistered(configs, d);
    SeedStoreLookup(configs, bootNanos, d, 0);
  }

  /** Right after construction, a get on one area of an area-scoped
      property: without per-area initial values it returns the property's
      initial value, or NotAvailable if that is empty; with per-area
      initial values it returns that area's entry, or NotAvailable if the
      area has none, even when the property's own initial value is set. */
  lemma SeededGetArea(configs: seq<ConfigDeclaration>, bootNanos: int, d: ConfigDeclaration, a: int, id: int)
    requires UniqueProps(configs) && d in configs && !IsGlobalProp(d.config.prop) && a in d.config.areaIds
    ensures var r := ReadResult(SeedStore(configs, bootNanos), Registered(configs),
                                GetValueRequest(id, PropValueOf(d.config.prop, a, EmptyRawValues)));
      && r.requestId == id
      && (r.status == Ok || r.status == NotAvailable)
      && (r.status == NotAvailable ==> r.prop == None)
      && (|d.initialAreaValues| == 0 ==>
            && (r.status == NotAvailable <==> d.initialValue == EmptyRawValues)
            && (r.status == Ok ==> r.prop == Some(VehiclePropValue(bootNanos, a, d.config.prop, Available, d.initialValue))))
      && (|d.initialAreaValues| > 0 ==>
            && (r.status == NotAvailable <==> a !in d.initialAreaValues)
            && (r.status == Ok ==> r.prop == Some(VehiclePropValue(bootNanos, a, d.config.prop, Available, d.initialAreaValues[a]))))
  {
    DeclaredIsRegistered(configs, d);
    SeedStoreLookup(configs, bootNanos, d, a);
  }

  class FakeVehicleHardware {
    /** The configuration table the store was built from. */
    const configs: seq<ConfigDeclaration>
    /** The current value of every (prop, areaId) that has one. */
    var store: PropStore
    /** The monotonic clock (elapsedRealtimeNano): the next reading. */
    var now: nat
    /** Whether a change listener is registered. */
    var listenerRegistered: bool

    ghost predicate Valid()
      reads this
    {
      StoreInvariant(store, Registered(configs), now)
    }

    /** Builds the store from the table, stamping the seeded values with
        one clock reading `bootNanos`. */
    constructor (configs: seq<ConfigDeclaration>, bootNanos: nat)
      ensures Valid()
      ensures this.configs == configs
      ensures store == SeedStore(configs, bootNanos) && now == bootNanos + 1
      ensures !listenerRegistered
    {
      this.configs := configs;
      store := SeedStore(configs, bootNanos);
      now := bootNanos + 1;
      listenerRegistered := false;
      new;
      SeedStoreValid(configs, bootNanos);
    }

    /** Reads the clock; later readings are never smaller. */
    method ElapsedRealtimeNano() returns (t: nat)
      requires Valid()
      modifies this`now
      ensures Valid()
      ensures t == old(now) && now == old(now) + 1
    {
      t := now;
      now := now + 1;
    }

    /** One configuration per table entry, in table order. */
    function GetAllPropertyConfigs(): (cs: seq<VehiclePropConfig>)
      ensures |cs| == |configs|
      ensures forall i :: 0 <= i < |configs| ==> cs[i] == configs[i].config
    {
      seq(|configs|, i requires 0 <= i < |configs| => configs[i].config)
    }

    method RegisterOnPropertyChangeEvent()
      modifies this`listenerRegistered
      ensures listenerRegistered
    {
      listenerRegistered := true;
    }

    /** getValues: one result per request, in request order; the batch
        status is Ok and the store is not changed. */
    method GetValues(requests: seq<GetValueRequest>) returns (status: StatusCode, results: seq<GetValueResult>)
      ensures status == Ok
      ensures results == ReadResults(store, Registered(configs), requests)
    {
      var registered := Registered(configs);
      results := [];
      for i := 0 to |requests|
        invariant |results| == i
        invariant forall j :: 0 <= j < i ==> results[j] == ReadResult(store, registered, requests[j])
      {
        var req := requests[i];
        var result;
        if req.prop.prop !in registered {
          result := GetValueResult(req.requestId, InvalidArg, None);
        } else if KeyOf(req.prop) in store {
          result := GetValueResult(req.requestId, Ok, Some(store[KeyOf(req.prop)]));
        } else {
          result := GetValueResult(req.requestId, NotAvailable, None);
        }
        results := results + [result];
      }
      assert results == ReadResults(store, registered, requests);
      status := Ok;
    }

    /** setValues: writes the batch through to the store in request order;
        `results` is what the result callback receives and `delivered` what
        the change listener receives (nothing when none is registered). */
    method SetValues(requests: seq<SetValueRequest>) returns (status: StatusCode, results: seq<SetValueResult>, delivered: seq<VehiclePropValue>)
      requires Valid()
      modifies this`store, this`now
      ensures Valid()
      ensures status == Ok
      ensures store == ApplySets(SetState(old(store), old(now), [], []), Registered(configs), requests).store
      ensures now == ApplySets(SetState(old(store), old(now), [], []), Registered(configs), requests).clock
      ensures results == ApplySets(SetState(old(store), old(now), [], []), Registered(configs), requests).results
      ensures delivered ==
        if listenerRegistered then ApplySets(SetState(old(store), old(now), [], []), Registered(configs), requests).events
        else []
    {
      var registered := Registered(configs);
      ghost var target := ApplySets(SetState(store, now, [], []), registered, requests);
      var events := [];
      results := [];
      var i := 0;
      while i < |requests|
        invariant 0 <= i <= |requests|
        invariant Valid()
        invariant ApplySets(SetState(store, now, results, events), registered, requests[i..]) == target
      {
        var req := requests[i];
        assert requests[i..][0] == req && requests[i..][1..] == requests[i + 1..];
        if req.value.prop !in registered {
          results := results + [SetValueResult(req.requestId, InvalidArg)];
        } else {
          var t := ElapsedRealtimeNano();
          var v := req.value.(timestamp := t, status := Available);
          store := store[KeyOf(v) := v];
          results := results + [SetValueResult(req.requestId, Ok)];
          events := events + [v];
        }
        i := i + 1;
      }
      assert requests[i..] == [];
      delivered := if listenerRegistered then events else [];
      status := Ok;
    }
  }
}
