/**
 * The process-wide device registry (`devices`, src/index.ts:35) and the
 * state logic of the route handlers that drive it (src/index.ts:49-262).
 * Each handler becomes one method or one query function of `Registry`.
 */
module DeviceRegistry {
  import opened DeviceModel
  import opened ResponseQueue
  import opened MethodRegistry

  /**
   * What every stored device satisfies: one record per key, sharing only in
   * the first two slots of a queue, and a twin history nothing ever fills.
   */
  ghost predicate WellFormed<P>(d: Device<P>)
  {
    && KeysUnique(d.methods)
    && AllShaped(d.methods)
    && d.twin.history == []
  }

  ghost predicate AllWellFormed<P>(devices: map<string, Device<P>>)
  {
    forall id | id in devices :: WellFormed(devices[id])
  }

  /** Storing a well-formed device keeps the whole map well formed. */
  lemma StoreKeepsWellFormed<P>(devices: map<string, Device<P>>, id: string, d: Device<P>)
    requires AllWellFormed(devices) && WellFormed(d)
    ensures AllWellFormed(devices[id := d])
  {
  }

  class Registry<P> {
    var devices: map<string, Device<P>>

    ghost predicate Valid()
      reads this
    {
      AllWellFormed(devices)
    }

    /** The registry a process starts with (src/index.ts:35). */
    constructor ()
      ensures Valid() && devices == map[]
    {
      devices := map[];
    }

    /**
     * Create or replace a device (src/index.ts:130-144): a fresh device with
     * no methods and the body as twin value replaces whatever was stored.
     */
    method CreateOrReplace(id: string, value: P)
      requires Valid()
      modifies this
      ensures Valid()
      ensures devices == old(devices)[id := Device([], Twin(value, []))]
    {
      devices := devices[id := Device([], Twin(value, []))];
    }

    /**
     * Update a device's twin (src/index.ts:146-160). Only `twin.value`
     * changes. For an unknown device the handler answers 404 and then throws
     * on `device.twin` before writing anything.
     */
    method UpdateTwin(id: string, value: P) returns (a: Ack)
      requires Valid()
      modifies this
      ensures Valid()
      ensures a.DeviceNotFound? <==> id !in old(devices)
      ensures id !in old(devices) ==> devices == old(devices)
      ensures id in old(devices) ==>
        devices == old(devices)[id := old(devices)[id].(twin := old(devices)[id].twin.(value := value))]
    {
      if id !in devices {
        return DeviceNotFound;
      }
      var device := devices[id];
      devices := devices[id := device.(twin := device.twin.(value := value))];
      a := Ok;
    }

    /**
     * Register a scripted response for a method, module-less when
     * `moduleName` is `None` (src/index.ts:162-186 and :188-211).
     */
    method RegisterResponse(id: string, methodName: string, moduleName: Option<string>, r: ScriptedResponse<P>)
      returns (a: Ack)
      requires Valid()
      modifies this
      ensures Valid()
      ensures a.DeviceNotFound? <==> id !in old(devices)
      ensures id !in old(devices) ==> devices == old(devices)
      ensures id in old(devices) ==>
        devices == old(devices)[id := old(devices)[id].(methods := AddResponse(old(devices)[id].methods, methodName, moduleName, r))]
    {
      if id !in devices {
        return DeviceNotFound;
      }
      var device := devices[id];
      var methods := Register(device.methods, methodName, moduleName, r);
      AddResponseKeepsInvariants(device.methods, methodName, moduleName, r);
      StoreKeepsWellFormed(devices, id, device.(methods := methods));
      devices := devices[id := device.(methods := methods)];
      a := Ok;
    }

    /**
     * Invoke a direct method (src/index.ts:49-87 with a module, :89-128
     * without): resolve the device, then the record by exact key, then use
     * the head of its queue. Every failure leaves the registry unchanged.
     */
    method Invoke(id: string, moduleName: Option<string>, methodName: Option<string>, payload: P)
      returns (o: Outcome<P>)
      requires Valid()
      modifies this
      ensures Valid()
      ensures o.UnknownDevice? <==> id !in old(devices)
      ensures o.UnknownMethod? <==> id in old(devices) && Find(old(devices)[id].methods, moduleName, methodName).None?
      ensures !o.Success? ==> devices == old(devices)
      ensures id in old(devices) && Find(old(devices)[id].methods, moduleName, methodName).Some? ==>
        var d := old(devices)[id];
        var i := Find(d.methods, moduleName, methodName).value;
        var (rec, out) := Call(d.methods[i], payload);
        o == out && devices == old(devices)[id := d.(methods := d.methods[i := rec])]
    {
      if id !in devices {
        return UnknownDevice;
      }
      var device := devices[id];
      var found := Find(device.methods, moduleName, methodName);
      if found.None? {
        return UnknownMethod;
      }
      var i := found.value;
      var rec := device.methods[i];
      if |rec.queue| == 0 {
        assert device.methods[i := rec] == device.methods;
        assert devices[id := device.(methods := device.methods[i := rec])] == devices;
        return NoResponse;
      }
      var response := rec.queue[0].response;
      var queue := rec.queue;
      if response.count > 1 {
        queue := [queue[0].(response := response.(count := response.count - 1))] + queue[1..];
      } else if response.count == 1 {
        if queue[0].copies > 1 {
          queue := [queue[0].(copies := queue[0].copies - 1)] + queue[1..];
        } else {
          queue := queue[1..];
        }
      }
      rec := rec.(queue := queue, callHistory := rec.callHistory + [payload]);
      assert rec == Call(device.methods[i], payload).0;
      CallKeepsInvariants(device.methods, i, payload);
      StoreKeepsWellFormed(devices, id, device.(methods := device.methods[i := rec]));
      devices := devices[id := device.(methods := device.methods[i := rec])];
      o := Success(response.status, response.payload);
    }

    /** Clear all devices (src/index.ts:213-221). */
    method ClearAll()
      requires Valid()
      modifies this
      ensures Valid()
      ensures devices == map[]
    {
      if |devices| > 0 {
        devices := map[];
      }
    }

    /** Clear one device (src/index.ts:223-231); an unknown id is a no-op. */
    method ClearDevice(id: string)
      requires Valid()
      modifies this
      ensures Valid()
      ensures devices == old(devices) - {id}
    {
      if id in devices {
        devices := devices - {id};
      }
    }

    /**
     * The twin-history query (src/index.ts:233-237): 200 for a known device,
     * 404 otherwise, and in both cases an empty array, since no operation
     * ever appends to a twin's history.
     */
    function TwinHistory(id: string): (r: Reply<seq<P>>)
      reads this
      requires Valid()
      ensures r.code == (if id in devices then HTTP_OK else HTTP_NOT_FOUND)
      ensures r.body == []
    {
      if id in devices then Reply(HTTP_OK, devices[id].twin.history) else Reply(HTTP_NOT_FOUND, [])
    }

    /**
     * The call-history report (src/index.ts:239-249 module-less,
     * :251-262 for a module): always 200; it names exactly the methods
     * registered on the device under that module filter, each with its
     * call history, and is empty for an unknown device.
     */
    function CallHistory(id: string, moduleName: Option<string>): (r: Reply<map<string, seq<P>>>)
      reads this
      requires Valid()
      ensures r.code == HTTP_OK
      ensures id !in devices ==> r.body == map[]
      ensures forall name :: name in r.body <==>
        id in devices && Find(devices[id].methods, moduleName, Some(name)).Some?
      ensures forall name :: name in r.body ==>
        r.body[name] == devices[id].methods[Find(devices[id].methods, moduleName, Some(name)).value].callHistory
    {
      if id in devices then
        ReportLists(devices[id].methods, moduleName);
        Reply(HTTP_OK, Report(devices[id].methods, moduleName))
      else
        Reply(HTTP_OK, map[])
    }
  }
}
