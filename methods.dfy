/**
 * The per-device method registry: exact-key lookup (`registeredMethods.find`),
 * response registration, one invocation of a record, and the call-history
 * report (src/index.ts:61, :100-102, :162-211, :75-82, :239-262).
 */
module MethodRegistry {
  import opened DeviceModel
  import opened ResponseQueue

  /** Exact key equality; a module-less record never matches a module, and back. */
  predicate Matches<P>(m: MethodRecord<P>, moduleName: Option<string>, methodName: Option<string>)
  {
    m.moduleName == moduleName && Some(m.methodName) == methodName
  }

  /**
   * `Array.prototype.find`: the first record with the key. `methodName` is
   * `None` when the request body carries no string `methodName`.
   */
  function Find<P>(ms: seq<MethodRecord<P>>, moduleName: Option<string>, methodName: Option<string>): (r: Option<nat>)
    ensures r.Some? ==>
      && r.value < |ms| && Matches(ms[r.value], moduleName, methodName)
      && forall k :: 0 <= k < r.value ==> !Matches(ms[k], moduleName, methodName)
    ensures r.None? ==> forall k :: 0 <= k < |ms| ==> !Matches(ms[k], moduleName, methodName)
  {
    if |ms| == 0 then None
    else if Matches(ms[0], moduleName, methodName) then Some(0)
    else match Find(ms[1..], moduleName, methodName)
      case None => None
      case Some(i) => Some(i + 1)
  }

  /** At most one record per (methodName, moduleName) key. */
  ghost predicate KeysUnique<P>(ms: seq<MethodRecord<P>>)
  {
    forall i, j :: 0 <= i < j < |ms| ==>
      ms[i].methodName != ms[j].methodName || ms[i].moduleName != ms[j].moduleName
  }

  ghost predicate AllShaped<P>(ms: seq<MethodRecord<P>>)
  {
    forall k :: 0 <= k < |ms| ==> Shaped(ms[k].queue)
  }

  /** Lookups see only keys; records with the same keys give the same answer. */
  lemma FindSameKeys<P>(a: seq<MethodRecord<P>>, b: seq<MethodRecord<P>>, moduleName: Option<string>, methodName: Option<string>)
    requires |a| == |b|
    requires forall k :: 0 <= k < |a| ==> a[k].methodName == b[k].methodName && a[k].moduleName == b[k].moduleName
    ensures Find(a, moduleName, methodName) == Find(b, moduleName, methodName)
  {
    var fa, fb := Find(a, moduleName, methodName), Find(b, moduleName, methodName);
    if fa.Some? && fb.Some? {
      assert !(fa.value < fb.value) && !(fb.value < fa.value);
    }
  }

  /**
   * Registering response `r` under a key (src/index.ts:171-181, :200-206):
   * a new key appends a record whose array holds `r` in two slots (one
   * object, pushed twice); a known key appends `r` to that record's array.
   */
  function AddResponse<P>(ms: seq<MethodRecord<P>>, methodName: string, moduleName: Option<string>, r: ScriptedResponse<P>)
    : (ms': seq<MethodRecord<P>>)
    ensures Find(ms, moduleName, Some(methodName)).None? ==>
      && |ms'| == |ms| + 1 && ms'[..|ms|] == ms
      && ms'[|ms|].methodName == methodName && ms'[|ms|].moduleName == moduleName
      && ms'[|ms|].callHistory == []
      && ms'[|ms|].queue == [QueueEntry(r, 2)]
      && Slots(ms'[|ms|].queue) == [r, r]
    ensures Find(ms, moduleName, Some(methodName)).Some? ==>
      var i := Find(ms, moduleName, Some(methodName)).value;
      && |ms'| == |ms|
      && (forall k :: 0 <= k < |ms| && k != i ==> ms'[k] == ms[k])
      && ms'[i].methodName == methodName && ms'[i].moduleName == moduleName
      && ms'[i].callHistory == ms[i].callHistory
      && ms'[i].queue == ms[i].queue + [QueueEntry(r, 1)]
      && Slots(ms'[i].queue) == Slots(ms[i].queue) + [r]
  {
    match Find(ms, moduleName, Some(methodName))
    case None =>
      assert Slots([QueueEntry(r, 2)]) == Repeat(r, 2) + Slots([]);
      ms + [MethodRecord(methodName, moduleName, [], [QueueEntry(r, 2)])]
    case Some(i) =>
      SlotsAppend(ms[i].queue, [QueueEntry(r, 1)]);
      assert Slots([QueueEntry(r, 1)]) == Repeat(r, 1) + Slots([]);
      ms[i := ms[i].(queue := ms[i].queue + [QueueEntry(r, 1)])]
  }

  /**
   * The registration handler's steps on a device's records
   * (src/index.ts:171-181, :200-206): look the key up, create the record
   * seeded with the body when it is missing, then push the body.
   */
  method Register<P>(ms: seq<MethodRecord<P>>, methodName: string, moduleName: Option<string>, r: ScriptedResponse<P>)
    returns (ms': seq<MethodRecord<P>>)
    ensures ms' == AddResponse(ms, methodName, moduleName, r)
  {
    ms' := ms;
    var found := Find(ms', moduleName, Some(methodName));
    if found.None? {
      // a new record seeded with `responses: [req.body]`
      ms' := ms' + [MethodRecord(methodName, moduleName, [], [QueueEntry(r, 1)])];
      // `method.responses.push(req.body)`: the object already in the first slot
      var i := |ms'| - 1;
      ms' := ms'[i := ms'[i].(queue := [ms'[i].queue[0].(copies := ms'[i].queue[0].copies + 1)])];
    } else {
      var i := found.value;
      ms' := ms'[i := ms'[i].(queue := ms'[i].queue + [QueueEntry(r, 1)])];
    }
  }

  /**
   * After a registration the key is found, keys stay unique and the only
   * shared object of a queue is still in its first two slots.
   */
  lemma AddResponseKeepsInvariants<P>(ms: seq<MethodRecord<P>>, methodName: string, moduleName: Option<string>, r: ScriptedResponse<P>)
    ensures var ms' := AddResponse(ms, methodName, moduleName, r);
      && Find(ms', moduleName, Some(methodName)).Some?
      && (KeysUnique(ms) ==> KeysUnique(ms'))
      && (AllShaped(ms) ==> AllShaped(ms'))
  {
    var ms' := AddResponse(ms, methodName, moduleName, r);
    match Find(ms, moduleName, Some(methodName))
    case None =>
      assert Matches(ms'[|ms|], moduleName, Some(methodName));
      assert forall k :: 0 <= k < |ms| ==> ms'[k] == ms[k];
    case Some(i) =>
      FindSameKeys(ms', ms, moduleName, Some(methodName));
      if AllShaped(ms) {
        assert Shaped(ms[i].queue);
        assert Shaped(ms'[i].queue);
      }
  }

  /** Registering under one key leaves the lookup of every other key as it was. */
  lemma AddResponseKeepsOtherKeys<P>(ms: seq<MethodRecord<P>>, methodName: string, moduleName: Option<string>,
                                     r: ScriptedResponse<P>, otherModule: Option<string>, otherMethod: Option<string>)
    requires otherModule != moduleName || otherMethod != Some(methodName)
    ensures Find(AddResponse(ms, methodName, moduleName, r), otherModule, otherMethod) == Find(ms, otherModule, otherMethod)
  {
    var ms' := AddResponse(ms, methodName, moduleName, r);
    match Find(ms, moduleName, Some(methodName))
    case None =>
      var f, f' := Find(ms, otherModule, otherMethod), Find(ms', otherModule, otherMethod);
      assert !Matches(ms'[|ms|], otherModule, otherMethod);
      if f'.Some? {
        assert f'.value < |ms| && ms'[f'.value] == ms[f'.value];
      }
      if f.Some? {
        assert ms'[f.value] == ms[f.value];
      }
      if f.Some? && f'.Some? {
        assert !(f.value < f'.value) && !(f'.value < f.value);
      }
    case Some(i) =>
      FindSameKeys(ms', ms, otherModule, otherMethod);
  }

  /**
   * One invocation of a matched record (src/index.ts:68-86): no queued
   * response gives `NoResponse` and changes nothing; otherwise the head's
   * status and payload are answered, the count policy is applied and the
   * request body is appended to the call history.
   */
  function Call<P>(rec: MethodRecord<P>, payload: P): (r: (MethodRecord<P>, Outcome<P>))
    ensures r.0.methodName == rec.methodName && r.0.moduleName == rec.moduleName
    ensures Shaped(rec.queue) ==> Shaped(r.0.queue)
    ensures rec.queue == [] <==> r.1.NoResponse?
    ensures rec.queue == [] ==> r.0 == rec
    ensures rec.queue != [] ==>
      && r.1 == Success(Slots(rec.queue)[0].status, Slots(rec.queue)[0].payload)
      && r.0.queue == Consume(rec.queue)
      && r.0.callHistory == rec.callHistory + [payload]
  {
    if |rec.queue| == 0 then (rec, NoResponse)
    else
      var head := rec.queue[0].response;
      (rec.(queue := Consume(rec.queue), callHistory := rec.callHistory + [payload]),
       Success(head.status, head.payload))
  }

  /** Replacing a record by its state after a call keeps keys unique and queues shaped. */
  lemma CallKeepsInvariants<P>(ms: seq<MethodRecord<P>>, i: nat, payload: P)
    requires i < |ms|
    ensures var ms' := ms[i := Call(ms[i], payload).0];
      && (KeysUnique(ms) ==> KeysUnique(ms'))
      && (AllShaped(ms) ==> AllShaped(ms'))
  {
    var ms' := ms[i := Call(ms[i], payload).0];
    assert forall k :: 0 <= k < |ms| ==>
      ms'[k].methodName == ms[k].methodName && ms'[k].moduleName == ms[k].moduleName;
  }

  /** Successive invocations of one record with the given request bodies. */
  function Serve<P>(rec: MethodRecord<P>, payloads: seq<P>): (r: (MethodRecord<P>, seq<Outcome<P>>))
    ensures |r.1| == |payloads|
    ensures r.0.methodName == rec.methodName && r.0.moduleName == rec.moduleName
    decreases |payloads|
  {
    if |payloads| == 0 then (rec, [])
    else
      var (next, o) := Call(rec, payloads[0]);
      var (last, os) := Serve(next, payloads[1..]);
      (last, [o] + os)
  }

  /** The request bodies whose invocation succeeded, in call order. */
  function Delivered<P>(payloads: seq<P>, outcomes: seq<Outcome<P>>): (d: seq<P>)
    requires |payloads| == |outcomes|
  {
    if |payloads| == 0 then []
    else (if outcomes[0].Success? then [payloads[0]] else []) + Delivered(payloads[1..], outcomes[1..])
  }

  /**
   * The call history grows by exactly the bodies of the successful calls, in
   * call order; a failed call records nothing.
   */
  lemma {:induction false} ServeHistory<P>(rec: MethodRecord<P>, payloads: seq<P>)
    ensures var (last, os) := Serve(rec, payloads);
      last.callHistory == rec.callHistory + Delivered(payloads, os)
    decreases |payloads|
  {
    if |payloads| > 0 {
      var (next, o) := Call(rec, payloads[0]);
      var (last, os) := Serve(next, payloads[1..]);
      ServeHistory(next, payloads[1..]);
      assert Serve(rec, payloads).1 == [o] + os;
      assert ([o] + os)[1..] == os;
      assert last.callHistory == next.callHistory + Delivered(payloads[1..], os);
    }
  }

  /**
   * A head with count n >= 1 that fills c slots answers exactly n - 1 + c
   * calls with its status and payload and is then gone from the queue.
   */
  lemma {:induction false} ServeCounted<P>(rec: MethodRecord<P>, payloads: seq<P>)
    requires rec.queue != [] && rec.queue[0].response.count >= 1
    requires |payloads| == rec.queue[0].response.count - 1 + rec.queue[0].copies
    ensures var h, (last, os) := rec.queue[0].response, Serve(rec, payloads);
      && (forall k :: 0 <= k < |os| ==> os[k] == Success(h.status, h.payload))
      && last.queue == rec.queue[1..]
      && last.callHistory == rec.callHistory + payloads
    decreases |payloads|
  {
    var head := rec.queue[0];
    var h := head.response;
    var (next, o) := Call(rec, payloads[0]);
    var (last, os) := Serve(next, payloads[1..]);
    assert Serve(rec, payloads) == (last, [o] + os);
    assert o == Success(h.status, h.payload);
    if h.count == 1 && head.copies == 1 {
      assert next.queue == rec.queue[1..];
      assert payloads[1..] == [];
      assert payloads == [payloads[0]];
    } else {
      assert next.queue[1..] == rec.queue[1..];
      assert next.queue[0].response.status == h.status && next.queue[0].response.payload == h.payload;
      ServeCounted(next, payloads[1..]);
      assert payloads == [payloads[0]] + payloads[1..];
    }
  }

  /** A head with count <= 0 answers every call and never leaves the queue. */
  lemma {:induction false} ServeUnlimited<P>(rec: MethodRecord<P>, payloads: seq<P>)
    requires rec.queue != [] && rec.queue[0].response.count <= 0
    ensures var h, (last, os) := rec.queue[0].response, Serve(rec, payloads);
      && (forall k :: 0 <= k < |os| ==> os[k] == Success(h.status, h.payload))
      && last.queue == rec.queue
      && last.callHistory == rec.callHistory + payloads
    decreases |payloads|
  {
    if |payloads| > 0 {
      var h := rec.queue[0].response;
      var (next, o) := Call(rec, payloads[0]);
      var (last, os) := Serve(next, payloads[1..]);
      assert Serve(rec, payloads) == (last, [o] + os);
      assert next.queue == rec.queue;
      ServeUnlimited(next, payloads[1..]);
      assert payloads == [payloads[0]] + payloads[1..];
    }
  }

  /** An empty queue answers every call with `NoResponse` and records nothing. */
  lemma {:induction false} ServeExhausted<P>(rec: MethodRecord<P>, payloads: seq<P>)
    requires rec.queue == []
    ensures var (last, os) := Serve(rec, payloads);
      last == rec && forall k :: 0 <= k < |os| ==> os[k].NoResponse?
    decreases |payloads|
  {
    if |payloads| > 0 {
      var (last, os) := Serve(rec, payloads[1..]);
      ServeExhausted(rec, payloads[1..]);
      assert Serve(rec, payloads) == (last, [NoResponse] + os);
    }
  }

  /**
   * The first registration of a key with count n >= 1 answers n + 1 calls,
   * not n: the object pushed twice is decremented through both slots and
   * then removed slot by slot. The next call finds no response.
   */
  lemma FirstRegistration<P>(ms: seq<MethodRecord<P>>, methodName: string, moduleName: Option<string>,
                             r: ScriptedResponse<P>, payloads: seq<P>, later: P)
    requires Find(ms, moduleName, Some(methodName)).None?
    requires r.count >= 1 && |payloads| == r.count + 1
    ensures var rec := AddResponse(ms, methodName, moduleName, r)[|ms|];
      var (last, os) := Serve(rec, payloads);
      && (forall k :: 0 <= k < |os| ==> os[k] == Success(r.status, r.payload))
      && last.queue == []
      && last.callHistory == payloads
      && Call(last, later).1.NoResponse?
  {
    var rec := AddResponse(ms, methodName, moduleName, r)[|ms|];
    ServeCounted(rec, payloads);
  }

  /**
   * A response registered for a known key whose queue is empty, with count
   * n >= 1, answers exactly n calls; the next call finds no response.
   */
  lemma LaterRegistration<P>(ms: seq<MethodRecord<P>>, methodName: string, moduleName: Option<string>,
                             r: ScriptedResponse<P>, payloads: seq<P>, later: P)
    requires Find(ms, moduleName, Some(methodName)).Some?
    requires ms[Find(ms, moduleName, Some(methodName)).value].queue == []
    requires r.count >= 1 && |payloads| == r.count
    ensures var i := Find(ms, moduleName, Some(methodName)).value;
      var (last, os) := Serve(AddResponse(ms, methodName, moduleName, r)[i], payloads);
      && (forall k :: 0 <= k < |os| ==> os[k] == Success(r.status, r.payload))
      && last.queue == []
      && last.callHistory == ms[i].callHistory + payloads
      && Call(last, later).1.NoResponse?
  {
    var i := Find(ms, moduleName, Some(methodName)).value;
    var rec := AddResponse(ms, methodName, moduleName, r)[i];
    assert rec.queue == [QueueEntry(r, 1)];
    ServeCounted(rec, payloads);
  }

  /** The `reduce` of the call-history report over records matching `filter`. */
  function Collect<P>(ms: seq<MethodRecord<P>>, filter: Option<string>, acc: map<string, seq<P>>): (r: map<string, seq<P>>)
  {
    if |ms| == 0 then acc
    else Collect(ms[1..], filter,
                 if ms[0].moduleName == filter then acc[ms[0].methodName := ms[0].callHistory] else acc)
  }

  /** The fold adds exactly the names of the records that match the filter, unique keys or not. */
  lemma {:induction false} CollectKeys<P>(ms: seq<MethodRecord<P>>, filter: Option<string>, acc: map<string, seq<P>>)
    ensures forall name :: name in Collect(ms, filter, acc) <==> name in acc || Find(ms, filter, Some(name)).Some?
  {
    if |ms| > 0 {
      var acc' := if ms[0].moduleName == filter then acc[ms[0].methodName := ms[0].callHistory] else acc;
      CollectKeys(ms[1..], filter, acc');
    }
  }

  /**
   * The call-history report: method name to call history, for one module
   * filter. It names exactly the methods registered under the filter, with
   * or without calls; which history a name maps to is `ReportLists`.
   */
  function Report<P>(ms: seq<MethodRecord<P>>, filter: Option<string>): (r: map<string, seq<P>>)
    ensures forall name :: name in r <==> Find(ms, filter, Some(name)).Some?
  {
    CollectKeys(ms, filter, map[]);
    Collect(ms, filter, map[])
  }

  lemma {:induction false} CollectLists<P>(ms: seq<MethodRecord<P>>, filter: Option<string>, acc: map<string, seq<P>>, name: string)
    requires KeysUnique(ms)
    ensures var c, f := Collect(ms, filter, acc), Find(ms, filter, Some(name));
      && (name in c <==> name in acc || f.Some?)
      && (f.Some? ==> c[name] == ms[f.value].callHistory)
      && (f.None? && name in acc ==> c[name] == acc[name])
  {
    if |ms| > 0 {
      var acc' := if ms[0].moduleName == filter then acc[ms[0].methodName := ms[0].callHistory] else acc;
      var f, f' := Find(ms, filter, Some(name)), Find(ms[1..], filter, Some(name));
      KeysUniqueTail(ms);
      CollectLists(ms[1..], filter, acc', name);
      if Matches(ms[0], filter, Some(name)) {
        assert f == Some(0);
        assert f'.None?;
        assert name in acc' && acc'[name] == ms[0].callHistory;
      } else {
        assert f'.Some? ==> f == Some(f'.value + 1) && ms[1..][f'.value] == ms[f.value];
        assert f'.None? ==> f.None?;
        assert (name in acc' <==> name in acc) && (name in acc ==> acc'[name] == acc[name]);
      }
    }
  }

  lemma KeysUniqueTail<P>(ms: seq<MethodRecord<P>>)
    requires |ms| > 0 && KeysUnique(ms)
    ensures KeysUnique(ms[1..])
  {
    forall i, j | 0 <= i < j < |ms[1..]|
      ensures ms[1..][i].methodName != ms[1..][j].methodName || ms[1..][i].moduleName != ms[1..][j].moduleName
    {
      assert ms[1..][i] == ms[i + 1] && ms[1..][j] == ms[j + 1];
    }
  }

  /**
   * With unique keys the report lists exactly the registered methods of the
   * filter's module (calls or not), each with its own call history.
   */
  lemma ReportLists<P>(ms: seq<MethodRecord<P>>, filter: Option<string>)
    requires KeysUnique(ms)
    ensures forall name :: name in Report(ms, filter) <==> Find(ms, filter, Some(name)).Some?
    ensures forall name :: Find(ms, filter, Some(name)).Some? ==>
      Report(ms, filter)[name] == ms[Find(ms, filter, Some(name)).value].callHistory
  {
    forall name ensures (name in Report(ms, filter) <==> Find(ms, filter, Some(name)).Some?)
      && (Find(ms, filter, Some(name)).Some? ==> Report(ms, filter)[name] == ms[Find(ms, filter, Some(name)).value].callHistory)
    {
      CollectLists(ms, filter, map[], name);
    }
  }
}
