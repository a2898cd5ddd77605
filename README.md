# iothub-mock device-state engine, in Dafny

This project models the in-memory state engine of a device-management mock
(the iothub-mock server, `src/index.ts`). Test suites use the mock in place of a
real device-management back end. The engine has four parts:

- a **device registry**: a process-wide map from device id to device, with
  create-or-replace, delete-one and clear-all;
- a **method registry** per device: records keyed by method name plus an
  optional module name. Each record owns a queue of scripted responses and an
  append-only call history;
- an **invocation engine**: it resolves a record by exact key, answers with the
  head response, and applies the head's `count` policy (above 1: decrement;
  exactly 1: remove; otherwise: keep forever);
- a **twin store** and the history queries.

Files:

- `model.dfy` (module `DeviceModel`): the data shapes.
- `queue.dfy` (module `ResponseQueue`): the response queue and the count policy.
- `methods.dfy` (module `MethodRegistry`): lookup, registration, one invocation
  of a record, repeated invocations, and the call-history report.
- `registry.dfy` (module `DeviceRegistry`): the class `Registry`. Each route
  handler that changes state is a method with `modifies this`. The two query
  handlers are functions.
- `scenarios.dfy` (module `Scenarios`): client methods whose assertions follow
  from the registry's contracts.

`Registry.Valid()` is the invariant every method keeps. It says that each
device has at most one record per key, that a queue shares an object only in
its first two slots, and that every twin history is empty.

## Behaviour kept from the source

- **One object pushed twice.** The first registration of a key builds the
  record with `responses: [req.body]`, then pushes `req.body` again
  (src/index.ts:177 and :181; :203 and :206). Both slots hold the SAME object,
  so `response.count--` on the head is visible in both slots. The model writes
  the queue as `QueueEntry(response, copies)`: one object plus the number of
  consecutive slots that hold it. `Slots` gives the array as its slots show it.
  As a result, a first registration with `count` n >= 1 answers n + 1 calls
  (`FirstRegistration`). A response registered later for a known key with an
  empty queue answers exactly n calls (`LaterRegistration`). A test author
  may expect a single-use response to answer once and a count-2 response to
  answer twice; that holds only for later registrations. The model follows
  the code.
- **Twin history is never written.** It starts as `[]` (src/index.ts:136), and
  twin update writes only `value` (:155). The history
  starts empty and nothing appends to it, so `TwinHistory` always returns an
  empty body.
- **Unknown device on twin update or registration.** The handler sends 404,
  does not return, and then throws on `device.twin` or
  `device.registeredMethods` before any write (src/index.ts:150-155,
  :166-171, :195-200). The model answers `DeviceNotFound` and leaves the
  state unchanged.
- The module route and the module-less route of invocation
  (src/index.ts:49-87, :89-128) differ only in the module key. They are one
  method, `Invoke`, with `moduleName: Option<string>`. `None` is the
  module-less key; it never equals a module name.

## Model

| member | source | states |
|---|---|---|
| `ResponseQueue.Slots` | src/index.ts:21 | the `responses` array as its slots show it: at least one slot per queued object, and the head object fills the first `copies` slots |
| `ResponseQueue.SlotsAppend` | src/index.ts:181 | pushing objects at the tail appends their slots to the array |
| `ResponseQueue.Consume` | src/index.ts:75-80 | using the head keeps the only sharing in the first two slots |
| `ResponseQueue.ConsumePolicy` | src/index.ts:116-121 | count above 1: same length, every slot holding the head object shows count - 1, every other slot unchanged; count 1: the first slot is removed; count <= 0: the array is unchanged |
| `MethodRegistry.Find` | src/index.ts:61 | the first record whose method name and module key both equal the request's (module-less matches only module-less, as at :101), or none when no record matches |
| `MethodRegistry.AddResponse` | src/index.ts:171-181 | new key: one record is appended with an empty history and the response object in two slots, all other records kept; known key: only that record's queue changes, by `r` at its tail |
| `MethodRegistry.Register` | src/index.ts:171-181 | the handler's steps (look up; when missing, create the record seeded with the body; then push the body, which on a new record adds a second slot to the object already there) give exactly the records `AddResponse` describes |
| `MethodRegistry.AddResponseKeepsInvariants` | src/index.ts:200-206 | after a registration the key is found, keys stay unique and every queue keeps its shape |
| `MethodRegistry.AddResponseKeepsOtherKeys` | src/index.ts:200-206 | registering under one key leaves the lookup of every other key unchanged, including the same method name with a different module key |
| `MethodRegistry.Call` | src/index.ts:68-86 | empty queue: `NoResponse` and the record unchanged; otherwise: the answer is the status and payload of the head before the call, the count policy is applied, and the body is appended to the call history; the key never changes |
| `MethodRegistry.CallKeepsInvariants` | src/index.ts:75-82 | storing a record's state after a call back in its slot keeps keys unique and queues shaped |
| `MethodRegistry.Serve` | src/index.ts:116-123 | n calls give n answers and keep the record's key |
| `MethodRegistry.ServeHistory` | src/index.ts:82 | after any call sequence, the history is the old history plus the bodies of the successful calls, in call order; failed calls add nothing |
| `MethodRegistry.ServeCounted` | src/index.ts:76-79 | a head with count n >= 1 in c slots answers exactly n - 1 + c calls with its own status and payload, and then leaves the queue |
| `MethodRegistry.ServeUnlimited` | src/index.ts:117-121 | a head with count <= 0 answers every call with its status and payload, and the queue never changes |
| `MethodRegistry.ServeExhausted` | src/index.ts:68-73 | an empty queue answers every call with `NoResponse` and the record is unchanged |
| `MethodRegistry.FirstRegistration` | src/index.ts:173-181 | a first registration with count n >= 1 answers n + 1 calls with its status and payload, then `NoResponse` |
| `MethodRegistry.LaterRegistration` | src/index.ts:202-206 | a registration for a known key with an empty queue and count n >= 1 answers exactly n calls, then `NoResponse` |
| `MethodRegistry.Report` | src/index.ts:242-247 | the `filter` + `reduce` of the report names exactly the methods registered under the module key, whether called or not |
| `MethodRegistry.ReportLists` | src/index.ts:242-247 | with unique keys, the report names exactly the records of the filter's module key, each with its own call history |
| `DeviceRegistry.Registry.constructor` | src/index.ts:35 | the registry starts empty |
| `DeviceRegistry.Registry.CreateOrReplace` | src/index.ts:133-139 | the id maps to a fresh device with no methods, the body as twin value and an empty history; all other ids are unchanged |
| `DeviceRegistry.Registry.UpdateTwin` | src/index.ts:149-155 | known device: only its `twin.value` changes; unknown device: `DeviceNotFound` and nothing changes |
| `DeviceRegistry.Registry.RegisterResponse` | src/index.ts:162-211 | unknown device: `DeviceNotFound` and nothing changes; otherwise only that device's records change, as `AddResponse` says |
| `DeviceRegistry.Registry.Invoke` | src/index.ts:49-128 | `UnknownDevice` exactly when the id is absent; `UnknownMethod` exactly when no record matches; every failure leaves the registry unchanged; success changes only the matched record of that device, as `Call` says |
| `DeviceRegistry.Registry.ClearAll` | src/index.ts:213-217 | the registry is empty afterwards, whether or not it was empty before |
| `DeviceRegistry.Registry.ClearDevice` | src/index.ts:223-227 | exactly that id is removed; an unknown id leaves the registry unchanged |
| `DeviceRegistry.Registry.TwinHistory` | src/index.ts:233-237 | 200 for a known device and 404 otherwise; the body is always empty |
| `DeviceRegistry.Registry.CallHistory` | src/index.ts:251-262 | always 200; the body names exactly the device's methods under that module key, each with its call history; it is empty for an unknown device |

## Left out

- The HTTP shell: Express setup, JSON parsing, `res.status`/`res.send`/`setHeader`. Each handler's answer is a result value (`Outcome`, `Ack`, `Reply`) instead.
- The ports and the `silent` flag from the environment, and all console logging. These are environment and I/O.
- The `/health` and `/manage-api/cert` endpoints, the TLS server with its `readFileSync` calls, and `app.listen`. These are file and network I/O.
- The catch-all unknown-route handlers and `printUnknownRequest`. They only log and answer 200.
- The JSON structure of payloads, twin values and request bodies. They are the opaque type `P`.
- Reading `methodName` from the invocation body is the shell's job. It passes `None` when the field is absent or not a string, and such a call never matches a record.
- Non-integer counts and JavaScript number precision. `count` and `status` are unbounded integers. A fractional count (such as 1.5 becoming 0.5 and then unlimited) and a numeric string that JavaScript coerces are not modelled. An absent count reaches the model as 0, which has the same unlimited meaning.
- Object identity is not modelled as heap references. Records and devices are values, because the source never shares them. The response objects are shared, and that sharing is written as `QueueEntry.copies`.
- Some device ids name properties inherited from `Object.prototype`, such as `constructor`. In the source these ids make lookups misbehave. The model treats them like any other absent id.
- `Report`: a method named `__proto__` is listed with its call history. The source builds the report as a plain object (src/index.ts:245, :258), where assigning to `__proto__` sets the prototype and adds no entry, so the source's report leaves that method out.
- The exception that an unknown-device twin update or registration throws after its 404, and Express's handling of it. Only the 404 and the unchanged state are modelled.
- Concurrency: requests run one at a time, so every operation is one atomic method call. The unbounded growth of histories and of the registry is not a concern of the model.
