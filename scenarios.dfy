/**
 * A client of the registry: a request sequence a test suite sends to the
 * mock, with the answers the registry's contracts determine.
 */
module Scenarios {
  import opened DeviceModel
  import opened ResponseQueue
  import opened MethodRegistry
  import opened DeviceRegistry

  /**
   * Replacing a device drops its methods; clearing it makes every
   * device-level request fail as for an unknown device; clearing all twice
   * is the same as once.
   */
  method ReplaceAndClear()
  {
    var reg := new Registry<int>();
    reg.CreateOrReplace("dev", 0);
    var a := reg.RegisterResponse("dev", "ping", Some("edge"), ScriptedResponse(1, 200, 1));
    reg.CreateOrReplace("dev", 5);
    assert reg.devices["dev"].methods == [];
    var o := reg.Invoke("dev", Some("edge"), Some("ping"), 23);
    assert o == UnknownMethod;
    reg.ClearDevice("dev");
    o := reg.Invoke("dev", Some("edge"), Some("ping"), 24);
    assert o == UnknownDevice;
    a := reg.UpdateTwin("dev", 6);
    assert a == DeviceNotFound;
    a := reg.RegisterResponse("dev", "ping", None, ScriptedResponse(1, 200, 1));
    assert a == DeviceNotFound;
    var twin := reg.TwinHistory("dev");
    assert twin == Reply(HTTP_NOT_FOUND, []);
    reg.ClearAll();
    reg.ClearAll();
    assert reg.devices == map[];
  }

  /**
   * A single-use response registered for a new key answers two calls,
   * because the handler pushes the same object twice; the third call finds
   * an empty queue.
   */
  method SingleUseFirstRegistration()
  {
    var reg := new Registry<int>();
    reg.CreateOrReplace("dev", 0);
    var a := reg.RegisterResponse("dev", "reboot", None, ScriptedResponse(1, 200, 7));
    assert a == Ok;
    assert reg.devices["dev"].methods == [MethodRecord("reboot", None, [], [QueueEntry(ScriptedResponse(1, 200, 7), 2)])];
    var q := [QueueEntry(ScriptedResponse(1, 200, 7), 2)];
    assert q[1..] == [];
    assert Consume(q) == [QueueEntry(ScriptedResponse(1, 200, 7), 1)];
    var o := reg.Invoke("dev", None, Some("reboot"), 10);
    assert o == Success(200, 7);
    assert [] + [10] == [10];
    assert reg.devices["dev"].methods == [MethodRecord("reboot", None, [10], [QueueEntry(ScriptedResponse(1, 200, 7), 1)])];
    o := reg.Invoke("dev", None, Some("reboot"), 11);
    assert o == Success(200, 7);
    o := reg.Invoke("dev", None, Some("reboot"), 12);
    assert o == NoResponse;
  }

  /**
   * A response with count 0 answers every call; the report names the
   * method under its module key only, with the bodies it received.
   */
  method UnlimitedResponseHistory()
  {
    var reg := new Registry<int>();
    reg.CreateOrReplace("dev", 0);
    var a := reg.RegisterResponse("dev", "status", Some("edge"), ScriptedResponse(0, 201, 3));
    assert reg.devices["dev"].methods == [MethodRecord("status", Some("edge"), [], [QueueEntry(ScriptedResponse(0, 201, 3), 2)])];
    var o := reg.Invoke("dev", Some("edge"), Some("status"), 10);
    assert o == Success(201, 3);
    assert [] + [10] == [10];
    var h := reg.CallHistory("dev", Some("edge"));
    assert h.body["status"] == [10];
    h := reg.CallHistory("dev", None);
    assert "status" !in h.body;
  }
}
