/** application/ApplicationManager.js: the registry of applications and the dispatch of a
    decoded transport header to the first application bound to its destination port. */
module AppManager {
  import opened Wrappers
  import opened Cap

  /** A registered application, as dispatch sees it: its `srcPort` property (`None` when the
      object has none, as for the DNS application, which keeps its port in `port`). */
  datatype Application = Application(srcPort: Option<int>)

  /** The index of the first application whose srcPort is strictly equal to the port, if any. */
  function FirstMatch(apps: seq<Application>, port: Option<int>): (r: Option<nat>)
    ensures r.Some? ==> r.value < |apps| && apps[r.value].srcPort == port
    ensures r.Some? ==> forall j :: 0 <= j < r.value ==> apps[j].srcPort != port
    ensures r.None? <==> forall j :: 0 <= j < |apps| ==> apps[j].srcPort != port
    decreases |apps|
  {
    if |apps| == 0 then None
    else if apps[0].srcPort == port then Some(0)
    else match FirstMatch(apps[1..], port)
      case None => None
      case Some(i) => Some(i + 1)
  }

  /** Registering an application never takes a port away from an earlier one: dispatch after
      the push goes where it went before, and to the new application only when no earlier
      one has the port. */
  lemma {:induction false} FirstMatchAfterRegister(apps: seq<Application>, app: Application,
                                                   port: Option<int>)
    ensures FirstMatch(apps + [app], port) ==
      if FirstMatch(apps, port).Some? then FirstMatch(apps, port)
      else if app.srcPort == port then Some(|apps|)
      else None
  {
    var all := apps + [app];
    forall j | 0 <= j < |apps| ensures all[j] == apps[j] { }
    if FirstMatch(apps, port).Some? {
      FirstMatchIs(all, port, FirstMatch(apps, port).value);
    } else if app.srcPort == port {
      FirstMatchIs(all, port, |apps|);
    } else {
      assert all[|apps|] == app;
    }
  }

  class ApplicationManager {
    /** `ApplicationManager.applicationList`, in registration order. */
    var applicationList: seq<Application>

    constructor()
      ensures applicationList == []
    {
      applicationList := [];
    }

    /** `registerApplication(app)`: appends the application. */
    method RegisterApplication(app: Application)
      modifies this
      ensures applicationList == old(applicationList) + [app]
    {
      applicationList := applicationList + [app];
    }

    /** `dispatchData(data)`: walks the list with `every` until the first application whose
        srcPort equals the destination port; that application's `handleData(data)` is called
        and the walk stops. The result is the index of the application called, if any. */
    method DispatchData(data: Info) returns (handler: Option<nat>)
      ensures handler == FirstMatch(applicationList, data.dstport)
    {
      var dstPort := data.dstport;
      var i := 0;
      while i < |applicationList|
        invariant 0 <= i <= |applicationList|
        invariant forall j :: 0 <= j < i ==> applicationList[j].srcPort != dstPort
      {
        if applicationList[i].srcPort == dstPort {
          FirstMatchIs(applicationList, dstPort, i);
          return Some(i);
        }
        i := i + 1;
      }
      return None;
    }
  }

  /** An index holding the port with no earlier one holding it is the first match. */
  lemma FirstMatchIs(apps: seq<Application>, port: Option<int>, i: nat)
    requires i < |apps| && apps[i].srcPort == port
    requires forall j :: 0 <= j < i ==> apps[j].srcPort != port
    ensures FirstMatch(apps, port) == Some(i)
  {
    assert apps[i].srcPort == port;
  }
}
