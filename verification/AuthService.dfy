/**
The two services as one object: each locked section of their methods is a method
here and does one step of Bookkeeping.
*/
module AuthService {
  import opened Bytes
  import opened Wrappers
  import ConnIds
  import opened Bookkeeping

  /** One pass over a map, in any order. */
  ghost predicate Visits<K>(order: seq<K>, keys: set<K>) {
    (forall i | 0 <= i < |order| :: order[i] in keys) && (forall k | k in keys :: k in order)
  }

  lemma Kept(s: Sys, step: Step)
    ensures Inv(s) && Allowed(s, step) ==> Inv(Apply(s, step))
  {
    hide Inv, Allowed, Apply;
    if Inv(s) && Allowed(s, step) {
      StepKeepsInv(s, step);
    }
  }

  /**
  Each method that changes the object does one step, and keeps the invariant if the step is allowed.
  */
  class Service {
    var connections: map<u64, Connection>
    var fdToConnId: map<int, u64>
    var requests: map<u32, Request>
    var managers: map<int, Manager>
    var connIdToAuthId: map<u64, int>
    var authIdCounter: int
    var seqCounter: int
    ghost var phases: map<u32, Phase>
    ghost var usedFds: set<int>
    ghost var serverConns: set<u64>
    ghost var created: map<u32, int>

    ghost function View(): Sys
      reads this
    {
      Sys(connections, fdToConnId, requests, managers, connIdToAuthId, authIdCounter, seqCounter,
          phases, usedFds, serverConns, created)
    }

    constructor ()
      ensures View() == EMPTY && Inv(View())
    {
      connections, fdToConnId, requests, managers, connIdToAuthId := map[], map[], map[], map[], map[];
      authIdCounter, seqCounter := INITIAL_ID, INITIAL_ID;
      phases, usedFds, serverConns, created := map[], {}, {}, map[];
    }

    // ------------------------------------------------------------- manager layer

    /** AuthDeviceOpenConn: the manager is created before the connection exists. */
    method CreateManager(requestId: u32, info: Info) returns (authId: int)
      modifies this
      ensures View() == Apply(old(View()), BeginOpen(requestId, info)) && authId == authIdCounter
      ensures old(Inv(View()) && Allowed(View(), BeginOpen(requestId, info))) ==> Inv(View())
    {
      hide Inv, Allowed;
      Kept(View(), BeginOpen(requestId, info));
      authId := NewManager(0, info, false, requestId);
      phases, created := phases[requestId := Opening], created[requestId := authId];
    }

    /** AuthDeviceOpenConn after an error of ConnectAuthDevice: the manager that the call created is removed. */
    method OpenFailed(requestId: u32, authId: int)
      requires requestId in created && created[requestId] == authId
      modifies this
      ensures View() == Apply(old(View()), Step.OpenFailed(requestId))
      ensures old(Inv(View()) && Allowed(View(), Step.OpenFailed(requestId))) ==> Inv(View())
    {
      hide Inv, Allowed;
      Kept(View(), Step.OpenFailed(requestId));
      managers := managers - {authId};
      phases := phases - {requestId};
    }

    method NewManager(connId: u64, info: Info, isServer: bool, requestId: u32) returns (authId: int)
      modifies this`managers, this`authIdCounter, this`seqCounter
      ensures View() == AddManager(old(View()), connId, info, isServer, requestId) && authId == authIdCounter
    {
      authIdCounter := authIdCounter + 1;
      authId := authIdCounter;
      seqCounter := seqCounter + 1;
      managers := managers[authId := Manager(authId, seqCounter, connId, info, isServer, requestId)];
    }

    /** The search by request id; `order` is the order in which the map happens to be visited. */
    method FindManager(requestId: u32, order: seq<int>) returns (found: Maybe<int>)
      requires Visits(order, managers.Keys)
      ensures IsManagerFor(managers, requestId, found)
    {
      for i := 0 to |order|
        invariant forall j | 0 <= j < i :: managers[order[j]].requestId != requestId
      {
        if managers[order[i]].requestId == requestId {
          return Just(order[i]);
        }
      }
      return Nothing;
    }

    /** onAuthConnectResult for a connection that was established. */
    method OnConnectSucceeded(requestId: u32, connId: u64, order: seq<int>) returns (found: Maybe<int>)
      requires Visits(order, managers.Keys)
      requires requestId in phases && phases[requestId] == Connecting(connId)
      modifies this
      ensures IsManagerFor(old(managers), requestId, found)
      ensures View() == Apply(old(View()), ReportSuccess(requestId, found))
      ensures old(Inv(View()) && Allowed(View(), ReportSuccess(requestId, found))) ==> Inv(View())
    {
      hide Inv, Allowed;
      found := FindManager(requestId, order);
      Kept(View(), ReportSuccess(requestId, found));
      if found.Just? {
        managers := managers[found.value := managers[found.value].(connId := connId)];
        connIdToAuthId := connIdToAuthId[connId := found.value];
      }
      phases := phases - {requestId};
    }

    /** onAuthConnectResult for a dial that failed. */
    method OnConnectFailed(requestId: u32, order: seq<int>) returns (found: Maybe<int>)
      requires Visits(order, managers.Keys)
      modifies this
      ensures IsManagerFor(old(managers), requestId, found)
      ensures View() == Apply(old(View()), ReportFailure(requestId, found))
      ensures old(Inv(View()) && Allowed(View(), ReportFailure(requestId, found))) ==> Inv(View())
    {
      hide Inv, Allowed;
      found := FindManager(requestId, order);
      Kept(View(), ReportFailure(requestId, found));
      if found.Just? {
        managers := managers - {found.value};
      }
      phases := phases[requestId := Reported];
    }

    /** AuthDeviceCloseConn, up to the disconnection of the id it returns. */
    method CloseConn(authId: int) returns (connId: Maybe<u64>)
      modifies this`managers, this`connIdToAuthId
      ensures View() == Apply(old(View()), CloseManager(authId))
      ensures connId == if authId in old(managers) then Just(old(managers)[authId].connId) else Nothing
      ensures old(Inv(View()) && Allowed(View(), CloseManager(authId))) ==> Inv(View())
    {
      hide Inv, Allowed;
      Kept(View(), CloseManager(authId));
      if authId !in managers { return Nothing; }
      var c := managers[authId].connId;
      managers := managers - {authId};
      connIdToAuthId := connIdToAuthId - {c};
      return Just(c);
    }

    method OnAuthDisconnected(connId: u64)
      modifies this`managers, this`connIdToAuthId
      ensures View() == Apply(old(View()), ConnectionLost(connId))
      ensures old(Inv(View()) && Allowed(View(), ConnectionLost(connId))) ==> Inv(View())
    {
      hide Inv, Allowed;
      Kept(View(), ConnectionLost(connId));
      if connId !in connIdToAuthId { return; }
      var authId := connIdToAuthId[connId];
      managers := managers - {authId};
      connIdToAuthId := connIdToAuthId - {connId};
    }

    /** onAuthDataReceived, first section: a server's first authentication data creates a manager. */
    method OnAuthDataReceived(connId: u64, info: Info, fromServer: bool, moduleId: int) returns (authId: Maybe<int>)
      modifies this
      ensures View() == if fromServer then Apply(old(View()), ServerData(connId, moduleId, info)) else old(View())
      ensures authId == if connId in connIdToAuthId then Just(connIdToAuthId[connId]) else Nothing
      ensures old(Inv(View())) && (fromServer ==> old(Allowed(View(), ServerData(connId, moduleId, info)))) ==>
                Inv(View())
    {
      hide Inv, Allowed;
      Kept(View(), ServerData(connId, moduleId, info));
      if connId !in connIdToAuthId {
        if !fromServer || moduleId != MODULE_AUTH_SDK { return Nothing; }
        var newId := NewManager(connId, info, true, 0);
        connIdToAuthId := connIdToAuthId[connId := newId];
      }
      return Just(connIdToAuthId[connId]);
    }

    /** onAuthDataReceived, second section: the manager that the data goes to. */
    method ManagerForData(authId: int) returns (manager: Maybe<Manager>)
      ensures manager == if authId in managers then Just(managers[authId]) else Nothing
    {
      if authId !in managers { return Nothing; }
      return Just(managers[authId]);
    }

    // ---------------------------------------------------------- connection layer

    /** ConnectAuthDevice: the request is stored before the dial. */
    method SaveRequest(requestId: u32, info: Info, now: int)
      modifies this
      ensures View() == Apply(old(View()), AddRequest(requestId, info, now))
      ensures old(Inv(View()) && Allowed(View(), AddRequest(requestId, info, now))) ==> Inv(View())
    {
      hide Inv, Allowed;
      Kept(View(), AddRequest(requestId, info, now));
      requests := requests[requestId := Request(requestId, info, now)];
      phases := phases[requestId := Dialing];
    }

    method OnDialFailed(requestId: u32)
      modifies this
      ensures View() == Apply(old(View()), DialFailed(requestId))
      ensures old(Inv(View()) && Allowed(View(), DialFailed(requestId))) ==> Inv(View())
    {
      hide Inv, Allowed;
      Kept(View(), DialFailed(requestId));
      requests := requests - {requestId};
      phases := phases[requestId := Failing];
    }

    /** The search for the request that started first. */
    method OldestRequest(order: seq<u32>) returns (matched: Maybe<u32>)
      requires Visits(order, requests.Keys)
      ensures matched == Nothing <==> requests == map[]
      ensures matched.Just? ==> IsOldest(requests, matched.value)
    {
      matched := Nothing;
      for i := 0 to |order|
        invariant matched == Nothing <==> i == 0
        invariant matched.Just? ==> matched.value in requests
        invariant matched.Just? ==>
                    forall j | 0 <= j < i :: requests[matched.value].startTime <= requests[order[j]].startTime
      {
        if matched.Nothing? || requests[order[i]].startTime < requests[matched.value].startTime {
          matched := Just(order[i]);
        }
      }
      assert |order| > 0 ==> order[0] in requests.Keys;
      if |order| == 0 {
        assert requests.Keys == {};
      }
    }

    method OnClientConnected(fd: int, order: seq<u32>) returns (matched: Maybe<u32>)
      requires Visits(order, requests.Keys)
      modifies this
      ensures matched.Nothing? ==> old(requests) == map[] && View() == old(View())
      ensures matched.Just? ==> IsOldest(old(requests), matched.value)
      ensures matched.Just? ==> View() == Apply(old(View()), ClientConnected(fd, matched.value))
      ensures matched.Just? && old(Inv(View()) && Allowed(View(), ClientConnected(fd, matched.value))) ==> Inv(View())
    {
      hide Inv, Allowed;
      matched := OldestRequest(order);
      if matched.Nothing? { return; }
      Kept(View(), ClientConnected(fd, matched.value));
      var info := requests[matched.value].info;
      var connId := AddConn(fd, info, false);
      requests := requests - {matched.value};
      phases := phases[matched.value := Connecting(connId)];
    }

    method OnServerConnected(fd: int, info: Info)
      modifies this
      ensures View() == Apply(old(View()), ServerConnected(fd, info))
      ensures old(Inv(View()) && Allowed(View(), ServerConnected(fd, info))) ==> Inv(View())
    {
      hide Inv, Allowed;
      Kept(View(), ServerConnected(fd, info));
      var connId := AddConn(fd, info.(linkType := LINK_WIFI), true);
    }

    method AddConn(fd: int, info: Info, isServer: bool) returns (connId: u64)
      modifies this
      ensures View() == AddConnection(old(View()), fd, info, isServer)
      ensures connId == ConnIds.GenConnId(info.linkType, ToI32(fd))
    {
      connId := ConnIds.GenConnId(info.linkType, ToI32(fd));
      connections := connections[connId := Connection(connId, fd, info, isServer)];
      fdToConnId := fdToConnId[fd := connId];
      usedFds := usedFds + {fd};
      if isServer {
        serverConns := serverConns + {connId};
      }
    }

    method OnSocketDisconnected(fd: int) returns (lost: Maybe<u64>)
      modifies this`connections, this`fdToConnId
      ensures View() == Apply(old(View()), SocketDisconnected(fd))
      ensures lost == if fd in old(fdToConnId) then Just(old(fdToConnId)[fd]) else Nothing
      ensures ConnectionsAgree(old(View())) && lost.Just? ==> lost.value in old(connections)
      ensures old(Inv(View()) && Allowed(View(), SocketDisconnected(fd))) ==> Inv(View())
    {
      hide Inv, Allowed;
      Kept(View(), SocketDisconnected(fd));
      if fd !in fdToConnId { return Nothing; }
      var connId := fdToConnId[fd];
      connections := connections - {connId};
      fdToConnId := fdToConnId - {fd};
      return Just(connId);
    }

    method DisconnectAuthDevice(connId: u64)
      modifies this`connections, this`fdToConnId
      ensures View() == Apply(old(View()), DisconnectDevice(connId))
      ensures old(Inv(View()) && Allowed(View(), DisconnectDevice(connId))) ==> Inv(View())
    {
      hide Inv, Allowed;
      Kept(View(), DisconnectDevice(connId));
      if connId !in connections { return; }
      var fd := connections[connId].fd;
      connections := connections - {connId};
      fdToConnId := fdToConnId - {fd};
    }

    method GetAuthManagerByConnId(connId: u64) returns (manager: Maybe<Manager>)
      ensures manager == ByConnId(View(), connId)
    {
      if connId !in connIdToAuthId { return Nothing; }
      if connIdToAuthId[connId] !in managers { return Nothing; }
      return Just(managers[connIdToAuthId[connId]]);
    }
  }
}
