/**
Connections, pending requests and authentication managers as a system of atomic
steps, one for each section that the code runs under a lock. Between the sections
of one call any other step may happen.
*/
module Bookkeeping {
  import opened Bytes
  import opened Wrappers
  import opened ConnIds
  import Fds

  const LINK_WIFI: i32 := 1
  const MODULE_AUTH_SDK := 3
  const INITIAL_ID := 1000

  datatype Info = Info(linkType: i32, ip: string, port: int)
  datatype Connection = Connection(connId: u64, fd: int, info: Info, isServer: bool)
  datatype Request = Request(requestId: u32, info: Info, startTime: int)
  datatype Manager = Manager(authId: int, authSeq: int, connId: u64, info: Info, isServer: bool, requestId: u32)

  /**
  How far the call that opens a connection has come: its manager exists; its request is waiting for
  a socket; its request is withdrawn; its failure is reported, and the call is about to clean up; or
  its request was matched and the result is being reported.
  */
  datatype Phase = Opening | Dialing | Failing | Reported | Connecting(connId: u64)

  /**
  The maps and counters of the two services, and what the invariants need besides: the phase of each
  call, the manager that it created, and the descriptors and server connections seen so far.
  */
  datatype Sys = Sys(
    connections: map<u64, Connection>,
    fdToConnId: map<int, u64>,
    requests: map<u32, Request>,
    managers: map<int, Manager>,
    connIdToAuthId: map<u64, int>,
    authIdCounter: int,
    seqCounter: int,
    phases: map<u32, Phase>,
    usedFds: set<int>,
    serverConns: set<u64>,
    created: map<u32, int>)

  const EMPTY := Sys(map[], map[], map[], map[], map[], INITIAL_ID, INITIAL_ID, map[], {}, {}, map[])

  datatype Step =
    | BeginOpen(r: u32, info: Info)
    | AddRequest(r: u32, info: Info, time: int)
    | DialFailed(r: u32)
    | ReportFailure(r: u32, found: Maybe<int>)
    | OpenFailed(r: u32)
    | ClientConnected(fd: int, r: u32)
    | ReportSuccess(r: u32, found: Maybe<int>)
    | ServerConnected(fd: int, info: Info)
    | SocketDisconnected(fd: int)
    | ConnectionLost(connId: u64)
    | CloseManager(authId: int)
    | DisconnectDevice(connId: u64)
    | ServerData(connId: u64, moduleId: int, info: Info)

  /** A search of the managers for a request id, in whatever order the map is visited. */
  ghost predicate IsManagerFor(managers: map<int, Manager>, r: u32, found: Maybe<int>) {
    match found
    case Nothing => forall a | a in managers :: managers[a].requestId != r
    case Just(a) => a in managers && managers[a].requestId == r
  }

  ghost predicate IsOldest(requests: map<u32, Request>, r: u32) {
    r in requests && forall r' | r' in requests :: requests[r].startTime <= requests[r'].startTime
  }

  function AddConnection(s: Sys, fd: int, info: Info, isServer: bool): Sys {
    var c := GenConnId(info.linkType, ToI32(fd));
    s.(connections := s.connections[c := Connection(c, fd, info, isServer)],
       fdToConnId := s.fdToConnId[fd := c],
       usedFds := s.usedFds + {fd},
       serverConns := if isServer then s.serverConns + {c} else s.serverConns)
  }

  function RemoveConnection(s: Sys, c: u64): Sys {
    if c in s.connections then
      s.(connections := s.connections - {c}, fdToConnId := s.fdToConnId - {s.connections[c].fd})
    else s
  }

  function AddManager(s: Sys, connId: u64, info: Info, isServer: bool, r: u32): Sys {
    var a := s.authIdCounter + 1;
    s.(managers := s.managers[a := Manager(a, s.seqCounter + 1, connId, info, isServer, r)],
       authIdCounter := a, seqCounter := s.seqCounter + 1)
  }

  /** What a step does to the maps. */
  function Apply(s: Sys, step: Step): Sys {
    match step
    case BeginOpen(r, info) =>
      AddManager(s, 0, info, false, r).(
        phases := s.phases[r := Opening], created := s.created[r := s.authIdCounter + 1])
    case AddRequest(r, info, time) =>
      s.(requests := s.requests[r := Request(r, info, time)], phases := s.phases[r := Dialing])
    case DialFailed(r) =>
      s.(requests := s.requests - {r}, phases := s.phases[r := Failing])
    case ReportFailure(r, found) =>
      s.(managers := if found.Just? then s.managers - {found.value} else s.managers, phases := s.phases[r := Reported])
    case OpenFailed(r) =>
      s.(managers := if r in s.created then s.managers - {s.created[r]} else s.managers, phases := s.phases - {r})
    case ClientConnected(fd, r) =>
      if r !in s.requests then s
      else
        var info := s.requests[r].info;
        AddConnection(s, fd, info, false).(
          requests := s.requests - {r}, phases := s.phases[r := Connecting(GenConnId(info.linkType, ToI32(fd)))])
    case ReportSuccess(r, found) =>
      if r in s.phases && s.phases[r].Connecting? && found.Just? && found.value in s.managers then
        var c := s.phases[r].connId;
        s.(managers := s.managers[found.value := s.managers[found.value].(connId := c)],
           connIdToAuthId := s.connIdToAuthId[c := found.value], phases := s.phases - {r})
      else s.(phases := s.phases - {r})
    case ServerConnected(fd, info) =>
      AddConnection(s, fd, info.(linkType := LINK_WIFI), true)
    case SocketDisconnected(fd) =>
      if fd in s.fdToConnId then
        s.(connections := s.connections - {s.fdToConnId[fd]}, fdToConnId := s.fdToConnId - {fd})
      else s
    case ConnectionLost(c) =>
      if c in s.connIdToAuthId then
        s.(managers := s.managers - {s.connIdToAuthId[c]}, connIdToAuthId := s.connIdToAuthId - {c})
      else s
    case CloseManager(a) =>
      if a in s.managers then
        s.(managers := s.managers - {a}, connIdToAuthId := s.connIdToAuthId - {s.managers[a].connId})
      else s
    case DisconnectDevice(c) => RemoveConnection(s, c)
    case ServerData(c, moduleId, info) =>
      if c !in s.connIdToAuthId && moduleId == MODULE_AUTH_SDK then
        AddManager(s, c, info, true, 0).(connIdToAuthId := s.connIdToAuthId[c := s.authIdCounter + 1])
      else s
  }

  ghost predicate FreshFd(s: Sys, fd: int) {
    0 < fd < 0x8000_0000 && fd !in s.usedFds
  }

  /**
  What callers and the network owe, apart from descriptors: request ids in use are distinct and not
  zero, a failed dial still owns its request, and server data comes from a server connection. The
  rest says in which order the sections of one call run.
  */
  ghost predicate Orderly(s: Sys, step: Step) {
    match step
    case BeginOpen(r, _) => r != 0 && r !in s.phases && forall a | a in s.managers :: s.managers[a].requestId != r
    case AddRequest(r, _, _) => r in s.phases && s.phases[r].Opening?
    case DialFailed(r) => r in s.requests
    case ReportFailure(r, found) => r in s.phases && s.phases[r].Failing? && IsManagerFor(s.managers, r, found)
    case OpenFailed(r) => r in s.phases && (s.phases[r].Opening? || s.phases[r].Reported?)
    case ClientConnected(_, r) => s.requests == map[] || IsOldest(s.requests, r)
    case ReportSuccess(r, found) => r in s.phases && s.phases[r].Connecting? && IsManagerFor(s.managers, r, found)
    case ServerConnected(_, _) => true
    case SocketDisconnected(_) => true
    case ConnectionLost(_) => true
    case CloseManager(_) => true
    case DisconnectDevice(_) => true
    case ServerData(c, _, _) => c in s.serverConns
  }

  predicate Connects(step: Step) {
    step.ClientConnected? || step.ServerConnected?
  }

  /** Besides, descriptors are never reused. */
  ghost predicate Allowed(s: Sys, step: Step) {
    Orderly(s, step) && (Connects(step) ==> FreshFd(s, step.fd))
  }

  // ------------------------------------------------------------- invariants

  /** Connections and descriptors are mutual inverses. */
  ghost predicate ConnectionsAgree(s: Sys) {
    && (forall fd | fd in s.fdToConnId ::
          var c := s.fdToConnId[fd]; c in s.connections && s.connections[c].fd == fd && s.connections[c].connId == c)
    && (forall c | c in s.connections ::
          s.connections[c].fd in s.fdToConnId && s.fdToConnId[s.connections[c].fd] == c)
  }

  /** A mapped connection id leads to the manager with that id, and every manager with a connection is mapped. */
  ghost predicate ManagersAgree(s: Sys) {
    && (forall c | c in s.connIdToAuthId ::
          c != 0 && s.connIdToAuthId[c] in s.managers && s.managers[s.connIdToAuthId[c]].connId == c)
    && (forall a | a in s.managers && s.managers[a].connId != 0 ::
          s.managers[a].connId in s.connIdToAuthId && s.connIdToAuthId[s.managers[a].connId] == a)
  }

  ghost predicate AuthIdsFresh(s: Sys) {
    forall a | a in s.managers :: s.managers[a].authId == a <= s.authIdCounter
  }

  /** Client managers carry distinct request ids other than 0, server managers carry 0. */
  ghost predicate RequestIdsDistinct(s: Sys) {
    && (forall a | a in s.managers :: s.managers[a].isServer <==> s.managers[a].requestId == 0)
    && (forall a, b | a in s.managers && b in s.managers && a != b && !s.managers[a].isServer ::
          s.managers[a].requestId != s.managers[b].requestId)
  }

  /** The pending requests are those of the calls that wait for a socket. */
  ghost predicate RequestsDialing(s: Sys) {
    0 !in s.phases && forall r :: r in s.requests <==> r in s.phases && s.phases[r].Dialing?
  }

  /** The manager of a call has no connection before the call is over. */
  ghost predicate Unconnected(s: Sys) {
    forall a | a in s.managers && s.managers[a].requestId in s.phases :: s.managers[a].connId == 0
  }

  ghost predicate PhasesConsistent(s: Sys) {
    RequestsDialing(s) && Unconnected(s)
  }

  /** As long as a call is not over, no manager but its own can be found under the id of the manager it created. */
  ghost predicate CallsKnown(s: Sys) {
    forall r | r in s.phases ::
      && r in s.created && s.created[r] <= s.authIdCounter
      && (s.created[r] in s.managers ==> s.managers[s.created[r]].requestId == r)
  }

  ghost predicate Announced(s: Sys, c: u64) {
    c != 0 && c !in s.connIdToAuthId && c !in s.serverConns && GetFd(c) in s.usedFds
  }

  /** A matched connection is not taken by anyone else before its result is reported. */
  ghost predicate MatchesReserved(s: Sys) {
    && (forall r | r in s.phases && s.phases[r].Connecting? :: Announced(s, s.phases[r].connId))
    && (forall r, r' | r in s.phases && r' in s.phases && r != r'
                       && s.phases[r].Connecting? && s.phases[r'].Connecting? ::
          s.phases[r].connId != s.phases[r'].connId)
  }

  ghost predicate KnownId(s: Sys, c: u64) {
    c != 0 && GetFd(c) in s.usedFds
  }

  ghost predicate FdsKnown(s: Sys) {
    && (forall fd | fd in s.usedFds :: 0 < fd < 0x8000_0000)
    && (forall c | c in s.connections :: KnownId(s, c) && GetFd(c) == s.connections[c].fd)
    && (forall c | c in s.connIdToAuthId :: KnownId(s, c))
    && (forall c | c in s.serverConns :: KnownId(s, c))
  }

  ghost predicate Inv(s: Sys) {
    && ConnectionsAgree(s) && ManagersAgree(s) && AuthIdsFresh(s) && RequestIdsDistinct(s)
    && PhasesConsistent(s) && MatchesReserved(s) && FdsKnown(s) && CallsKnown(s)
  }

  ghost predicate IsNewId(s: Sys, fd: int, c: u64) {
    && GetFd(c) == fd && c != 0
    && c !in s.connections && c !in s.connIdToAuthId && c !in s.serverConns && fd !in s.fdToConnId
    && (forall r | r in s.phases && s.phases[r].Connecting? && Announced(s, s.phases[r].connId) ::
          s.phases[r].connId != c)
  }

  lemma FreshConnId(s: Sys, fd: int, linkType: i32)
    requires FdsKnown(s) && ConnectionsAgree(s) && FreshFd(s, fd)
    ensures IsNewId(s, fd, GenConnId(linkType, ToI32(fd)))
  {
    var c := GenConnId(linkType, ToI32(fd));
    ReadBack(linkType, ToI32(fd));
    assert ToI32(fd) == fd;
    assert GetFd(0) == 0;
    hide GenConnId, GetFd, ToI32;
    assert !KnownId(s, c);
  }

  // -------------------------------------------- what a step leaves unchanged

  /** Steps of a call that opens a connection. */
  predicate Advances(step: Step) {
    || step.BeginOpen? || step.AddRequest? || step.DialFailed? || step.ReportFailure? || step.OpenFailed?
    || step.ClientConnected? || step.ReportSuccess?
  }

  lemma CallsFrame(s: Sys, step: Step)
    requires !Advances(step)
    ensures var t := Apply(s, step); t.phases == s.phases && t.requests == s.requests && t.created == s.created
  {
    hide GenConnId, ToI32;
  }

  lemma HistoryFrame(s: Sys, step: Step)
    requires !Connects(step)
    ensures var t := Apply(s, step); t.usedFds == s.usedFds && t.serverConns == s.serverConns
  {
    hide GenConnId, ToI32;
  }

  lemma ConnectionsFrame(s: Sys, step: Step)
    requires !Connects(step)
    ensures var t := Apply(s, step);
            forall c | c in t.connections :: c in s.connections && t.connections[c] == s.connections[c]
  {
    hide GenConnId, ToI32;
  }

  lemma MappingFrame(s: Sys, step: Step)
    ensures forall c | c in Apply(s, step).connIdToAuthId ::
              || c in s.connIdToAuthId || (step.ServerData? && c == step.connId)
              || (step.ReportSuccess? && step.r in s.phases && s.phases[step.r] == Connecting(c))
  {
    hide GenConnId, ToI32;
  }

  /** No step but those two creates a manager, and none changes the ids and the side of one. */
  lemma ManagersFrame(s: Sys, step: Step)
    requires !step.BeginOpen? && !step.ServerData?
    ensures var t := Apply(s, step);
            && t.authIdCounter == s.authIdCounter
            && forall a | a in t.managers ::
                 && a in s.managers && t.managers[a].authId == s.managers[a].authId
                 && t.managers[a].isServer == s.managers[a].isServer
                 && t.managers[a].requestId == s.managers[a].requestId
  {
    hide GenConnId, ToI32;
  }

  lemma ConnIdsFrame(s: Sys, step: Step)
    ensures var t := Apply(s, step);
            forall a | a in t.managers && a in s.managers && t.managers[a].connId != s.managers[a].connId ::
              || (step.ReportSuccess? && step.found == Just(a))
              || ((step.BeginOpen? || step.ServerData?) && a == s.authIdCounter + 1)
  {
    hide GenConnId, ToI32;
  }

  /** For a step that adds a connection: its id is new to every map. */
  lemma NewConnection(s: Sys, step: Step)
    requires FdsKnown(s) && ConnectionsAgree(s) && Allowed(s, step)
    ensures step.ServerConnected? ==> IsNewId(s, step.fd, GenConnId(LINK_WIFI, ToI32(step.fd)))
    ensures step.ClientConnected? && step.r in s.requests ==>
              IsNewId(s, step.fd, GenConnId(s.requests[step.r].info.linkType, ToI32(step.fd)))
  {
    hide GenConnId, GetFd, ToI32, FdsKnown, ConnectionsAgree, IsNewId;
    if step.ServerConnected? {
      FreshConnId(s, step.fd, LINK_WIFI);
    } else if step.ClientConnected? && step.r in s.requests {
      FreshConnId(s, step.fd, s.requests[step.r].info.linkType);
    }
  }

  /**
  A new connection, whatever its descriptor, keeps the two maps inverse exactly if neither the
  descriptor nor the id belongs to another connection.
  */
  lemma AddConnectionExact(s: Sys, fd: int, info: Info, isServer: bool)
    requires ConnectionsAgree(s)
    ensures var c := GenConnId(info.linkType, ToI32(fd));
            ConnectionsAgree(AddConnection(s, fd, info, isServer))
            <==> (fd in s.fdToConnId ==> s.fdToConnId[fd] == c) && (c in s.connections ==> s.connections[c].fd == fd)
  {
    var c := GenConnId(info.linkType, ToI32(fd));
    var t := AddConnection(s, fd, info, isServer);
    hide GenConnId, ToI32;
    if fd in s.fdToConnId && s.fdToConnId[fd] != c {
      assert s.fdToConnId[fd] in t.connections && t.connections[s.fdToConnId[fd]].fd == fd;
    }
    if c in s.connections && s.connections[c].fd != fd {
      assert s.connections[c].fd in t.fdToConnId;
    }
  }

  lemma SameConnections(s: Sys, t: Sys)
    requires t.connections == s.connections && t.fdToConnId == s.fdToConnId
    ensures ConnectionsAgree(t) == ConnectionsAgree(s)
  {}

  lemma ConnectionsKeptByRemoval(s: Sys, step: Step)
    requires ConnectionsAgree(s) && (step.SocketDisconnected? || step.DisconnectDevice?)
    ensures ConnectionsAgree(Apply(s, step))
  {}

  lemma ConnectionsKept(s: Sys, step: Step)
    requires ConnectionsAgree(s) && FdsKnown(s) && Allowed(s, step)
    ensures ConnectionsAgree(Apply(s, step))
  {
    hide GenConnId, GetFd, ToI32, ConnectionsAgree, FdsKnown, Orderly;
    NewConnection(s, step);
    if step.ServerConnected? {
      AddConnectionExact(s, step.fd, step.info.(linkType := LINK_WIFI), true);
    } else if step.ClientConnected? && step.r in s.requests {
      AddConnectionExact(s, step.fd, s.requests[step.r].info, false);
      SameConnections(AddConnection(s, step.fd, s.requests[step.r].info, false), Apply(s, step));
    } else if step.SocketDisconnected? || step.DisconnectDevice? {
      ConnectionsKeptByRemoval(s, step);
    } else {
      SameConnections(s, Apply(s, step));
    }
  }

  lemma ManagersKeptByReport(s: Sys, step: Step)
    requires ManagersAgree(s) && PhasesConsistent(s) && MatchesReserved(s)
    requires Allowed(s, step) && (step.ReportSuccess? || step.ReportFailure?)
    ensures ManagersAgree(Apply(s, step))
  {
    hide GetFd;
    if step.found.Just? {
      assert s.managers[step.found.value].connId == 0;
      assert step.ReportSuccess? ==> Announced(s, s.phases[step.r].connId);
      hide PhasesConsistent, MatchesReserved, ManagersAgree;
      if step.ReportSuccess? {
        SuccessReportExact(s, step.r, step.found.value);
      } else {
        FailureReportExact(s, step.r, step.found.value);
      }
    } else {
      hide ManagersAgree;
      SameManagers(s, Apply(s, step));
    }
  }

  lemma ManagersKeptByRemoval(s: Sys, step: Step)
    requires ManagersAgree(s) && (step.ConnectionLost? || step.CloseManager?)
    ensures ManagersAgree(Apply(s, step))
  {}

  lemma ManagersKeptByCleanUp(s: Sys, r: u32)
    requires ManagersAgree(s) && PhasesConsistent(s) && CallsKnown(s) && Allowed(s, OpenFailed(r))
    ensures ManagersAgree(Apply(s, OpenFailed(r)))
  {
    assert s.created[r] in s.managers ==> s.managers[s.created[r]].connId == 0;
    hide ManagersAgree, PhasesConsistent, CallsKnown;
    OpenFailedExact(s, r);
  }

  lemma ManagersKeptByAddition(s: Sys, step: Step)
    requires ManagersAgree(s) && AuthIdsFresh(s) && FdsKnown(s)
    requires Allowed(s, step) && (step.BeginOpen? || step.ServerData?)
    ensures ManagersAgree(Apply(s, step))
  {
    hide GetFd;
    assert s.authIdCounter + 1 !in s.managers;
  }

  lemma ManagersKept(s: Sys, step: Step)
    requires ManagersAgree(s) && AuthIdsFresh(s) && PhasesConsistent(s) && MatchesReserved(s) && FdsKnown(s)
    requires CallsKnown(s) && Allowed(s, step)
    ensures ManagersAgree(Apply(s, step))
  {
    if step.ReportSuccess? || step.ReportFailure? {
      ManagersKeptByReport(s, step);
    } else if step.ConnectionLost? || step.CloseManager? {
      ManagersKeptByRemoval(s, step);
    } else if step.OpenFailed? {
      ManagersKeptByCleanUp(s, step.r);
    } else if step.BeginOpen? || step.ServerData? {
      ManagersKeptByAddition(s, step);
    } else {
      hide ManagersAgree, GenConnId, GetFd, ToI32, Allowed;
      var t := Apply(s, step);
      assert t.managers == s.managers && t.connIdToAuthId == s.connIdToAuthId;
      SameManagers(s, t);
    }
  }

  lemma SameManagers(s: Sys, t: Sys)
    requires t.managers == s.managers && t.connIdToAuthId == s.connIdToAuthId
    ensures ManagersAgree(t) == ManagersAgree(s)
    ensures t.authIdCounter == s.authIdCounter ==> AuthIdsFresh(t) == AuthIdsFresh(s)
    ensures RequestIdsDistinct(t) == RequestIdsDistinct(s)
  {}

  lemma SameIds(s: Sys, t: Sys)
    requires t.managers == s.managers && t.authIdCounter == s.authIdCounter
    ensures AuthIdsFresh(t) == AuthIdsFresh(s) && RequestIdsDistinct(t) == RequestIdsDistinct(s)
  {}

  lemma IdsKeptByAddition(s: Sys, connId: u64, info: Info, isServer: bool, r: u32)
    requires AuthIdsFresh(s) && RequestIdsDistinct(s) && (isServer <==> r == 0)
    requires r != 0 ==> forall a | a in s.managers :: s.managers[a].requestId != r
    ensures var t := AddManager(s, connId, info, isServer, r); AuthIdsFresh(t) && RequestIdsDistinct(t)
  {
    assert s.authIdCounter + 1 !in s.managers;
  }

  lemma IdsOfPart(s: Sys, t: Sys)
    requires AuthIdsFresh(s) && RequestIdsDistinct(s) && t.authIdCounter == s.authIdCounter
    requires forall a | a in t.managers ::
               && a in s.managers && t.managers[a].authId == s.managers[a].authId
               && t.managers[a].isServer == s.managers[a].isServer && t.managers[a].requestId == s.managers[a].requestId
    ensures AuthIdsFresh(t) && RequestIdsDistinct(t)
  {}

  lemma IdsKept(s: Sys, step: Step)
    requires AuthIdsFresh(s) && RequestIdsDistinct(s) && Allowed(s, step)
    ensures AuthIdsFresh(Apply(s, step)) && RequestIdsDistinct(Apply(s, step))
  {
    hide AuthIdsFresh, RequestIdsDistinct;
    if step.BeginOpen? {
      IdsKeptByAddition(s, 0, step.info, false, step.r);
      SameIds(AddManager(s, 0, step.info, false, step.r), Apply(s, step));
    } else if step.ServerData? {
      IdsKeptByAddition(s, step.connId, step.info, true, 0);
      var t := if Apply(s, step) == s then s else AddManager(s, step.connId, step.info, true, 0);
      SameIds(t, Apply(s, step));
    } else {
      ManagersFrame(s, step);
      hide Apply, Allowed;
      IdsOfPart(s, Apply(s, step));
    }
  }

  lemma PhasesOfPart(s: Sys, t: Sys)
    requires PhasesConsistent(s) && t.phases == s.phases && t.requests == s.requests
    requires forall a | a in t.managers && t.managers[a].requestId in t.phases ::
               && a in s.managers && t.managers[a].requestId == s.managers[a].requestId
               && t.managers[a].connId == s.managers[a].connId
    ensures PhasesConsistent(t)
  {}

  lemma RequestsKept(s: Sys, step: Step)
    requires RequestsDialing(s) && Allowed(s, step) && Advances(step)
    ensures RequestsDialing(Apply(s, step))
  {
    hide GenConnId, ToI32, FreshFd, IsManagerFor;
  }

  lemma UnconnectedKept(s: Sys, step: Step)
    requires PhasesConsistent(s) && RequestIdsDistinct(s) && Allowed(s, step) && Advances(step)
    ensures Unconnected(Apply(s, step))
  {
    hide GenConnId, ToI32, FreshFd;
    if !step.BeginOpen? {
      ManagersFrame(s, step);
      ConnIdsFrame(s, step);
    }
  }

  lemma PhasesKeptByCall(s: Sys, step: Step)
    requires PhasesConsistent(s) && RequestIdsDistinct(s) && Allowed(s, step) && Advances(step)
    ensures PhasesConsistent(Apply(s, step))
  {
    RequestsKept(s, step);
    UnconnectedKept(s, step);
    hide RequestsDialing, Unconnected, Apply, Allowed;
  }

  lemma PhasesKept(s: Sys, step: Step)
    requires PhasesConsistent(s) && RequestIdsDistinct(s) && Allowed(s, step)
    ensures PhasesConsistent(Apply(s, step))
  {
    if Advances(step) {
      PhasesKeptByCall(s, step);
    } else {
      CallsFrame(s, step);
      if step.ServerData? {
        hide Allowed;
      } else {
        ManagersFrame(s, step);
        ConnIdsFrame(s, step);
        hide Apply, Allowed, RequestIdsDistinct, PhasesConsistent;
        PhasesOfPart(s, Apply(s, step));
      }
    }
  }

  lemma MatchesKeptByConnection(s: Sys, step: Step)
    requires MatchesReserved(s) && PhasesConsistent(s) && FdsKnown(s) && ConnectionsAgree(s) && Allowed(s, step)
    requires step.ClientConnected? || step.ServerConnected?
    ensures MatchesReserved(Apply(s, step))
  {
    hide GenConnId, GetFd, ToI32;
    NewConnection(s, step);
    hide FdsKnown, ConnectionsAgree;
  }

  lemma MatchesKept(s: Sys, step: Step)
    requires MatchesReserved(s) && PhasesConsistent(s) && FdsKnown(s) && ConnectionsAgree(s) && Allowed(s, step)
    ensures MatchesReserved(Apply(s, step))
  {
    if Connects(step) {
      MatchesKeptByConnection(s, step);
    } else {
      HistoryFrame(s, step);
      MappingFrame(s, step);
      if Advances(step) {
        MatchesKeptByCall(s, step);
      } else {
        CallsFrame(s, step);
        assert step.ServerData? ==> step.connId in s.serverConns;
        hide Apply, Allowed, GetFd, PhasesConsistent, FdsKnown, ConnectionsAgree;
      }
    }
  }

  lemma MatchesKeptByCall(s: Sys, step: Step)
    requires MatchesReserved(s) && Allowed(s, step) && Advances(step) && !Connects(step)
    ensures MatchesReserved(Apply(s, step))
  {
    hide GetFd;
  }

  lemma FdsKeptByConnection(s: Sys, fd: int, info: Info, isServer: bool)
    requires FdsKnown(s) && FreshFd(s, fd) && IsNewId(s, fd, GenConnId(info.linkType, ToI32(fd)))
    ensures FdsKnown(AddConnection(s, fd, info, isServer))
  {
    hide GenConnId, GetFd, ToI32;
  }

  lemma FdsOfPart(s: Sys, t: Sys)
    requires FdsKnown(s) && t.usedFds == s.usedFds && t.serverConns == s.serverConns
    requires forall c | c in t.connections :: c in s.connections && t.connections[c] == s.connections[c]
    requires forall c | c in t.connIdToAuthId :: c in s.connIdToAuthId || KnownId(s, c)
    ensures FdsKnown(t)
  {
    hide GetFd;
  }

  lemma KnownReports(s: Sys, step: Step)
    requires FdsKnown(s) && MatchesReserved(s) && Allowed(s, step)
    ensures step.ReportSuccess? ==> KnownId(s, s.phases[step.r].connId)
    ensures step.ServerData? ==> KnownId(s, step.connId)
  {
    hide GetFd;
  }

  lemma FdsKeptByStep(s: Sys, step: Step)
    requires FdsKnown(s) && ConnectionsAgree(s) && Allowed(s, step) && (step.ClientConnected? || step.ServerConnected?)
    ensures FdsKnown(Apply(s, step))
  {
    hide GenConnId, GetFd, ToI32, IsNewId;
    NewConnection(s, step);
    hide FdsKnown, ConnectionsAgree;
    if step.ServerConnected? {
      FdsKeptByConnection(s, step.fd, step.info.(linkType := LINK_WIFI), true);
    } else if step.r in s.requests {
      var info := s.requests[step.r].info;
      FdsKeptByConnection(s, step.fd, info, false);
      FdsOfPart(AddConnection(s, step.fd, info, false), Apply(s, step));
    }
  }

  lemma FdsKept(s: Sys, step: Step)
    requires FdsKnown(s) && MatchesReserved(s) && ConnectionsAgree(s) && Allowed(s, step)
    ensures FdsKnown(Apply(s, step))
  {
    hide GenConnId, GetFd, ToI32;
    if step.ClientConnected? || step.ServerConnected? {
      FdsKeptByStep(s, step);
    } else {
      KnownReports(s, step);
      HistoryFrame(s, step);
      ConnectionsFrame(s, step);
      MappingFrame(s, step);
      assert step.ReportSuccess? ==> step.r in s.phases && s.phases[step.r].Connecting?;
      hide Apply, FdsKnown, MatchesReserved, ConnectionsAgree, Allowed;
      FdsOfPart(s, Apply(s, step));
    }
  }

  lemma CallsOfPart(s: Sys, t: Sys)
    requires CallsKnown(s) && t.phases.Keys <= s.phases.Keys && t.created == s.created
    requires t.authIdCounter == s.authIdCounter
    requires forall a | a in t.managers :: a in s.managers && t.managers[a].requestId == s.managers[a].requestId
    ensures CallsKnown(t)
  {}

  lemma CallsKeptByCreation(s: Sys, step: Step)
    requires CallsKnown(s) && AuthIdsFresh(s) && (step.BeginOpen? || step.ServerData?)
    ensures CallsKnown(Apply(s, step))
  {
    assert s.authIdCounter + 1 !in s.managers;
    hide AuthIdsFresh;
  }

  /** Only the start of a call brings its request id into the phases. */
  lemma PhaseKeys(s: Sys, step: Step)
    requires RequestsDialing(s) && Orderly(s, step) && !step.BeginOpen?
    ensures var t := Apply(s, step); t.phases.Keys <= s.phases.Keys && t.created == s.created
  {
    hide GenConnId, ToI32, IsManagerFor, IsOldest;
    if !Advances(step) {
      CallsFrame(s, step);
      hide Apply, Orderly;
    }
  }

  lemma CallsKept(s: Sys, step: Step)
    requires CallsKnown(s) && AuthIdsFresh(s) && PhasesConsistent(s) && Allowed(s, step)
    ensures CallsKnown(Apply(s, step))
  {
    if step.BeginOpen? || step.ServerData? {
      CallsKeptByCreation(s, step);
    } else {
      PhaseKeys(s, step);
      ManagersFrame(s, step);
      hide Apply, Allowed, CallsKnown, AuthIdsFresh, PhasesConsistent;
      CallsOfPart(s, Apply(s, step));
    }
  }

  lemma StepKeepsInv(s: Sys, step: Step)
    requires Inv(s) && Allowed(s, step)
    ensures Inv(Apply(s, step))
  {
    hide Apply, Allowed, ConnectionsAgree, ManagersAgree, AuthIdsFresh, RequestIdsDistinct, PhasesConsistent,
         MatchesReserved, FdsKnown, CallsKnown;
    CallsKept(s, step);
    ConnectionsKept(s, step);
    ManagersKept(s, step);
    IdsKept(s, step);
    PhasesKept(s, step);
    MatchesKept(s, step);
    FdsKept(s, step);
  }

  // ------------------------------------------------------------------- runs

  ghost predicate IsRun(s: Sys, steps: seq<Step>)
    decreases steps
  {
    steps != [] ==> Allowed(s, steps[0]) && IsRun(Apply(s, steps[0]), steps[1..])
  }

  function RunOf(s: Sys, steps: seq<Step>): Sys
    decreases steps
  {
    if steps == [] then s else RunOf(Apply(s, steps[0]), steps[1..])
  }

  lemma {:induction false} RunKeepsInv(s: Sys, steps: seq<Step>)
    requires Inv(s) && IsRun(s, steps)
    ensures Inv(RunOf(s, steps))
    decreases steps
  {
    hide Inv, Apply, Allowed;
    if steps != [] {
      StepKeepsInv(s, steps[0]);
      RunKeepsInv(Apply(s, steps[0]), steps[1..]);
    }
  }

  /** The manager that a lookup by connection id finds. */
  function ByConnId(s: Sys, c: u64): Maybe<Manager> {
    if c in s.connIdToAuthId && s.connIdToAuthId[c] in s.managers then Just(s.managers[s.connIdToAuthId[c]])
    else Nothing
  }

  /**
  In every reachable state: the two connection maps are mutual inverses, and a lookup by connection
  id finds a manager exactly when one has that id, and finds that one.
  */
  lemma ReachableMapsAgree(steps: seq<Step>, c: u64, m: Manager)
    requires IsRun(EMPTY, steps) && c != 0
    ensures var s := RunOf(EMPTY, steps);
            && ConnectionsAgree(s) && ManagersAgree(s)
            && (ByConnId(s, c) == Just(m) <==> m.authId in s.managers && s.managers[m.authId] == m && m.connId == c)
  {
    assert Inv(EMPTY);
    RunKeepsInv(EMPTY, steps);
    hide IsRun, RunOf;
    LookupExact(RunOf(EMPTY, steps), c, m);
  }

  lemma LookupExact(s: Sys, c: u64, m: Manager)
    requires ManagersAgree(s) && AuthIdsFresh(s) && c != 0
    ensures ByConnId(s, c) == Just(m) <==> m.authId in s.managers && s.managers[m.authId] == m && m.connId == c
  {
    if c in s.connIdToAuthId {
      var a := s.connIdToAuthId[c];
      assert a in s.managers && s.managers[a].authId == a && s.managers[a].connId == c;
    }
  }

  /** A manager that has a connection keeps it until it is removed, and its id is not given to another one. */
  lemma ConnectionKept(s: Sys, step: Step, a: int, c: u64)
    requires Inv(s) && Allowed(s, step) && c != 0
    requires a <= s.authIdCounter && (a in s.managers ==> s.managers[a].connId == c)
    ensures var t := Apply(s, step); a <= t.authIdCounter && (a in t.managers ==> t.managers[a].connId == c)
  {
    hide GenConnId, ToI32, ManagersAgree, ConnectionsAgree, FdsKnown, MatchesReserved, CallsKnown, FreshFd;
    ConnIdsFrame(s, step);
    if !step.BeginOpen? && !step.ServerData? {
      ManagersFrame(s, step);
    }
  }

  /**
  Between the two sections in which data is received anything may happen: the manager that is then
  found under the authentication id of a connection, if any is, still has that connection.
  */
  lemma {:induction false} DataStaysWithConnection(s: Sys, steps: seq<Step>, a: int, c: u64)
    requires Inv(s) && IsRun(s, steps) && c != 0
    requires a <= s.authIdCounter && (a in s.managers ==> s.managers[a].connId == c)
    ensures a in RunOf(s, steps).managers ==> RunOf(s, steps).managers[a].connId == c
    decreases steps
  {
    hide Inv, Apply, Allowed;
    if steps != [] {
      StepKeepsInv(s, steps[0]);
      ConnectionKept(s, steps[0], a, c);
      DataStaysWithConnection(Apply(s, steps[0]), steps[1..], a, c);
    }
  }

  // --------------------------------------- what the assumptions are needed for

  /** Reporting a failed dial keeps the maps in agreement exactly when the manager found is not connected. */
  lemma FailureReportExact(s: Sys, r: u32, a: int)
    requires ManagersAgree(s) && IsManagerFor(s.managers, r, Just(a))
    ensures ManagersAgree(Apply(s, ReportFailure(r, Just(a)))) <==> s.managers[a].connId == 0
  {
    var t := Apply(s, ReportFailure(r, Just(a)));
    if s.managers[a].connId != 0 {
      assert s.managers[a].connId in t.connIdToAuthId;
    }
  }

  /** So does the clean-up after a failed call, for the manager that the call created, if it is still there. */
  lemma OpenFailedExact(s: Sys, r: u32)
    requires ManagersAgree(s)
    ensures ManagersAgree(Apply(s, OpenFailed(r)))
       <==> (r in s.created && s.created[r] in s.managers ==> s.managers[s.created[r]].connId == 0)
  {
    var t := Apply(s, OpenFailed(r));
    if r in s.created && s.created[r] in s.managers {
      var a := s.created[r];
      assert t.managers == s.managers - {a} && t.connIdToAuthId == s.connIdToAuthId;
      if s.managers[a].connId != 0 {
        assert s.managers[a].connId in t.connIdToAuthId && t.connIdToAuthId[s.managers[a].connId] == a;
      }
    }
  }

  /** Reporting a connection keeps them in agreement exactly when the manager found has none yet. */
  lemma SuccessReportExact(s: Sys, r: u32, a: int)
    requires ManagersAgree(s) && IsManagerFor(s.managers, r, Just(a))
    requires r in s.phases && s.phases[r].Connecting? && Announced(s, s.phases[r].connId)
    ensures ManagersAgree(Apply(s, ReportSuccess(r, Just(a)))) <==> s.managers[a].connId == 0
  {
    hide GetFd;
    var t := Apply(s, ReportSuccess(r, Just(a)));
    if s.managers[a].connId != 0 {
      assert s.managers[a].connId in t.connIdToAuthId;
    }
  }

  lemma Unroll(s: Sys, step: Step, rest: seq<Step>)
    ensures IsRun(s, [step] + rest) <==> Allowed(s, step) && IsRun(Apply(s, step), rest)
    ensures RunOf(s, [step] + rest) == RunOf(Apply(s, step), rest)
  {
    assert ([step] + rest)[1..] == rest;
  }

  lemma {:induction false} RunConcat(s: Sys, first: seq<Step>, second: seq<Step>)
    requires IsRun(s, first)
    ensures RunOf(s, first + second) == RunOf(RunOf(s, first), second)
    ensures IsRun(s, first + second) <==> IsRun(RunOf(s, first), second)
    decreases first
  {
    hide Apply, Allowed;
    if first == [] {
      assert first + second == second;
    } else {
      RunConcat(Apply(s, first[0]), first[1..], second);
      assert first + second == [first[0]] + (first[1..] + second);
      Unroll(s, first[0], first[1..] + second);
    }
  }

  /** The state after both locked sections that open a connection. */
  function Opened(s: Sys, r: u32, info: Info, time: int): Sys {
    AddManager(s, 0, info, false, r).(
      requests := s.requests[r := Request(r, info, time)], phases := s.phases[r := Dialing],
      created := s.created[r := s.authIdCounter + 1])
  }

  lemma TwoSteps(s: Sys, a1: Step, a2: Step)
    requires Allowed(s, a1) && Allowed(Apply(s, a1), a2)
    ensures IsRun(s, [a1, a2]) && RunOf(s, [a1, a2]) == Apply(Apply(s, a1), a2)
  {
    hide Apply, Allowed;
    Unroll(s, a1, [a2]);
    Unroll(Apply(s, a1), a2, []);
    assert [a1] + [a2] == [a1, a2] && [a2] + [] == [a2];
  }

  lemma OpeningRun(s: Sys, r: u32, info: Info, time: int)
    requires Allowed(s, BeginOpen(r, info))
    ensures var steps := [BeginOpen(r, info), AddRequest(r, info, time)];
            IsRun(s, steps) && RunOf(s, steps) == Opened(s, r, info, time)
  {
    var a1, a2 := BeginOpen(r, info), AddRequest(r, info, time);
    assert Allowed(Apply(s, a1), a2);
    assert s.phases[r := Opening][r := Dialing] == s.phases[r := Dialing];
    assert Apply(Apply(s, a1), a2) == Opened(s, r, info, time);
    TwoSteps(s, a1, a2);
  }

  /** Two managers are open, and their requests are waiting, the first one longer. */
  lemma AfterOpening(info: Info) returns (s: Sys, steps: seq<Step>)
    ensures IsRun(EMPTY, steps) && RunOf(EMPTY, steps) == s && s == Opened(Opened(EMPTY, 1, info, 0), 2, info, 1)
  {
    var s1 := Opened(EMPTY, 1, info, 0);
    s := Opened(s1, 2, info, 1);
    assert Allowed(EMPTY, BeginOpen(1, info)) && Allowed(s1, BeginOpen(2, info));
    hide Apply, Allowed, Opened;
    OpeningRun(EMPTY, 1, info, 0);
    OpeningRun(s1, 2, info, 1);
    var first, second := [BeginOpen(1, info), AddRequest(1, info, 0)], [BeginOpen(2, info), AddRequest(2, info, 1)];
    steps := first + second;
    RunConcat(EMPTY, first, second);
  }

  /** The state after a socket was matched to request r and its connection reported to manager a. */
  function Matched(s: Sys, fd: int, r: u32, a: int): Sys
    requires r in s.requests && a in s.managers
  {
    var info := s.requests[r].info;
    var c := GenConnId(info.linkType, ToI32(fd));
    AddConnection(s, fd, info, false).(
      requests := s.requests - {r}, managers := s.managers[a := s.managers[a].(connId := c)],
      connIdToAuthId := s.connIdToAuthId[c := a], phases := s.phases[r := Connecting(c)] - {r})
  }

  lemma MatchedRun(s: Sys, fd: int, r: u32, a: int)
    requires FreshFd(s, fd) && IsOldest(s.requests, r) && IsManagerFor(s.managers, r, Just(a))
    ensures var steps := [ClientConnected(fd, r), ReportSuccess(r, Just(a))];
            IsRun(s, steps) && RunOf(s, steps) == Matched(s, fd, r, a)
  {
    hide GenConnId, ToI32, FreshFd;
    var a1, a2 := ClientConnected(fd, r), ReportSuccess(r, Just(a));
    assert Allowed(s, a1) && Allowed(Apply(s, a1), a2);
    assert Apply(Apply(s, a1), a2) == Matched(s, fd, r, a);
    TwoSteps(s, a1, a2);
  }

  lemma MatchedHasConnection(s: Sys, fd: int, r: u32, a: int)
    requires FdsKnown(s) && ConnectionsAgree(s) && FreshFd(s, fd)
    requires r in s.requests && IsManagerFor(s.managers, r, Just(a))
    ensures IsManagerFor(Matched(s, fd, r, a).managers, r, Just(a)) && Matched(s, fd, r, a).managers[a].connId != 0
    ensures r !in Matched(s, fd, r, a).requests
  {
    FreshConnId(s, fd, s.requests[r].info.linkType);
    hide GenConnId, ToI32, FdsKnown, ConnectionsAgree;
  }

  /**
  Two dials at once: the socket of the second is matched to the older request of the first, which
  is then reported as connected; when the first dial fails after that, a mapped connection is left
  without a manager.
  */
  lemma StolenRequest(info: Info) returns (s: Sys, steps: seq<Step>)
    ensures IsRun(EMPTY, steps) && s == RunOf(EMPTY, steps) && !Allowed(s, DialFailed(1))
    ensures IsManagerFor(s.managers, 1, Just(1001))
    ensures !ManagersAgree(Apply(Apply(s, DialFailed(1)), ReportFailure(1, Just(1001))))
  {
    var s2, opening := AfterOpening(info);
    assert IsOldest(s2.requests, 1) && IsManagerFor(s2.managers, 1, Just(1001)) && FreshFd(s2, 2000);
    s, steps := ThenMatched(s2, opening, 2000, 1, 1001);
    LateFailure(s);
  }

  /** A reachable state, one match further. */
  lemma ThenMatched(s0: Sys, before: seq<Step>, fd: int, r: u32, a: int) returns (s: Sys, steps: seq<Step>)
    requires IsRun(EMPTY, before) && s0 == RunOf(EMPTY, before)
    requires FreshFd(s0, fd) && IsOldest(s0.requests, r) && IsManagerFor(s0.managers, r, Just(a))
    ensures IsRun(EMPTY, steps) && s == RunOf(EMPTY, steps) && Inv(s) && s == Matched(s0, fd, r, a)
    ensures IsManagerFor(s.managers, r, Just(a)) && s.managers[a].connId != 0 && r !in s.requests
  {
    EmptyInv();
    RunKeepsInv(EMPTY, before);
    MatchedHasConnection(s0, fd, r, a);
    MatchedRun(s0, fd, r, a);
    hide Inv, FreshFd, IsOldest, IsManagerFor, Matched;
    var matching := [ClientConnected(fd, r), ReportSuccess(r, Just(a))];
    RunConcat(EMPTY, before, matching);
    steps := before + matching;
    s := RunOf(EMPTY, steps);
    RunKeepsInv(EMPTY, steps);
  }

  lemma EmptyInv()
    ensures Inv(EMPTY)
  {}

  lemma LateFailure(s: Sys)
    requires ManagersAgree(s) && IsManagerFor(s.managers, 1, Just(1001)) && s.managers[1001].connId != 0
    ensures !ManagersAgree(Apply(Apply(s, DialFailed(1)), ReportFailure(1, Just(1001))))
  {
    hide GenConnId, GetFd, ToI32;
    var failed := Apply(s, DialFailed(1));
    SameManagers(s, failed);
    FailureReportExact(failed, 1, 1001);
  }

  /** One manager is open and connected. */
  lemma AfterConnecting(info: Info) returns (s: Sys, steps: seq<Step>)
    ensures IsRun(EMPTY, steps) && s == RunOf(EMPTY, steps) && Inv(s)
    ensures s == Matched(Opened(EMPTY, 1, info, 0), 2000, 1, 1001)
    ensures IsManagerFor(s.managers, 1, Just(1001)) && s.managers[1001].connId != 0
  {
    var s1 := Opened(EMPTY, 1, info, 0);
    assert Allowed(EMPTY, BeginOpen(1, info));
    assert IsOldest(s1.requests, 1) && IsManagerFor(s1.managers, 1, Just(1001)) && FreshFd(s1, 2000);
    OpeningRun(EMPTY, 1, info, 0);
    s, steps := ThenMatched(s1, [BeginOpen(1, info), AddRequest(1, info, 0)], 2000, 1, 1001);
  }

  /**
  A request id is used again while its first manager is connected: the search for the second result
  may find the first manager, whose old connection id stays mapped to it.
  */
  lemma ReusedRequest(info: Info) returns (s: Sys, steps: seq<Step>)
    ensures IsRun(EMPTY, steps) && s == RunOf(EMPTY, steps) && !Allowed(s, BeginOpen(1, info))
    ensures var t := Apply(Opened(s, 1, info, 1), ClientConnected(2001, 1));
            && IsManagerFor(t.managers, 1, Just(1001)) && !ManagersAgree(Apply(t, ReportSuccess(1, Just(1001))))
  {
    s, steps := AfterConnecting(info);
    SecondReport(s, info);
  }

  lemma SecondReport(s: Sys, info: Info)
    requires Inv(s) && IsManagerFor(s.managers, 1, Just(1001)) && s.managers[1001].connId != 0
    requires FreshFd(s, 2001)
    ensures var t := Apply(Opened(s, 1, info, 1), ClientConnected(2001, 1));
            && IsManagerFor(t.managers, 1, Just(1001)) && !ManagersAgree(Apply(t, ReportSuccess(1, Just(1001))))
  {
    var o := Opened(s, 1, info, 1);
    var t := Apply(o, ClientConnected(2001, 1));
    OpenedAgrees(s, 1, info, 1);
    SecondMatch(s, info);
    hide Apply, Opened, ManagersAgree, Inv;
    SuccessReportExact(t, 1, 1001);
  }

  lemma OpenedAgrees(s: Sys, r: u32, info: Info, time: int)
    requires ManagersAgree(s) && AuthIdsFresh(s)
    ensures ManagersAgree(Opened(s, r, info, time))
  {
    assert s.authIdCounter + 1 !in s.managers;
  }

  lemma ConnectStep(s: Sys, fd: int, r: u32)
    requires r in s.requests
    ensures var t, c := Apply(s, ClientConnected(fd, r)), GenConnId(s.requests[r].info.linkType, ToI32(fd));
            && t.managers == s.managers && t.connIdToAuthId == s.connIdToAuthId && t.serverConns == s.serverConns
            && t.usedFds == s.usedFds + {fd} && r in t.phases && t.phases[r] == Connecting(c)
  {
    hide GenConnId, ToI32;
  }

  lemma SecondMatch(s: Sys, info: Info)
    requires Inv(s) && FreshFd(s, 2001) && 1001 in s.managers && s.managers[1001].requestId == 1
    ensures var o := Opened(s, 1, info, 1);
            var t := Apply(o, ClientConnected(2001, 1));
            && ManagersAgree(t) == ManagersAgree(o)
            && IsManagerFor(t.managers, 1, Just(1001)) && t.managers[1001] == s.managers[1001]
            && 1 in t.phases && t.phases[1].Connecting? && Announced(t, t.phases[1].connId)
  {
    var o := Opened(s, 1, info, 1);
    FreshConnId(s, 2001, info.linkType);
    ReadBack(info.linkType, 2001);
    assert s.authIdCounter + 1 != 1001;
    hide Inv, GenConnId, GetFd, ToI32, Apply, ManagersAgree;
    ConnectStep(o, 2001, 1);
    SameManagers(o, Apply(o, ClientConnected(2001, 1)));
  }

  // --------------------------------------------------- descriptors that fit

  /** The descriptors of the connections that a run adds, in order. */
  function FdsOf(steps: seq<Step>): seq<int> {
    if steps == [] then []
    else (if Connects(steps[0]) then [steps[0].fd] else []) + FdsOf(steps[1..])
  }

  /** A run in order, whatever its descriptors. */
  ghost predicate IsOrderlyRun(s: Sys, steps: seq<Step>)
    decreases steps
  {
    steps != [] ==> Orderly(s, steps[0]) && IsOrderlyRun(Apply(s, steps[0]), steps[1..])
  }

  predicate Usable(s: Sys, fds: seq<int>) {
    Fds.Distinct(fds) && forall fd | fd in fds :: 0 < fd < 0x8000_0000 && fd !in s.usedFds
  }

  lemma UsableAfter(s: Sys, step: Step, rest: seq<int>)
    requires Usable(s, (if Connects(step) then [step.fd] else []) + rest)
    ensures Connects(step) ==> FreshFd(s, step.fd)
    ensures Usable(Apply(s, step), rest)
  {
    var fds := (if Connects(step) then [step.fd] else []) + rest;
    var t := Apply(s, step);
    if Connects(step) {
      assert t.usedFds <= s.usedFds + {step.fd};
      assert fds[0] == step.fd && fds[0] in fds && rest == fds[1..];
      forall fd | fd in rest ensures fd in fds && fd != step.fd {
        var i :| 0 <= i < |rest| && rest[i] == fd;
        assert fds[i + 1] == fd;
      }
      assert forall i, j | 0 <= i < j < |rest| :: rest[i] == fds[i + 1] && rest[j] == fds[j + 1];
    } else {
      HistoryFrame(s, step);
      assert fds == rest;
    }
  }

  /** In an orderly run with distinct descriptors every descriptor is fresh when it is used. */
  lemma {:induction false} DistinctRun(s: Sys, steps: seq<Step>)
    requires IsOrderlyRun(s, steps) && Usable(s, FdsOf(steps))
    ensures IsRun(s, steps)
    decreases steps
  {
    if steps != [] {
      UsableAfter(s, steps[0], FdsOf(steps[1..]));
      hide Apply, Orderly, Usable, FreshFd;
      DistinctRun(Apply(s, steps[0]), steps[1..]);
    }
  }

  /** Each connection has its own one of the descriptors that the connection manager issued. */
  ghost predicate Assigned(types: seq<Fds.ConnType>, picks: seq<nat>, fds: seq<int>) {
    && |picks| == |fds|
    && (forall i, j | 0 <= i < j < |picks| :: picks[i] != picks[j])
    && (forall i | 0 <= i < |fds| :: picks[i] < |types| && fds[i] == Fds.Issued(types)[picks[i]])
  }

  lemma AssignedUsable(types: seq<Fds.ConnType>, picks: seq<nat>, fds: seq<int>)
    requires Assigned(types, picks, fds) && |types| <= 0x7FFF_FFFF - Fds.CLIENT_FD_START
    requires Fds.Count(types, Fds.Server) <= 1000 || Fds.Count(types, Fds.Client) == 0
    ensures Usable(EMPTY, fds)
  {
    Fds.IssuedDistinct(types);
    Fds.IssuedRange(types);
    hide Fds.Count, Fds.Issued;
    var issued := Fds.Issued(types);
    forall fd | fd in fds ensures 0 < fd < 0x8000_0000 {
      var i :| 0 <= i < |fds| && fds[i] == fd;
      assert issued[picks[i]] in issued;
    }
    forall i, j | 0 <= i < j < |fds| ensures fds[i] != fds[j] {
      assert picks[i] < picks[j] || picks[j] < picks[i];
    }
  }

  /**
  With descriptors as the connection manager issues them, the maps agree in every reachable state as
  long as at most 1000 server connections were allocated, or no client one.
  */
  lemma AllocatedMapsAgree(types: seq<Fds.ConnType>, picks: seq<nat>, steps: seq<Step>, c: u64, m: Manager)
    requires IsOrderlyRun(EMPTY, steps) && Assigned(types, picks, FdsOf(steps)) && c != 0
    requires |types| <= 0x7FFF_FFFF - Fds.CLIENT_FD_START
    requires Fds.Count(types, Fds.Server) <= 1000 || Fds.Count(types, Fds.Client) == 0
    ensures var s := RunOf(EMPTY, steps);
            && ConnectionsAgree(s) && ManagersAgree(s)
            && (ByConnId(s, c) == Just(m) <==> m.authId in s.managers && s.managers[m.authId] == m && m.connId == c)
  {
    AssignedUsable(types, picks, FdsOf(steps));
    DistinctRun(EMPTY, steps);
    ReachableMapsAgree(steps, c, m);
  }
}
