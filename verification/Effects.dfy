/**
What each step of the bookkeeping does, told by what can be looked up before
and after it, and what it leaves alone. The states are the reachable ones.
*/
module Effects {
  import opened Bytes
  import opened Wrappers
  import opened ConnIds
  import opened Bookkeeping

  ghost predicate SameConnectionSide(s: Sys, t: Sys) {
    t.connections == s.connections && t.fdToConnId == s.fdToConnId && t.requests == s.requests
  }

  ghost predicate SameManagerSide(s: Sys, t: Sys) {
    && t.managers == s.managers && t.connIdToAuthId == s.connIdToAuthId
    && t.authIdCounter == s.authIdCounter && t.seqCounter == s.seqCounter
  }

  /** Every manager but this one is there exactly as before, and under its own id. */
  ghost predicate OtherManagersSame(s: Sys, t: Sys, a: int) {
    forall b | b != a :: (b in t.managers <==> b in s.managers) && (b in s.managers ==> t.managers[b] == s.managers[b])
  }

  /** Every lookup by another connection id finds what it found before. */
  ghost predicate OtherLookupsSame(s: Sys, t: Sys, c: u64) {
    forall d: u64 | d != c :: ByConnId(t, d) == ByConnId(s, d)
  }

  /** Every connection but this one is there as before, and so is every other descriptor. */
  ghost predicate OtherConnectionsSame(s: Sys, t: Sys, c: u64, fd: int) {
    && (forall d: u64 | d != c ::
          (d in t.connections <==> d in s.connections) && (d in s.connections ==> t.connections[d] == s.connections[d]))
    && (forall f | f != fd ::
          (f in t.fdToConnId <==> f in s.fdToConnId) && (f in s.fdToConnId ==> t.fdToConnId[f] == s.fdToConnId[f]))
  }

  // -------------------------------------------------------- what is removed

  /** A lost connection: its manager cannot be found any more, neither by the connection id nor among the managers. */
  lemma LostConnection(s: Sys, c: u64)
    requires Inv(s) && c != 0
    ensures var t := Apply(s, ConnectionLost(c));
            && ByConnId(t, c) == Nothing && c !in t.connIdToAuthId
            && (forall a | a in t.managers :: t.managers[a].connId != c)
            && (forall a | a in s.managers && s.managers[a].connId != c ::
                  a in t.managers && t.managers[a] == s.managers[a])
            && t.managers.Keys <= s.managers.Keys && OtherLookupsSame(s, t, c) && SameConnectionSide(s, t)
  {
    hide ConnectionsAgree, FdsKnown, MatchesReserved, PhasesConsistent, CallsKnown, RequestIdsDistinct;
  }

  /** A closed manager is gone, and its connection id is not mapped; every other manager is found as before. */
  lemma ClosedManager(s: Sys, a: int)
    requires Inv(s)
    ensures var t := Apply(s, CloseManager(a));
            && a !in t.managers && OtherManagersSame(s, t, a)
            && (a in s.managers ==>
                && s.managers[a].connId !in t.connIdToAuthId
                && OtherLookupsSame(s, t, s.managers[a].connId))
            && (a !in s.managers ==> t == s)
            && SameConnectionSide(s, t)
  {
    hide ConnectionsAgree, FdsKnown, MatchesReserved, PhasesConsistent, CallsKnown, RequestIdsDistinct;
  }

  /** A closed socket: neither its descriptor nor its connection can be looked up, and all others can. */
  lemma ClosedSocket(s: Sys, fd: int)
    requires Inv(s)
    ensures var t := Apply(s, SocketDisconnected(fd));
            && fd !in t.fdToConnId && (forall c | c in t.connections :: t.connections[c].fd != fd)
            && (fd in s.fdToConnId ==>
                s.fdToConnId[fd] !in t.connections && OtherConnectionsSame(s, t, s.fdToConnId[fd], fd))
            && (fd !in s.fdToConnId ==> t == s)
            && SameManagerSide(s, t) && t.requests == s.requests
  {
    assert ConnectionsAgree(s);
    hide Inv;
  }

  /** A disconnected device: neither its connection nor its descriptor can be looked up, and all others can. */
  lemma DisconnectedDevice(s: Sys, c: u64)
    requires Inv(s)
    ensures var t := Apply(s, DisconnectDevice(c));
            && c !in t.connections && (forall f | f in t.fdToConnId :: t.fdToConnId[f] != c)
            && (c in s.connections ==>
                s.connections[c].fd !in t.fdToConnId && OtherConnectionsSame(s, t, c, s.connections[c].fd))
            && (c !in s.connections ==> t == s)
            && SameManagerSide(s, t) && t.requests == s.requests
  {
    assert ConnectionsAgree(s);
    hide Inv;
  }

  /** After the report of a failed dial no manager has that request id, and every other one is as before. */
  lemma ReportedFailure(s: Sys, r: u32, found: Maybe<int>)
    requires Inv(s) && Allowed(s, ReportFailure(r, found))
    ensures var t := Apply(s, ReportFailure(r, found));
            && (forall a | a in t.managers :: t.managers[a].requestId != r)
            && (forall a | a in s.managers && s.managers[a].requestId != r ::
                  a in t.managers && t.managers[a] == s.managers[a])
            && t.managers.Keys <= s.managers.Keys
            && t.connIdToAuthId == s.connIdToAuthId && SameConnectionSide(s, t)
  {
    hide ConnectionsAgree, FdsKnown, MatchesReserved, CallsKnown, ManagersAgree, AuthIdsFresh;
  }

  /** After the clean-up of a failed call its manager is gone, whether or not the failure was reported. */
  lemma CleanedUpCall(s: Sys, r: u32)
    requires Inv(s) && Allowed(s, OpenFailed(r))
    ensures var t := Apply(s, OpenFailed(r));
            && s.created[r] !in t.managers && OtherManagersSame(s, t, s.created[r])
            && t.connIdToAuthId == s.connIdToAuthId && SameConnectionSide(s, t) && r !in t.phases
  {
    hide ConnectionsAgree, FdsKnown, MatchesReserved, PhasesConsistent, ManagersAgree, AuthIdsFresh, RequestIdsDistinct;
  }

  /** A withdrawn request is gone, and no other one. */
  lemma WithdrawnRequest(s: Sys, r: u32)
    ensures var t := Apply(s, DialFailed(r));
            && t.requests == s.requests - {r} && SameManagerSide(s, t)
            && t.connections == s.connections && t.fdToConnId == s.fdToConnId
  {}

  // ---------------------------------------------------------- what is added

  /** A call begins: one new client manager under the next id, without connection, found by its request id alone. */
  lemma BegunCall(s: Sys, r: u32, info: Info)
    requires Inv(s) && Allowed(s, BeginOpen(r, info))
    ensures var t, a := Apply(s, BeginOpen(r, info)), s.authIdCounter + 1;
            && a !in s.managers && a in t.managers
            && t.managers[a] == Manager(a, s.seqCounter + 1, 0, info, false, r)
            && OtherManagersSame(s, t, a) && t.authIdCounter == a && t.seqCounter == s.seqCounter + 1
            && (forall found :: IsManagerFor(t.managers, r, found) <==> found == Just(a))
            && t.connIdToAuthId == s.connIdToAuthId && SameConnectionSide(s, t)
  {
    hide ConnectionsAgree, FdsKnown, MatchesReserved, PhasesConsistent, CallsKnown, ManagersAgree;
  }

  lemma StoredRequest(s: Sys, r: u32, info: Info, time: int)
    ensures var t := Apply(s, AddRequest(r, info, time));
            && t.requests == s.requests[r := Request(r, info, time)] && SameManagerSide(s, t)
            && t.connections == s.connections && t.fdToConnId == s.fdToConnId
  {}

  /** The id of a connection: link type above, descriptor below. */
  function IdOf(linkType: i32, fd: int): int {
    linkType % 0x1_0000_0000 * 0x1_0000_0000 + fd
  }

  lemma IdIsGenerated(linkType: i32, fd: int)
    requires 0 < fd < 0x8000_0000
    ensures GenConnId(linkType, ToI32(fd)) == IdOf(linkType, fd)
  {
    assert ToI32(fd) == fd;
    ConnIdBijection(linkType, fd, 0);
    hide GenConnId, ToI32;
  }

  /** A dialled socket: the request is answered, and its connection can be looked up by id and by descriptor. */
  lemma MatchedSocket(s: Sys, fd: int, r: u32)
    requires Inv(s) && Allowed(s, ClientConnected(fd, r)) && r in s.requests
    ensures var t, info := Apply(s, ClientConnected(fd, r)), s.requests[r].info;
            var c := IdOf(info.linkType, fd);
            && 0 < c < 0x1_0000_0000_0000_0000 && c !in s.connections && fd !in s.fdToConnId
            && c in t.connections && t.connections[c] == Connection(c, fd, info, false)
            && fd in t.fdToConnId && t.fdToConnId[fd] == c
            && OtherConnectionsSame(s, t, c, fd) && t.requests == s.requests - {r}
            && SameManagerSide(s, t) && r in t.phases && t.phases[r] == Connecting(c)
  {
    IdIsGenerated(s.requests[r].info.linkType, fd);
    NewConnection(s, ClientConnected(fd, r));
    hide GenConnId, ToI32, GetFd, IdOf, Inv;
  }

  /** A socket that finds no request is not recorded. */
  lemma UnmatchedSocket(s: Sys, fd: int, r: u32)
    requires s.requests == map[]
    ensures Apply(s, ClientConnected(fd, r)) == s
  {}

  /** An accepted socket is a server connection of link type 1, to be looked up by id and by descriptor. */
  lemma AcceptedSocket(s: Sys, fd: int, info: Info)
    requires Inv(s) && Allowed(s, ServerConnected(fd, info))
    ensures var t, c := Apply(s, ServerConnected(fd, info)), IdOf(1, fd);
            && 0 < c < 0x1_0000_0000_0000_0000 && c !in s.connections && fd !in s.fdToConnId
            && c in t.connections && t.connections[c] == Connection(c, fd, info.(linkType := 1), true)
            && fd in t.fdToConnId && t.fdToConnId[fd] == c
            && OtherConnectionsSame(s, t, c, fd) && t.requests == s.requests
            && SameManagerSide(s, t) && c in t.serverConns
  {
    IdIsGenerated(1, fd);
    NewConnection(s, ServerConnected(fd, info));
    hide GenConnId, ToI32, GetFd, IdOf, Inv;
  }

  /** After the report of a connection, its id leads to the manager of the call, which is otherwise as before. */
  lemma ReportedSuccess(s: Sys, r: u32, a: int)
    requires Inv(s) && Allowed(s, ReportSuccess(r, Just(a)))
    ensures var t, c := Apply(s, ReportSuccess(r, Just(a))), s.phases[r].connId;
            && ByConnId(s, c) == Nothing && ByConnId(t, c) == Just(s.managers[a].(connId := c))
            && OtherManagersSame(s, t, a) && OtherLookupsSame(s, t, c) && SameConnectionSide(s, t)
  {
    assert Announced(s, s.phases[r].connId);
    assert s.managers[a].connId == 0;
    hide ConnectionsAgree, FdsKnown, MatchesReserved, PhasesConsistent, CallsKnown, RequestIdsDistinct, AuthIdsFresh,
         GetFd;
  }

  lemma MappedIsFound(s: Sys, c: u64)
    requires ManagersAgree(s)
    ensures c in s.connIdToAuthId <==> ByConnId(s, c).Just?
  {}

  /** Data of another module, or from a connection whose manager is known, changes nothing. */
  lemma IgnoredData(s: Sys, c: u64, moduleId: int, info: Info)
    requires Inv(s) && (ByConnId(s, c).Just? || moduleId != 3)
    ensures Apply(s, ServerData(c, moduleId, info)) == s
  {
    MappedIsFound(s, c);
    hide Inv, ByConnId;
  }

  /** The first data of module 3 from a server connection makes a server manager, found by the connection id. */
  lemma FirstData(s: Sys, c: u64, info: Info)
    requires Inv(s) && ByConnId(s, c).Nothing?
    ensures var t, a := Apply(s, ServerData(c, 3, info)), s.authIdCounter + 1;
            && a !in s.managers && ByConnId(t, c) == Just(Manager(a, s.seqCounter + 1, c, info, true, 0))
            && t.authIdCounter == a && t.seqCounter == s.seqCounter + 1
            && OtherManagersSame(s, t, a) && OtherLookupsSame(s, t, c) && SameConnectionSide(s, t)
  {
    MappedIsFound(s, c);
    assert s.authIdCounter + 1 !in s.managers;
    assert forall d | d in s.connIdToAuthId :: s.connIdToAuthId[d] in s.managers;
    hide Inv, AuthIdsFresh, ManagersAgree;
  }

  // ------------------------------------------------------------- one connection

  /** From the socket of a call to the loss of its connection: its manager is found in between, and not afterwards. */
  lemma ConnectedUntilLost(s: Sys, fd: int, r: u32, a: int)
    requires Inv(s) && Allowed(s, ClientConnected(fd, r)) && IsOldest(s.requests, r)
    requires IsManagerFor(s.managers, r, Just(a))
    ensures var c := IdOf(s.requests[r].info.linkType, fd);
            0 < c < 0x1_0000_0000_0000_0000
    ensures var c := IdOf(s.requests[r].info.linkType, fd);
            var steps := [ClientConnected(fd, r), ReportSuccess(r, Just(a))];
            && IsRun(s, steps)
            && ByConnId(RunOf(s, steps), c) == Just(s.managers[a].(connId := c))
            && ByConnId(Apply(RunOf(s, steps), ConnectionLost(c)), c) == Nothing
  {
    hide Apply, Inv, IdOf, ByConnId, OtherManagersSame, OtherLookupsSame, OtherConnectionsSame;
    var c := IdOf(s.requests[r].info.linkType, fd);
    var a1, a2 := ClientConnected(fd, r), ReportSuccess(r, Just(a));
    MatchedSocket(s, fd, r);
    StepKeepsInv(s, a1);
    var s1 := Apply(s, a1);
    assert Allowed(s1, a2);
    hide Allowed, IsManagerFor;
    ReportedSuccess(s1, r, a);
    StepKeepsInv(s1, a2);
    TwoSteps(s, a1, a2);
    LostConnection(Apply(s1, a2), c);
  }
}
