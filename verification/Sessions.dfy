/**
Authentication sessions: a small state machine for each, driven by messages and
callbacks that arrive in any order, each section under the session's lock.
*/
module Sessions {
  import Bytes

  type Seq = Bytes.i64

  datatype State = Init | SyncDeviceId | DeviceAuth | AuthDone | Failed

  /** How an attempt to start HiChain ends: before, in, or after the call of AuthDevice. */
  datatype Launch = NoService | Rejected | Launched

  /**
  A session; `created` says that its creator has not yet run the state machine, `launching` counts the
  handlers that left the synchronising state and have not launched yet, `starts` the calls of AuthDevice.
  */
  datatype Session = Session(isServer: bool, state: State, created: bool, launching: nat, starts: nat)

  const NEW_CLIENT := Session(false, State.Init, true, 0, 0)
  const NEW_SERVER := Session(true, State.Init, true, 0, 0)

  function New(isServer: bool): Session {
    if isServer then NEW_SERVER else NEW_CLIENT
  }

  function Launching(s: Session, result: Launch): Session {
    match result
    case NoService => s.(state := Failed)
    case Rejected => s.(state := Failed, starts := s.starts + 1)
    case Launched => s.(starts := s.starts + 1)
  }

  datatype Event =
    | RunMachine(result: Launch)
    | DevIdData(result: Launch)
    | AuthData
    | LaunchAfterAuthData(result: Launch)
    | Finish
    | Error

  /** What an event does to its session. */
  function Handle(s: Session, e: Event): Session {
    match e
    case RunMachine(result) =>
      if s.isServer then s.(state := SyncDeviceId, created := false)
      else Launching(s.(state := DeviceAuth, created := false), result)
    case DevIdData(result) =>
      if s.isServer && s.state == SyncDeviceId then Launching(s.(state := DeviceAuth), result) else s
    case AuthData =>
      if s.isServer && s.state == SyncDeviceId then s.(state := DeviceAuth, launching := s.launching + 1) else s
    case LaunchAfterAuthData(result) =>
      Launching(s.(launching := if s.launching > 0 then s.launching - 1 else 0), result)
    case Finish => s.(state := AuthDone)
    case Error => s.(state := Failed)
  }

  /** The state machine is run once, by the creator; a launch follows the handler that asked for it. */
  predicate Possible(s: Session, e: Event) {
    (e.RunMachine? ==> s.created) && (e.LaunchAfterAuthData? ==> s.launching > 0)
  }

  // ------------------------------------------------------- at most one launch

  /** Calls of AuthDevice that were made, are under way, or can still come. */
  function Potential(s: Session): nat {
    s.starts + s.launching + (if s.state == SyncDeviceId then 1 else 0) + if s.created then 1 else 0
  }

  lemma PotentialNeverGrows(s: Session, e: Event)
    requires Possible(s, e) && (s.created ==> s.state != SyncDeviceId)
    ensures Potential(Handle(s, e)) <= Potential(s)
    ensures Handle(s, e).created ==> Handle(s, e).state != SyncDeviceId
  {}

  /** Whether the service exists, and so AuthDevice is called. */
  function Calls(result: Launch): nat {
    if result == NoService then 0 else 1
  }

  /** The state that a launch leaves: the session waits for HiChain only if the call was accepted. */
  function After(result: Launch): State {
    if result == Launched then DeviceAuth else Failed
  }

  /**
  Nor less often: a waiting server that gets a device id, or authentication data and then its launch,
  has called AuthDevice once more if the service exists, and so has a client's state machine; nothing
  else calls it, and a server's state machine begins to wait.
  */
  lemma StartsExactly(s: Session, result: Launch)
    ensures var waiting := s.isServer && s.state == SyncDeviceId;
            && Handle(s, DevIdData(result)) ==
               (if waiting then s.(starts := s.starts + Calls(result), state := After(result)) else s)
            && (waiting ==>
                Handle(Handle(s, AuthData), LaunchAfterAuthData(result))
                == s.(starts := s.starts + Calls(result), state := After(result)))
            && (!waiting ==> Handle(s, AuthData) == s)
            && Handle(s, RunMachine(result)) ==
               (if s.isServer then s.(created := false, state := SyncDeviceId)
                else s.(created := false, starts := s.starts + Calls(result), state := After(result)))
            && Handle(s, Finish) == s.(state := AuthDone) && Handle(s, Error) == s.(state := Failed)
  {}

  /**
  All sessions ever created, each known by its place in the sequence, and the table from sequence
  numbers to those that can still be looked up. A session that has left the table may still be held
  by handlers and callbacks that looked it up before, and its number may be given to another one.
  */
  datatype Sys = Sys(initialized: bool, sessions: seq<Session>, table: map<Seq, nat>)

  const NO_SESSIONS := Sys(false, [], map[])

  datatype Step =
    | Init
    | Deinit
    | Create(id: Seq, isServer: bool)
    | On(session: nat, e: Event)

  function Apply(s: Sys, step: Step): Sys {
    match step
    case Init => s.(initialized := true)
    case Deinit => if s.initialized then s.(initialized := false, table := map[]) else s
    case Create(id, isServer) =>
      if s.initialized && id !in s.table then
        s.(sessions := s.sessions + [New(isServer)], table := s.table[id := |s.sessions|])
      else s
    case On(n, e) => if n < |s.sessions| then s.(sessions := s.sessions[n := Handle(s.sessions[n], e)]) else s
  }

  /** An event may reach any session ever created, whether or not it is still in the table. */
  predicate Allowed(s: Sys, step: Step) {
    step.On? ==> step.session < |s.sessions| && Possible(s.sessions[step.session], step.e)
  }

  predicate OnceEach(s: Sys) {
    forall n | 0 <= n < |s.sessions| :: Potential(s.sessions[n]) <= 1
  }

  lemma StepKeepsOnce(s: Sys, step: Step)
    requires OnceEach(s) && Allowed(s, step)
    ensures OnceEach(Apply(s, step))
  {
    if step.On? {
      PotentialNeverGrows(s.sessions[step.session], step.e);
    }
  }

  predicate IsRun(s: Sys, steps: seq<Step>)
    decreases steps
  {
    steps != [] ==> Allowed(s, steps[0]) && IsRun(Apply(s, steps[0]), steps[1..])
  }

  function RunOf(s: Sys, steps: seq<Step>): Sys
    decreases steps
  {
    if steps == [] then s else RunOf(Apply(s, steps[0]), steps[1..])
  }

  lemma {:induction false} RunKeepsOnce(s: Sys, steps: seq<Step>)
    requires OnceEach(s) && IsRun(s, steps)
    ensures OnceEach(RunOf(s, steps))
    decreases steps
  {
    if steps != [] {
      StepKeepsOnce(s, steps[0]);
      RunKeepsOnce(Apply(s, steps[0]), steps[1..]);
    }
  }

  /**
  However the events of however many sessions interleave, and whenever the manager is shut down and
  started again, HiChain is started at most once for each session.
  */
  lemma StartedAtMostOnce(steps: seq<Step>, n: nat)
    requires IsRun(NO_SESSIONS, steps) && n < |RunOf(NO_SESSIONS, steps).sessions|
    ensures RunOf(NO_SESSIONS, steps).sessions[n].starts <= 1
  {
    RunKeepsOnce(NO_SESSIONS, steps);
  }

  /** Different numbers in the table lead to different sessions, all of which exist. */
  predicate TableInjective(s: Sys) {
    && (forall id | id in s.table :: s.table[id] < |s.sessions|)
    && (forall i, j | i in s.table && j in s.table && i != j :: s.table[i] != s.table[j])
  }

  lemma {:induction false} RunKeepsTable(s: Sys, steps: seq<Step>)
    requires TableInjective(s)
    ensures TableInjective(RunOf(s, steps)) && |s.sessions| <= |RunOf(s, steps).sessions|
    decreases steps
  {
    if steps != [] {
      RunKeepsTable(Apply(s, steps[0]), steps[1..]);
    }
  }

  // --------------------------------------------------------------- the objects

  class AuthSession {
    const isServer: bool
    var state: State
    ghost var created: bool
    ghost var launching: nat
    ghost var starts: nat

    ghost function View(): Session
      reads this
    {
      Session(isServer, state, created, launching, starts)
    }

    constructor (isServer: bool)
      ensures View() == New(isServer)
    {
      this.isServer, state, created, launching, starts := isServer, State.Init, true, 0, 0;
    }

    method StartStateMachine(result: Launch) returns (ok: bool)
      modifies this
      ensures View() == Handle(old(View()), RunMachine(result))
      ensures ok <==> isServer || result == Launched
    {
      created := false;
      if isServer {
        state := SyncDeviceId;
      } else {
        state := SyncDeviceId;
        state := DeviceAuth;
        ok := StartHiChainAuth(result);
        return;
      }
      return true;
    }

    method StartHiChainAuth(result: Launch) returns (ok: bool)
      modifies this`state, this`starts
      ensures View() == Launching(old(View()), result) && (ok <==> result == Launched)
    {
      if result == NoService {
        state := Failed;
        return false;
      }
      starts := starts + 1;
      if result == Rejected {
        state := Failed;
        return false;
      }
      return true;
    }

    method ProcessDevIdData(result: Launch) returns (ok: bool)
      modifies this
      ensures View() == Handle(old(View()), DevIdData(result))
      ensures ok <==> !(isServer && old(state) == SyncDeviceId) || result == Launched
    {
      if isServer && state == SyncDeviceId {
        state := DeviceAuth;
        ok := StartHiChainAuth(result);
        return;
      }
      return true;
    }

    /** The locked part of AuthSessionProcessAuthData: whether this caller has to launch HiChain. */
    method ProcessAuthData() returns (launch: bool)
      modifies this
      ensures View() == Handle(old(View()), AuthData)
      ensures launch <==> isServer && old(state) == SyncDeviceId
      ensures launch ==> launching > 0
    {
      launch := isServer && state == SyncDeviceId;
      if launch {
        state := DeviceAuth;
        launching := launching + 1;
      }
    }

    /** The unlocked part that follows when ProcessAuthData said so. */
    method LaunchForAuthData(result: Launch) returns (ok: bool)
      requires launching > 0
      modifies this
      ensures View() == Handle(old(View()), LaunchAfterAuthData(result)) && (ok <==> result == Launched)
    {
      launching := launching - 1;
      ok := StartHiChainAuth(result);
    }

    method SetDone()
      modifies this`state
      ensures View() == Handle(old(View()), Finish)
    {
      state := AuthDone;
    }

    method SetFailed()
      modifies this`state
      ensures View() == Handle(old(View()), Error)
    {
      state := Failed;
    }
  }

  class AuthSessionManager {
    var initialized: bool
    var sessions: map<Seq, AuthSession>
    var connIdToSeq: map<Bytes.u64, Seq>

    constructor ()
      ensures !initialized && sessions == map[] && connIdToSeq == map[]
    {
      initialized, sessions, connIdToSeq := false, map[], map[];
    }

    method Init()
      modifies this`initialized
      ensures initialized
    {
      initialized := true;
    }

    /** Empties the tables; the sessions themselves are not touched. */
    method Deinit()
      modifies this
      ensures !initialized
      ensures if old(initialized) then sessions == map[] && connIdToSeq == map[]
              else sessions == old(sessions) && connIdToSeq == old(connIdToSeq)
    {
      if !initialized { return; }
      sessions := map[];
      connIdToSeq := map[];
      initialized := false;
    }

    /** AuthSessionStartAuth up to the state machine, which the creator runs next. */
    method CreateSession(id: Seq, connId: Bytes.u64, isServer: bool) returns (session: AuthSession?)
      modifies this`sessions, this`connIdToSeq
      ensures session != null <==> initialized && id !in old(sessions)
      ensures session == null ==> sessions == old(sessions) && connIdToSeq == old(connIdToSeq)
      ensures session != null ==>
                && fresh(session) && session.View() == New(isServer)
                && sessions == old(sessions)[id := session] && connIdToSeq == old(connIdToSeq)[connId := id]
    {
      if !initialized || id in sessions { return null; }
      session := new AuthSession(isServer);
      sessions := sessions[id := session];
      connIdToSeq := connIdToSeq[connId := id];
    }

    /** Only the session of that number is changed, if there is one. */
    method ProcessDevIdData(id: Seq, result: Launch) returns (ok: bool)
      modifies if id in sessions then {sessions[id]} else {}
      ensures id in sessions ==> sessions[id].View() == Handle(old(sessions[id].View()), DevIdData(result))
      ensures ok ==> id in sessions
    {
      if id !in sessions { return false; }
      ok := sessions[id].ProcessDevIdData(result);
    }

    /** The lookup and the locked part; the caller holds the session for the launch. */
    method ProcessAuthData(id: Seq) returns (session: AuthSession?, launch: bool)
      modifies if id in sessions then {sessions[id]} else {}
      ensures session == if id in sessions then sessions[id] else null
      ensures session != null ==> session.View() == Handle(old(sessions[id].View()), AuthData)
      ensures launch ==> session != null && session.launching > 0
      ensures launch <==> id in sessions && sessions[id].isServer && old(sessions[id].state) == SyncDeviceId
    {
      if id !in sessions { return null, false; }
      session := sessions[id];
      launch := session.ProcessAuthData();
    }

    method HandleAuthFinish(id: Seq) returns (ok: bool)
      modifies if id in sessions then {sessions[id]} else {}
      ensures ok <==> id in sessions
      ensures ok ==> sessions[id].View() == Handle(old(sessions[id].View()), Finish)
    {
      if id !in sessions { return false; }
      sessions[id].SetDone();
      return true;
    }

    method HandleAuthError(id: Seq) returns (ok: bool)
      modifies if id in sessions then {sessions[id]} else {}
      ensures ok <==> id in sessions
      ensures ok ==> sessions[id].View() == Handle(old(sessions[id].View()), Error)
    {
      if id !in sessions { return false; }
      sessions[id].SetFailed();
      return true;
    }
  }
}
