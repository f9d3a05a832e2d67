/**
The store of long-term keys that all handles share: which exchanges keep every
stored key pair together, and what the handshake needs of a store in any
reachable state of the service.
*/
module KeyStores {
  import opened Wrappers
  import opened Pake
  import opened Answers
  import opened Agreement

  // -------------------------------------------------------------- one step

  predicate StoreTogether(k: Crypto, store: Store) {
    forall id | id in store :: Together(k, store[id].secretKey, store[id].publicKey)
  }

  /** A signed exchange whose answer goes out, and whose key takes the place of another one beside a secret key. */
  predicate Overwrites(k: Crypto, h: Handle, store: Store, i: Input) {
    && SignedExchange(k, h, i) && i.e.sendOk
    && var id, key := SavedUnder(k, h, i.m.value), ClaimedKey(k, h, i);
       if h.ltSecret == [] && id == h.selfAuthId then OwnPair(k, h, store, i.e).1 != key
       else id in store && store[id].secretKey != [] && store[id].publicKey != key
  }

  lemma LoadKeysTogether(k: Crypto, h: Handle, store: Store, e: Env)
    requires WellSized(e) && Together(k, h.ltSecret, h.ltPublic) && StoreTogether(k, store)
    ensures var (h', store') := LoadKeys(k, h, store, e);
            && |h'.ltSecret| == 64 && Together(k, h'.ltSecret, h'.ltPublic) && StoreTogether(k, store')
            && h' == h.(ltSecret := h'.ltSecret, ltPublic := h'.ltPublic)
  {}

  /** What an exchange saves keeps the pairs together exactly if it does not separate the one at the client's id. */
  lemma SavedTogether(k: Crypto, h: Handle, store: Store, store': Store, e: Env, id: Data, publicKey: Data)
    requires WellSized(e) && StoreTogether(k, store) && Together(k, h.ltSecret, h.ltPublic)
    requires SavesKeys(k, h, store, store', e, id, publicKey)
    ensures StoreTogether(k, store')
       <==> if h.ltSecret == [] && id == h.selfAuthId then OwnPair(k, h, store, e).1 == publicKey
            else id !in store || store[id].secretKey == [] || store[id].publicKey == publicKey
  {
    assert id in store';
  }

  /** Without an accepted exchange the store is unchanged, or has the server's own new pair. */
  lemma UnacceptedExchange(k: Crypto, h: Handle, store: Store, i: Input)
    requires FixedLength(k) && WellSized(i.e) && i.Receive? && i.m.Just? && i.m.value.kind == EXCHANGE_REQUEST
    requires Together(k, h.ltSecret, h.ltPublic) && StoreTogether(k, store) && !Step(k, h, store, i).ok
    ensures var o := Step(k, h, store, i); StoreTogether(k, o.store) && Together(k, o.h.ltSecret, o.h.ltPublic)
  {
    var m := i.m.value;
    var x := OpenExchange(k, h, m);
    LoadKeysTogether(k, h, store, i.e);
    if x.Exchange? && x.authId.Hex? {
      LoadKeysTogether(k, h.(peerAuthId := x.authId.bytes), store, i.e);
    }
    hide OpenExchange, Verify, ServerText, Encrypt, SavePeer, LoadKeys, ExchangeResponse, StoreTogether, Together;
  }

  lemma OthersKeepKeys(k: Crypto, h: Handle, store: Store, i: Input)
    requires FixedLength(k) && WellSized(i.e)
    requires i.Receive? && i.m.Just? ==> i.m.value.kind != EXCHANGE_REQUEST
    ensures var o := Step(k, h, store, i);
            o.h.ltSecret == h.ltSecret && o.h.ltPublic == h.ltPublic && o.store == store
  {
    hide SpekeBase, X25519, Derive, KcfData, ServerConfirm, PakeResponse;
    if i.Receive? && i.m.Just? && i.m.value.payload.Just? {
      DeriveKeepsKeys(k, h, i.m.value.payload.value);
    }
  }

  lemma DeriveKeepsKeys(k: Crypto, h: Handle, p: Payload)
    requires FixedLength(k)
    ensures var h' := Derive(k, h, p).0; h'.ltSecret == h.ltSecret && h'.ltPublic == h.ltPublic
  {}

  /**
  A step keeps every stored key pair together exactly if it is not an accepted exchange that puts a
  different key beside a secret key; the handle's own pair stays together in any case.
  */
  lemma StepKeepsTogether(k: Crypto, h: Handle, store: Store, i: Input)
    requires FixedLength(k) && WellSized(i.e)
    requires Together(k, h.ltSecret, h.ltPublic) && StoreTogether(k, store)
    ensures var o := Step(k, h, store, i);
            && Together(k, o.h.ltSecret, o.h.ltPublic)
            && (StoreTogether(k, o.store) <==> !Overwrites(k, h, store, i))
  {
    var o := Step(k, h, store, i);
    if i.Receive? && i.m.Just? && i.m.value.kind == EXCHANGE_REQUEST {
      var m := i.m.value;
      ExchangeAnswer(k, h, store, m, i.e);
      OwnPairTogether(k, h, store, i.e);
      if o.ok {
        hide Step, OnReceive, SavesKeys, StoreTogether, SignedExchange, ClaimedKey, ClaimedId, OwnPair, Together,
             SealedAnswer;
        SavedTogether(k, h, store, o.store, i.e, SavedUnder(k, h, m), ClaimedKey(k, h, i));
      } else {
        hide Step, OnReceive, SavesKeys, StoreTogether, SignedExchange, ClaimedKey, ClaimedId, OwnPair, Together,
             SealedAnswer;
        UnacceptedExchange(k, h, store, i);
      }
    } else {
      OthersKeepKeys(k, h, store, i);
      hide Step, StoreTogether;
    }
  }

  lemma OwnPairTogether(k: Crypto, h: Handle, store: Store, e: Env)
    requires WellSized(e) && Together(k, h.ltSecret, h.ltPublic) && StoreTogether(k, store)
    ensures var pair := OwnPair(k, h, store, e); |pair.0| == 64 && Together(k, pair.0, pair.1)
  {}

  /** No step ever makes or stores a secret key of another length. */
  lemma StepKeepsSizes(k: Crypto, h: Handle, store: Store, i: Input)
    requires FixedLength(k) && WellSized(i.e) && SecretsSized(h, store)
    ensures var o := Step(k, h, store, i); SecretsSized(o.h, o.store)
  {
    if i.Receive? && i.m.Just? && i.m.value.kind == EXCHANGE_REQUEST {
      hide OpenExchange, Verify, ServerText, Encrypt;
    } else {
      OthersKeepKeys(k, h, store, i);
      hide Step;
    }
  }

  // -------------------------------------------------- any number of handles

  /** All handles and the store they share. A handle that was never called is new. */
  datatype Service = Service(handles: map<nat, Handle>, store: Store)

  datatype Call = Call(handle: nat, input: Input)

  const NO_SERVICE := Service(map[], map[])

  function HandleOf(s: Service, n: nat): Handle {
    if n in s.handles then s.handles[n] else NEW_HANDLE
  }

  predicate SizedCalls(calls: seq<Call>) {
    forall call | call in calls :: WellSized(call.input.e)
  }

  function Serve(k: Crypto, s: Service, call: Call): Service
    requires FixedLength(k) && WellSized(call.input.e)
  {
    var o := Step(k, HandleOf(s, call.handle), s.store, call.input);
    Service(s.handles[call.handle := o.h], o.store)
  }

  /** The service after calls to any handles in any order. */
  function Served(k: Crypto, calls: seq<Call>): Service
    requires FixedLength(k) && SizedCalls(calls)
  {
    if calls == [] then NO_SERVICE
    else Serve(k, Served(k, calls[..|calls| - 1]), calls[|calls| - 1])
  }

  /** With one handle this is the run of a handle on an empty store. */
  lemma {:induction false} OneHandle(k: Crypto, inputs: seq<Input>, calls: seq<Call>)
    requires FixedLength(k) && SizedInputs(inputs) && |calls| == |inputs|
    requires forall i | 0 <= i < |calls| :: calls[i] == Call(0, inputs[i])
    ensures SizedCalls(calls)
    ensures var s, o := Served(k, calls), After(k, map[], inputs); HandleOf(s, 0) == o.h && s.store == o.store
  {
    if inputs != [] {
      var n := |inputs| - 1;
      assert inputs[n] in inputs;
      OneHandle(k, inputs[..n], calls[..n]);
      hide Step;
    }
  }

  ghost predicate ServiceTogether(k: Crypto, s: Service) {
    StoreTogether(k, s.store) && forall n: nat :: Together(k, HandleOf(s, n).ltSecret, HandleOf(s, n).ltPublic)
  }

  /** Every pair was together after every one of the calls. */
  ghost predicate AlwaysTogether(k: Crypto, calls: seq<Call>)
    requires FixedLength(k) && SizedCalls(calls)
  {
    && ServiceTogether(k, Served(k, calls))
    && (calls != [] ==> AlwaysTogether(k, calls[..|calls| - 1]))
  }

  /** None of the calls was an exchange that overwrote a key beside its secret key. */
  predicate NeverOverwritten(k: Crypto, calls: seq<Call>)
    requires FixedLength(k) && SizedCalls(calls)
  {
    calls != [] ==>
      var init, last := calls[..|calls| - 1], calls[|calls| - 1];
      && NeverOverwritten(k, init)
      && last in calls && !Overwrites(k, HandleOf(Served(k, init), last.handle), Served(k, init).store, last.input)
  }

  lemma EmptyTogether(k: Crypto)
    ensures ServiceTogether(k, NO_SERVICE)
  {}

  lemma ServeKeepsTogether(k: Crypto, s: Service, call: Call)
    requires FixedLength(k) && WellSized(call.input.e) && ServiceTogether(k, s)
    ensures ServiceTogether(k, Serve(k, s, call))
       <==> !Overwrites(k, HandleOf(s, call.handle), s.store, call.input)
  {
    hide Step, Together, StoreTogether, Overwrites;
    StepKeepsTogether(k, HandleOf(s, call.handle), s.store, call.input);
    var t, o := Serve(k, s, call), Step(k, HandleOf(s, call.handle), s.store, call.input);
    assert forall n: nat :: HandleOf(t, n) == if n == call.handle then o.h else HandleOf(s, n);
  }

  /** Whatever was called: all pairs were together all the time exactly if no call ever overwrote one. */
  lemma {:induction false} RunKeepsTogether(k: Crypto, calls: seq<Call>)
    requires FixedLength(k) && SizedCalls(calls)
    ensures AlwaysTogether(k, calls) <==> NeverOverwritten(k, calls)
  {
    hide Serve, ServiceTogether, Overwrites;
    if calls == [] {
      EmptyTogether(k);
    } else {
      var init, last := calls[..|calls| - 1], calls[|calls| - 1];
      assert last in calls;
      RunKeepsTogether(k, init);
      if AlwaysTogether(k, init) {
        ServeKeepsTogether(k, Served(k, init), last);
      }
    }
  }

  /** In every reachable state, secret keys have 64 bytes. */
  lemma {:induction false} RunKeepsSizes(k: Crypto, calls: seq<Call>, n: nat)
    requires FixedLength(k) && SizedCalls(calls)
    ensures SecretsSized(HandleOf(Served(k, calls), n), Served(k, calls).store)
  {
    if calls != [] {
      var init, last := calls[..|calls| - 1], calls[|calls| - 1];
      assert last in calls;
      var s := Served(k, init);
      RunKeepsSizes(k, init, n);
      RunKeepsSizes(k, init, last.handle);
      hide Step, SecretSized;
      StepKeepsSizes(k, HandleOf(s, last.handle), s.store, last.input);
    }
  }

  /**
  Agreement in every reachable state: after any calls to any handles, a handshake of any handle with an
  honest client makes both sides agree, and the client accepts the server if no call overwrote a key.
  */
  lemma ReachableHandshake(k: Crypto, calls: seq<Call>, n: nat, m: Message, e1: Env, e2: Env, e3: Env, c: Client)
    requires Lawful(k) && FixedLength(k) && SizedCalls(calls) && Possible(k, m, e1, e2, e3, c)
    ensures var s := Served(k, calls);
            var run := Handshake(k, HandleOf(s, n), s.store, m, e1, e2, e3, c);
            && run.Just? && Agreed(k, run.value, HandleOf(s, n), s.store, m, e1, e3, c)
            && (NeverOverwritten(k, calls) ==>
                AcceptsServer(k, c, run.value.offer, e1.params.value.selfAuthId, run.value.o3.events[0].m))
  {
    var s := Served(k, calls);
    RunKeepsSizes(k, calls, n);
    RunKeepsTogether(k, calls);
    hide NeverOverwritten, Served, OnReceive, AcceptsServer, Together, Handshake, Lawful, FixedLength;
    HonestHandshake(k, HandleOf(s, n), s.store, m, e1, e2, e3, c);
  }

  /**
  A client may call itself by the server's own id: its honest handshake with a new handle on an empty
  store completes, and leaves the server's secret key beside the client's public key.
  */
  lemma OwnIdHandshake(k: Crypto, m: Message, e1: Env, e2: Env, e3: Env, c: Client)
    requires Lawful(k) && FixedLength(k) && Possible(k, m, e1, e2, e3, c)
    requires c.id == e1.params.value.selfAuthId && k.publicKey(c.ltSecret) != k.publicKey(e3.ltSecret)
    ensures var run := Handshake(k, NEW_HANDLE, map[], m, e1, e2, e3, c);
            && run.Just? && run.value.o3.ok && run.value.o3.h.state == Completed
            && var store := run.value.o3.store;
               && c.id in store && store[c.id] == Entry(k.publicKey(c.ltSecret), e3.ltSecret)
               && !StoreTogether(k, store) && !KeysMatch(k, NEW_HANDLE.(selfAuthId := c.id), store)
  {
    HonestHandshake(k, NEW_HANDLE, map[], m, e1, e2, e3, c);
    hide OnReceive, AcceptsServer, SignatureVerifies, Handshake, Lawful, FixedLength, OwnPair;
  }
}
