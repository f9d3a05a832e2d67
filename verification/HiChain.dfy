/** The server's handle object: its fields are updated step by step; each call reaches the outcome that Pake states. */
module HiChain {
  import opened Wrappers
  import opened Pake

  /** What all handles share: the key store, and the record of the callbacks made. */
  class World {
    var store: Store
    var trace: seq<Event>

    constructor ()
      ensures store == map[] && trace == []
    {
      store, trace := map[], [];
    }
  }

  class HiChainHandle {
    const crypto: Crypto
    const world: World
    var state: State
    var sessionKey: Data
    var peerAuthId: Data
    var selfAuthId: Data
    var ourChallenge: Data
    var peerChallenge: Data
    var requestId: Data
    var pakeBase: Data
    var pakeSalt: Data
    var pakeEsk: Data
    var pakeEpk: Data
    var pakePeerEpk: Data
    var pakeSharedSec: Data
    var longTermPrivateKey: Data
    var longTermPublicKey: Data

    ghost function View(): Handle
      reads this
    {
      Handle(state, sessionKey, peerAuthId, selfAuthId, ourChallenge, peerChallenge, requestId,
             pakeBase, pakeSalt, pakeEsk, pakeEpk, pakePeerEpk, pakeSharedSec, longTermPrivateKey, longTermPublicKey)
    }

    /** The call ended as the outcome says: same fields, same store, same callbacks after those made before. */
    ghost predicate Reached(o: Outcome, before: seq<Event>, ok: bool)
      reads this, world
    {
      View() == o.h && world.store == o.store && world.trace == before + o.events && ok == o.ok
    }

    constructor (crypto: Crypto, world: World)
      ensures View() == NEW_HANDLE && this.crypto == crypto && this.world == world
    {
      this.crypto, this.world, state := crypto, world, Init;
      sessionKey, peerAuthId, selfAuthId, ourChallenge, peerChallenge, requestId := [], [], [], [], [], [];
      pakeBase, pakeSalt, pakeEsk, pakeEpk, pakePeerEpk, pakeSharedSec := [], [], [], [], [], [];
      longTermPrivateKey, longTermPublicKey := [], [];
    }

    method Call(event: Event)
      modifies world`trace
      ensures world.trace == old(world.trace) + [event]
    {
      world.trace := world.trace + [event];
    }

    method StartAuth(e: Env) returns (ok: bool)
      modifies this, world
      ensures Reached(OnStart(old(View()), old(world.store), e), old(world.trace), ok)
    {
      if state != Init || e.params.Nothing? { return false; }
      selfAuthId := e.params.value.selfAuthId;
      peerAuthId := e.params.value.peerAuthId;
      ourChallenge := e.firstChallenge;
      Call(Transmit(Bare(PAKE_REQUEST, [], Nothing).(authId := selfAuthId, challenge := Hex(ourChallenge))));
      if !e.sendOk { return false; }
      state := Started;
      return true;
    }

    method HandleAuthStart(m: Message, e: Env) returns (ok: bool)
      modifies this, world
      ensures Reached(OnPakeRequest(crypto, old(View()), old(world.store), m, e), old(world.trace), ok)
    {
      hide DrawKeys, PakeResponse, Introduced;
      assert world.trace + [] == world.trace;
      Introduce(m);
      ghost var h1 := View();
      if e.params.Nothing? { return false; }
      selfAuthId := e.params.value.selfAuthId;
      assert View() == h1.(selfAuthId := selfAuthId);
      if selfAuthId == [] { return false; }
      var drawn := DrawKeyPair(e.params.value.pin, e);
      if !drawn { return false; }
      Respond(m);
      if !e.sendOk { return false; }
      ghost var h3 := View();
      state := Authenticating;
      assert View() == h3.(state := Authenticating);
      return true;
    }

    method DrawKeyPair(pin: Data, e: Env) returns (drawn: bool)
      modifies this
      ensures (View(), drawn) == DrawKeys(crypto, old(View()), pin, e)
    {
      pakeSalt := e.salt;
      pakeBase := SpekeBase(crypto, pin, pakeSalt);
      var epkSelf := X25519(crypto, e.esk, pakeBase);
      if epkSelf.Nothing? { return false; }
      pakeEsk := e.esk;
      pakeEpk := epkSelf.value;
      ourChallenge := e.challenge;
      return true;
    }

    method Introduce(m: Message)
      modifies this`requestId, this`peerAuthId
      ensures View() == Introduced(old(View()), m)
    {
      requestId := m.requestId;
      if m.connDeviceId != [] {
        peerAuthId := m.connDeviceId;
      } else if m.peerDeviceId != [] {
        peerAuthId := m.peerDeviceId;
      }
    }

    /** The answer to a PAKE request echoes the client's version, or states the default one. */
    method Respond(m: Message)
      modifies world`trace
      ensures world.trace == old(world.trace) + [Transmit(PakeResponse(View(), m))]
    {
      var version := DEFAULT_VERSION;
      if m.payload.Just? && m.payload.value.version.Just? {
        version := m.payload.value.version.value;
      }
      Call(Transmit(Bare(PAKE_RESPONSE, requestId,
                         Just(NO_PAYLOAD.(salt := Hex(pakeSalt), epk := Hex(pakeEpk),
                                          challenge := Hex(ourChallenge), version := Just(version))))));
    }

    method HandleAuthChallenge(m: Message, e: Env) returns (ok: bool)
      requires FixedLength(crypto)
      modifies this, world
      ensures Reached(OnClientConfirm(crypto, old(View()), old(world.store), m, e), old(world.trace), ok)
    {
      hide Derive, KcfData, ServerConfirm;
      assert world.trace + [] == world.trace;
      if m.payload.Nothing? { return false; }
      var p := m.payload.value;
      var derived := DeriveKeys(p);
      if derived.Nothing? { return false; }
      var unionKey := derived.value;
      var hmacKey := unionKey[16..48];
      if p.kcfData.BadHex? { return false; }
      var expected := KcfData(crypto, hmacKey, ourChallenge, peerChallenge, false);
      var matches := SameBytes(expected, p.kcfData.bytes);
      if !matches { return false; }
      Call(SetSessionKey(unionKey[0..16], |unionKey[0..16]|));
      SendServerConfirm(unionKey, hmacKey);
      if !e.sendOk { return false; }
      ghost var h1 := View();
      state := Authenticating;
      assert View() == h1.(state := Authenticating);
      return true;
    }

    method DeriveKeys(p: Payload) returns (union: Maybe<Data>)
      requires FixedLength(crypto)
      modifies this
      ensures (View(), union) == Derive(crypto, old(View()), p)
      ensures union.Just? ==> |union.value| == 48
    {
      if p.epk.BadHex? { return Nothing; }
      pakePeerEpk := p.epk.bytes;
      if p.challenge.BadHex? { return Nothing; }
      peerChallenge := p.challenge.bytes;
      var sharedSecret := X25519(crypto, pakeEsk, pakePeerEpk);
      if sharedSecret.Nothing? { return Nothing; }
      pakeSharedSec := sharedSecret.value;
      var unionKey := UnionKey(crypto, pakeSharedSec, pakeSalt);
      sessionKey := unionKey[0..16];
      return Just(unionKey);
    }

    method SendServerConfirm(unionKey: Data, hmacKey: Data)
      requires |unionKey| == 48 && hmacKey == HmacPart(unionKey)
      modifies world`trace
      ensures world.trace == old(world.trace) + [Transmit(ServerConfirm(crypto, View(), unionKey))]
    {
      var serverKcfData := KcfData(crypto, hmacKey, ourChallenge, peerChallenge, true);
      Call(Transmit(Bare(SERVER_CONFIRM, requestId, Just(NO_PAYLOAD.(kcfData := Hex(serverKcfData))))));
    }

    method HandleAuthConfirm(m: Message) returns (ok: bool)
      modifies this, world
      ensures Reached(OnAuthConfirm(old(View()), old(world.store), m), old(world.trace), ok)
    {
      if m.result == HC_OK {
        state := Completed;
        Call(SetServiceResult(HC_OK));
      } else {
        state := Failed;
        Call(SetServiceResult(HC_AUTH_FAILED));
      }
      return true;
    }

    method HandleExchangeRequest(m: Message, e: Env) returns (ok: bool)
      requires WellSized(e)
      modifies this, world
      ensures Reached(OnExchangeRequest(crypto, old(View()), old(world.store), m, e), old(world.trace), ok)
    {
      hide Reached;
      var x := ParseExchange(m);
      if x.Invalid? {
        Unchanged(m, e);
        return false;
      }
      ok := AnswerExchange(m, x, e);
    }

    /** Decryption and parsing of the client's part; nothing is changed yet. */
    method ParseExchange(m: Message) returns (x: Exchange)
      ensures x == OpenExchange(crypto, View(), m)
    {
      if m.payload.Nothing? || m.payload.value.exAuthInfo == Hex([]) { return Invalid; }
      if m.payload.value.exAuthInfo.BadHex? { return Invalid; }
      var exAuthInfo := m.payload.value.exAuthInfo.bytes;
      if |exAuthInfo| < 12 { return Invalid; }
      var plaintext := Decrypt(crypto, sessionKey, exAuthInfo[..12], exAuthInfo[12..], REQUEST_LABEL);
      if plaintext.Nothing? || |plaintext.value| < 64 { return Invalid; }
      var infoLen := |plaintext.value| - 64;
      var info := plaintext.value[..infoLen];
      var decoded := crypto.decodeInfo(Clean(info));
      if decoded.Nothing? || decoded.value.authPk.Nothing? { return Invalid; }
      var clientPublicKey := decoded.value.authPk.value;
      if clientPublicKey.BadHex? || |clientPublicKey.bytes| != 32 { return Invalid; }
      return Exchange(info, plaintext.value[infoLen..], clientPublicKey.bytes, decoded.value.authId);
    }

    lemma Unchanged(m: Message, e: Env)
      requires WellSized(e) && OpenExchange(crypto, View(), m).Invalid?
      ensures Reached(OnExchangeRequest(crypto, View(), world.store, m, e), world.trace, false)
    {
      assert world.trace + [] == world.trace;
    }

    /** Signature check, key loading, the sealed answer, and the bookkeeping of success. */
    method AnswerExchange(m: Message, x: Exchange, e: Env) returns (ok: bool)
      requires WellSized(e) && x == OpenExchange(crypto, View(), m) && x.Exchange?
      modifies this, world
      ensures Reached(OnExchangeRequest(crypto, old(View()), old(world.store), m, e), old(world.trace), ok)
    {
      hide OpenExchange, Verify, LoadKeys, ServerText, Encrypt, ExchangeResponse;
      assert world.trace + [] == world.trace;
      ghost var h := View();
      var clientDeviceId := [];
      if x.authId.Hex? {
        clientDeviceId := x.authId.bytes;
        peerAuthId := clientDeviceId;
      }
      assert View() == if x.authId.Hex? then h.(peerAuthId := x.authId.bytes) else h;
      if !Verify(crypto, x.publicKey, peerChallenge + ourChallenge + x.info, x.signature) { return false; }
      LoadLongTermKeys(e);
      if |longTermPrivateKey| != 64 { return false; }
      var serverCipher := SealServerText(e);
      if serverCipher.Nothing? { return false; }
      SendExchangeResponse(clientDeviceId, e.nonce + serverCipher.value);
      if !e.sendOk { return false; }
      Finish(x.publicKey);
      return true;
    }

    method Finish(clientPublicKey: Data)
      modifies this`state, world
      ensures View() == old(View()).(state := Completed)
      ensures world.store == SavePeer(old(world.store), peerAuthId, clientPublicKey)
      ensures world.trace == old(world.trace) + [SetServiceResult(HC_OK)]
    {
      world.store := SavePeer(world.store, peerAuthId, clientPublicKey);
      state := Completed;
      Call(SetServiceResult(HC_OK));
    }

    method LoadLongTermKeys(e: Env)
      modifies this`longTermPrivateKey, this`longTermPublicKey, world`store
      ensures (View(), world.store) == LoadKeys(crypto, old(View()), old(world.store), e)
    {
      if |longTermPrivateKey| == 0 {
        if selfAuthId in world.store && world.store[selfAuthId].secretKey != [] {
          longTermPrivateKey := world.store[selfAuthId].secretKey;
          longTermPublicKey := world.store[selfAuthId].publicKey;
        } else {
          longTermPrivateKey := e.ltSecret;
          longTermPublicKey := crypto.publicKey(e.ltSecret);
          world.store := SaveLocal(world.store, selfAuthId, longTermPrivateKey, longTermPublicKey);
        }
      }
    }

    method SealServerText(e: Env) returns (cipher: Maybe<Data>)
      requires WellSized(e)
      ensures cipher == Encrypt(crypto, View().sessionKey, e.nonce, ServerText(crypto, View()), RESPONSE_LABEL)
    {
      var serverInfo := crypto.encodeInfo(selfAuthId, longTermPublicKey);
      var serverSignature := crypto.sign(longTermPrivateKey, ourChallenge + peerChallenge + serverInfo);
      cipher := Encrypt(crypto, sessionKey, e.nonce, serverInfo + serverSignature, RESPONSE_LABEL);
    }

    method SendExchangeResponse(clientDeviceId: Data, exAuthInfo: Data)
      modifies world`trace
      ensures world.trace == old(world.trace) + [Transmit(ExchangeResponse(View(), clientDeviceId, exAuthInfo))]
    {
      var response := Bare(EXCHANGE_RESPONSE, requestId, Just(NO_PAYLOAD.(exAuthInfo := Hex(exAuthInfo))));
      Call(Transmit(response.(peerDeviceId := selfAuthId, peerAuthId := selfAuthId,
                              connDeviceId := clientDeviceId, peerUdid := clientDeviceId)));
    }

    method ReceiveData(input: Maybe<Message>, e: Env) returns (ok: bool)
      requires WellSized(e) && FixedLength(crypto)
      modifies this, world
      ensures Reached(OnReceive(crypto, old(View()), old(world.store), input, e), old(world.trace), ok)
    {
      hide OnPakeRequest, OnClientConfirm, OnExchangeRequest, OnAuthConfirm;
      if input.Nothing? { return false; }
      var m := input.value;
      if m.kind == PAKE_REQUEST {
        ok := HandleAuthStart(m, e);
      } else if m.kind == CLIENT_CONFIRM {
        ok := HandleAuthChallenge(m, e);
      } else if m.kind == EXCHANGE_REQUEST {
        if m.payload.Nothing? { return false; }
        ok := HandleExchangeRequest(m, e);
      } else if m.kind == AUTH_CONFIRM {
        ok := HandleAuthConfirm(m);
      } else if m.kind == PAKE_RESPONSE {
        ok := HandleAuthChallenge(m, e);
      } else if m.kind == SERVER_CONFIRM {
        ok := HandleAuthConfirm(m);
      } else if m.kind == ERROR_MESSAGE {
        state := Failed;
        Call(SetServiceResult(HC_AUTH_FAILED));
        return false;
      } else {
        return false;
      }
    }
  }

  /** The byte-by-byte comparison of two proofs. */
  method SameBytes(a: Data, b: Data) returns (same: bool)
    ensures same <==> a == b
  {
    if |a| != |b| { return false; }
    for i := 0 to |a|
      invariant a[..i] == b[..i]
    {
      if a[i] != b[i] { return false; }
    }
    return true;
  }
}
