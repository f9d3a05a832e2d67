/**
The key agreement behind device authentication (PAKE V1, EC-SPEKE over X25519) as
the server runs it: one outcome for every handle state and every incoming message.
Cryptographic primitives are functions of which only their correctness laws are used.
*/
module Pake {
  import Bytes
  import opened Wrappers

  type Data = seq<Bytes.byte>

  // ------------------------------------------------------------- primitives

  datatype AuthInfo = AuthInfo(authPk: Maybe<Hex>, authId: Hex)

  /** Text that should be hexadecimal, decoded; the empty text decodes to no bytes. */
  datatype Hex = BadHex | Hex(bytes: Data)

  datatype Crypto = Crypto(
    hkdf: (Data, Data, Data, nat) -> Data,              // secret, salt, info, length
    elligator: Data -> Data,
    x25519: (Data, Data) -> Maybe<Data>,                // scalar, point; fails on low-order points
    hmac: (Data, Data) -> Data,                         // key, message
    seal: (Data, Data, Data, Data) -> Data,             // key, nonce, text, associated data
    open: (Data, Data, Data, Data) -> Maybe<Data>,
    publicKey: Data -> Data,
    sign: (Data, Data) -> Data,                         // private key, message
    verify: (Data, Data, Data) -> bool,                 // public key, message, signature
    encodeInfo: (Data, Data) -> Data,                   // device id, public key
    decodeInfo: Data -> Maybe<AuthInfo>)

  ghost predicate Lawful(k: Crypto) {
    && (forall secret, salt, info, n :: |k.hkdf(secret, salt, info, n)| == n)
    && (forall s | |s| == 32 :: |k.elligator(s)| == 32)
    && (forall a, g | k.x25519(a, g).Just? :: |k.x25519(a, g).value| == 32)
    && (forall a, b, g | k.x25519(a, g).Just? && k.x25519(b, g).Just? ::
          && k.x25519(a, k.x25519(b, g).value).Just?
          && k.x25519(a, k.x25519(b, g).value) == k.x25519(b, k.x25519(a, g).value))
    && (forall key, n, m, ad :: k.open(key, n, k.seal(key, n, m, ad), ad) == Just(m))
    && (forall sk, m | |sk| == 64 :: |k.sign(sk, m)| == 64 && |k.publicKey(sk)| == 32)
    && (forall sk, m | |sk| == 64 :: k.verify(k.publicKey(sk), m, k.sign(sk, m)))
    && (forall id, pk :: k.decodeInfo(Clean(k.encodeInfo(id, pk))) == Just(AuthInfo(Just(Hex(pk)), Hex(id))))
  }

  /** Cuts a text at its first NUL. */
  function Clean(s: Data): Data {
    if s == [] || s[0] == 0 then [] else [s[0]] + Clean(s[1..])
  }

  lemma {:induction false} CleanExactly(s: Data)
    ensures Clean(s) <= s && 0 !in Clean(s) && (|Clean(s)| < |s| ==> s[|Clean(s)|] == 0)
  {
    if s != [] && s[0] != 0 {
      CleanExactly(s[1..]);
      assert s == [s[0]] + s[1..];
    }
  }

  const BASE_INFO := Bytes.Ascii("hichain_speke_base_info")
  const SESSION_INFO := Bytes.Ascii("hichain_speke_sessionkey_info")
  const REQUEST_LABEL := Bytes.Ascii("hichain_exchange_request")
  const RESPONSE_LABEL := Bytes.Ascii("hichain_exchange_response")
  const DEFAULT_PIN := Bytes.Ascii("888888")

  // -------------------------------------------------------------- formulas

  function Pin(pin: Data): Data {
    if pin == [] then DEFAULT_PIN else pin
  }

  function SpekeBase(k: Crypto, pin: Data, salt: Data): Data {
    k.elligator(k.hkdf(Pin(pin), salt, BASE_INFO, 32))
  }

  function X25519(k: Crypto, scalar: Data, point: Data): Maybe<Data> {
    if |scalar| != 32 || |point| != 32 then Nothing else k.x25519(scalar, point)
  }

  function UnionKey(k: Crypto, shared: Data, salt: Data): Data {
    k.hkdf(shared, salt, SESSION_INFO, 48)
  }

  ghost predicate FixedLength(k: Crypto) {
    forall shared, salt :: |UnionKey(k, shared, salt)| == 48
  }

  function SessionPart(union: Data): Data
    requires |union| == 48
  {
    union[0..16]
  }

  function HmacPart(union: Data): Data
    requires |union| == 48
  {
    union[16..48]
  }

  /** Key confirmation: own challenge first in one's own proof, the peer's first when checking the peer's. */
  function KcfData(k: Crypto, hmacKey: Data, self: Data, peer: Data, generate: bool): Data {
    k.hmac(hmacKey, if generate then self + peer else peer + self)
  }

  function Encrypt(k: Crypto, key: Data, nonce: Data, text: Data, tag: Data): Maybe<Data>
    requires |nonce| == 12
  {
    if |key| != 16 && |key| != 32 then Nothing else Just(k.seal(key, nonce, text, tag))
  }

  function Decrypt(k: Crypto, key: Data, nonce: Data, cipher: Data, tag: Data): Maybe<Data>
    requires |nonce| == 12
  {
    if |key| != 16 && |key| != 32 then Nothing else k.open(key, nonce, cipher, tag)
  }

  function Verify(k: Crypto, pk: Data, m: Data, signature: Data): bool {
    |pk| == 32 && |signature| == 64 && k.verify(pk, m, signature)
  }

  // --------------------------------------------------------------- messages

  const PAKE_REQUEST := 1
  const PAKE_RESPONSE := 0x8001
  const CLIENT_CONFIRM := 2
  const SERVER_CONFIRM := 0x8002
  const EXCHANGE_REQUEST := 3
  const EXCHANGE_RESPONSE := 0x8003
  const AUTH_CONFIRM := 4
  const ERROR_MESSAGE := 0x8080

  const HC_OK := 0
  const HC_AUTH_FAILED := -3

  datatype Version = Version(minVersion: Data, currentVersion: Data)

  const DEFAULT_VERSION := Version(Bytes.Ascii("1.0.0"), Bytes.Ascii("2.0.26"))

  datatype Payload = Payload(salt: Hex, epk: Hex, challenge: Hex, kcfData: Hex, exAuthInfo: Hex,
                             version: Maybe<Version>)

  const NO_PAYLOAD := Payload(Hex([]), Hex([]), Hex([]), Hex([]), Hex([]), Nothing)

  /** A message; ids and texts are bytes, an absent text is empty. */
  datatype Message = Message(kind: int, requestId: Data, payload: Maybe<Payload>,
                             peerDeviceId: Data, peerAuthId: Data, connDeviceId: Data, peerUdid: Data,
                             authId: Data, challenge: Hex, result: int)

  function Bare(kind: int, requestId: Data, payload: Maybe<Payload>): Message {
    Message(kind, requestId, payload, [], [], [], [], [], Hex([]), 0)
  }

  // ------------------------------------------------------------------ state

  datatype State = Init | Started | Authenticating | Completed | Failed

  datatype Handle = Handle(
    state: State, sessionKey: Data, peerAuthId: Data, selfAuthId: Data,
    ourChallenge: Data, peerChallenge: Data, requestId: Data,
    base: Data, salt: Data, esk: Data, epk: Data, peerEpk: Data, shared: Data,
    ltSecret: Data, ltPublic: Data)

  const NEW_HANDLE := Handle(Init, [], [], [], [], [], [], [], [], [], [], [], [], [], [])

  /** The in-memory key store; an entry without a private key belongs to a peer. */
  datatype Entry = Entry(publicKey: Data, secretKey: Data)
  type Store = map<Data, Entry>

  function SavePeer(store: Store, id: Data, publicKey: Data): Store {
    store[id := Entry(publicKey, if id in store then store[id].secretKey else [])]
  }

  function SaveLocal(store: Store, id: Data, secretKey: Data, publicKey: Data): Store {
    store[id := Entry(publicKey, secretKey)]
  }

  datatype Event =
    | Transmit(m: Message)
    | SetSessionKey(key: Data, length: int)
    | SetServiceResult(code: int)

  datatype Params = Params(selfAuthId: Data, peerAuthId: Data, pin: Data)

  /** What the callbacks and the random source answer while one message is handled. */
  datatype Env = Env(params: Maybe<Params>, sendOk: bool, salt: Data, esk: Data, challenge: Data, firstChallenge: Data,
                     nonce: Data, ltSecret: Data)

  predicate WellSized(e: Env) {
    && |e.salt| == 16 && |e.esk| == 32 && |e.challenge| == 16 && |e.firstChallenge| == 32
    && |e.nonce| == 12 && |e.ltSecret| == 64
  }

  datatype Outcome = Outcome(h: Handle, store: Store, events: seq<Event>, ok: bool)

  // ---------------------------------------------------------------- handlers

  function OnStart(h: Handle, store: Store, e: Env): Outcome {
    if h.state != Init || e.params.Nothing? then Outcome(h, store, [], false)
    else
      var p := e.params.value;
      var h1 := h.(selfAuthId := p.selfAuthId, peerAuthId := p.peerAuthId, ourChallenge := e.firstChallenge);
      var m := Bare(PAKE_REQUEST, [], Nothing).(authId := p.selfAuthId, challenge := Hex(e.firstChallenge));
      Outcome(if e.sendOk then h1.(state := Started) else h1, store, [Transmit(m)], e.sendOk)
  }

  function PakeResponse(h: Handle, m: Message): Message {
    var version := if m.payload.Just? && m.payload.value.version.Just? then m.payload.value.version
                   else Just(DEFAULT_VERSION);
    Bare(PAKE_RESPONSE, h.requestId,
         Just(NO_PAYLOAD.(salt := Hex(h.salt), epk := Hex(h.epk),
                          challenge := Hex(h.ourChallenge), version := version)))
  }

  function Introduced(h: Handle, m: Message): Handle {
    h.(requestId := m.requestId,
       peerAuthId := if m.connDeviceId != [] then m.connDeviceId
                     else if m.peerDeviceId != [] then m.peerDeviceId else h.peerAuthId)
  }

  /** New salt, base, ephemeral key pair and challenge; without a public key only salt and base have changed. */
  function DrawKeys(k: Crypto, h: Handle, pin: Data, e: Env): (Handle, bool) {
    var base := SpekeBase(k, pin, e.salt);
    var h1 := h.(salt := e.salt, base := base);
    match X25519(k, e.esk, base)
    case Nothing => (h1, false)
    case Just(epk) => (h1.(esk := e.esk, epk := epk, ourChallenge := e.challenge), true)
  }

  function OnPakeRequest(k: Crypto, h: Handle, store: Store, m: Message, e: Env): Outcome {
    var h1 := Introduced(h, m);
    if e.params.Nothing? then Outcome(h1, store, [], false)
    else
      var h2 := h1.(selfAuthId := e.params.value.selfAuthId);
      if h2.selfAuthId == [] then Outcome(h2, store, [], false)
      else
        var (h3, drawn) := DrawKeys(k, h2, e.params.value.pin, e);
        if !drawn then Outcome(h3, store, [], false)
        else
          Outcome(if e.sendOk then h3.(state := Authenticating) else h3, store,
                  [Transmit(PakeResponse(h3, m))], e.sendOk)
  }

  function ServerConfirm(k: Crypto, h: Handle, union: Data): Message
    requires |union| == 48
  {
    var proof := KcfData(k, HmacPart(union), h.ourChallenge, h.peerChallenge, true);
    Bare(SERVER_CONFIRM, h.requestId, Just(NO_PAYLOAD.(kcfData := Hex(proof))))
  }

  /** The client's key and challenge are taken over, and the 48 key bytes derived if they can be. */
  function Derive(k: Crypto, h: Handle, p: Payload): (Handle, Maybe<Data>)
    requires FixedLength(k)
  {
    if p.epk.BadHex? then (h, Nothing)
    else
      var h1 := h.(peerEpk := p.epk.bytes);
      if p.challenge.BadHex? then (h1, Nothing)
      else
        var h2 := h1.(peerChallenge := p.challenge.bytes);
        match X25519(k, h.esk, p.epk.bytes)
        case Nothing => (h2, Nothing)
        case Just(shared) =>
          var union := UnionKey(k, shared, h.salt);
          (h2.(shared := shared, sessionKey := SessionPart(union)), Just(union))
  }

  function OnClientConfirm(k: Crypto, h: Handle, store: Store, m: Message, e: Env): Outcome
    requires FixedLength(k)
  {
    if m.payload.Nothing? then Outcome(h, store, [], false)
    else
      var (h1, derived) := Derive(k, h, m.payload.value);
      if derived.Nothing? then Outcome(h1, store, [], false)
      else
        var union := derived.value;
        if m.payload.value.kcfData != Hex(KcfData(k, HmacPart(union), h1.ourChallenge, h1.peerChallenge, false))
        then Outcome(h1, store, [], false)
        else
          Outcome(if e.sendOk then h1.(state := Authenticating) else h1, store,
                  [SetSessionKey(SessionPart(union), 16), Transmit(ServerConfirm(k, h1, union))], e.sendOk)
  }

  function OnAuthConfirm(h: Handle, store: Store, m: Message): Outcome {
    if m.result == HC_OK then Outcome(h.(state := Completed), store, [SetServiceResult(HC_OK)], true)
    else Outcome(h.(state := Failed), store, [SetServiceResult(HC_AUTH_FAILED)], true)
  }

  /** What a valid exchange request says. */
  datatype Exchange = Invalid | Exchange(info: Data, signature: Data, publicKey: Data, authId: Hex)

  function OpenExchange(k: Crypto, h: Handle, m: Message): Exchange {
    if m.payload.Nothing? || m.payload.value.exAuthInfo.BadHex? || |m.payload.value.exAuthInfo.bytes| < 12 then Invalid
    else
      var ex := m.payload.value.exAuthInfo.bytes;
      match Decrypt(k, h.sessionKey, ex[..12], ex[12..], REQUEST_LABEL)
      case Nothing => Invalid
      case Just(text) =>
        if |text| < 64 then Invalid
        else
          var info := text[..|text| - 64];
          match k.decodeInfo(Clean(info))
          case Nothing => Invalid
          case Just(ai) =>
            if ai.authPk.Nothing? || ai.authPk.value.BadHex? || |ai.authPk.value.bytes| != 32 then Invalid
            else Exchange(info, text[|text| - 64..], ai.authPk.value.bytes, ai.authId)
  }

  /** The handle's long-term key pair: its own, else the stored one, else a new one that is stored. */
  function LoadKeys(k: Crypto, h: Handle, store: Store, e: Env): (Handle, Store) {
    if h.ltSecret != [] then (h, store)
    else if h.selfAuthId in store && store[h.selfAuthId].secretKey != [] then
      (h.(ltSecret := store[h.selfAuthId].secretKey, ltPublic := store[h.selfAuthId].publicKey), store)
    else
      (h.(ltSecret := e.ltSecret, ltPublic := k.publicKey(e.ltSecret)),
       SaveLocal(store, h.selfAuthId, e.ltSecret, k.publicKey(e.ltSecret)))
  }

  function ExchangeResponse(h: Handle, clientId: Data, ex: Data): Message {
    Bare(EXCHANGE_RESPONSE, h.requestId, Just(NO_PAYLOAD.(exAuthInfo := Hex(ex)))).(
      peerDeviceId := h.selfAuthId, peerAuthId := h.selfAuthId, connDeviceId := clientId, peerUdid := clientId)
  }

  /** The server's plaintext: its info and its signature over both challenges, its own first, and the info. */
  function ServerText(k: Crypto, h: Handle): Data {
    var info := k.encodeInfo(h.selfAuthId, h.ltPublic);
    info + k.sign(h.ltSecret, h.ourChallenge + h.peerChallenge + info)
  }

  function OnExchangeRequest(k: Crypto, h: Handle, store: Store, m: Message, e: Env): Outcome
    requires WellSized(e)
  {
    match OpenExchange(k, h, m)
    case Invalid => Outcome(h, store, [], false)
    case Exchange(info, signature, publicKey, authId) =>
      var h1 := if authId.Hex? then h.(peerAuthId := authId.bytes) else h;
      var clientId := if authId.Hex? then authId.bytes else [];
      if !Verify(k, publicKey, h.peerChallenge + h.ourChallenge + info, signature) then Outcome(h1, store, [], false)
      else
        var (h2, store2) := LoadKeys(k, h1, store, e);
        if |h2.ltSecret| != 64 then Outcome(h2, store2, [], false)
        else
          match Encrypt(k, h2.sessionKey, e.nonce, ServerText(k, h2), RESPONSE_LABEL)
          case Nothing => Outcome(h2, store2, [], false)
          case Just(cipher) =>
            var sent := [Transmit(ExchangeResponse(h2, clientId, e.nonce + cipher))];
            if !e.sendOk then Outcome(h2, store2, sent, false)
            else
              Outcome(h2.(state := Completed), SavePeer(store2, h2.peerAuthId, publicKey),
                      sent + [SetServiceResult(HC_OK)], true)
  }

  /** Nothing stands for bytes that are not a message. */
  function OnReceive(k: Crypto, h: Handle, store: Store, input: Maybe<Message>, e: Env): Outcome
    requires WellSized(e)
    requires FixedLength(k)
  {
    if input.Nothing? then Outcome(h, store, [], false)
    else
      var m := input.value;
      if m.kind == PAKE_REQUEST then OnPakeRequest(k, h, store, m, e)
      else if m.kind == CLIENT_CONFIRM || m.kind == PAKE_RESPONSE then OnClientConfirm(k, h, store, m, e)
      else if m.kind == EXCHANGE_REQUEST then
        if m.payload.Just? then OnExchangeRequest(k, h, store, m, e) else Outcome(h, store, [], false)
      else if m.kind == AUTH_CONFIRM || m.kind == SERVER_CONFIRM then OnAuthConfirm(h, store, m)
      else if m.kind == ERROR_MESSAGE then
        Outcome(h.(state := Failed), store, [SetServiceResult(HC_AUTH_FAILED)], false)
      else Outcome(h, store, [], false)
  }

  // ------------------------------------------------------------------- runs

  datatype Input = Start(e: Env) | Receive(m: Maybe<Message>, e: Env)

  predicate SizedInputs(inputs: seq<Input>) {
    forall i | i in inputs :: WellSized(i.e)
  }

  function Step(k: Crypto, h: Handle, store: Store, i: Input): Outcome
    requires WellSized(i.e)
    requires FixedLength(k)
  {
    match i
    case Start(e) => OnStart(h, store, e)
    case Receive(m, e) => OnReceive(k, h, store, m, e)
  }

  /** The outcome of the last of a sequence of inputs to a new handle. */
  function After(k: Crypto, store: Store, inputs: seq<Input>): Outcome
    requires SizedInputs(inputs)
    requires FixedLength(k)
  {
    if inputs == [] then Outcome(NEW_HANDLE, store, [], true)
    else
      var before := After(k, store, inputs[..|inputs| - 1]);
      Step(k, before.h, before.store, inputs[|inputs| - 1])
  }

  // ------------------------------------------------------- what a step changes

  // The conditions and values below are stated with the primitives, numbers and texts alone.

  /** A PAKE request that passes the checks and so gets a new salt and base point. */
  predicate DrawsSalt(i: Input) {
    && i.Receive? && i.m.Just? && i.m.value.kind == 1
    && i.e.params.Just? && i.e.params.value.selfAuthId != []
  }

  /** The base point: the map of 32 bytes derived from the PIN, or "888888" if there is none, and the salt. */
  function DrawnBase(k: Crypto, e: Env): Data
    requires e.params.Just?
  {
    var pin := if e.params.value.pin == [] then Bytes.Ascii("888888") else e.params.value.pin;
    k.elligator(k.hkdf(pin, e.salt, Bytes.Ascii("hichain_speke_base_info"), 32))
  }

  /** A PAKE request that goes on to a new key pair and challenge; no other is answered. */
  predicate DrawsKey(k: Crypto, i: Input) {
    && DrawsSalt(i) && |i.e.esk| == 32 && |DrawnBase(k, i.e)| == 32
    && k.x25519(i.e.esk, DrawnBase(k, i.e)).Just?
  }

  /** A PAKE request for which there is no public key: salt and base are new, key pair and challenge are not. */
  predicate Stuck(k: Crypto, i: Input) {
    DrawsSalt(i) && !DrawsKey(k, i)
  }

  /** A start that is carried out; it replaces the challenge. */
  predicate Starts(h: Handle, i: Input) {
    i.Start? && h.state == Init && i.e.params.Just?
  }

  predicate HasSalt(k: Crypto, h: Handle, e: Env) {
    e.params.Just? && h.salt == e.salt && h.base == DrawnBase(k, e)
  }

  predicate HasKey(k: Crypto, h: Handle, e: Env) {
    e.params.Just? && h.esk == e.esk && |h.esk| == 32 && k.x25519(e.esk, DrawnBase(k, e)) == Just(h.epk)
  }

  /** A confirmation from which a session key can be derived, whether its proof is right or not. */
  predicate Derives(k: Crypto, h: Handle, i: Input) {
    && i.Receive? && i.m.Just? && (i.m.value.kind == 2 || i.m.value.kind == 0x8001)
    && i.m.value.payload.Just?
    && var p := i.m.value.payload.value;
       && p.epk.Hex? && p.challenge.Hex? && |h.esk| == 32 && |p.epk.bytes| == 32
       && k.x25519(h.esk, p.epk.bytes).Just?
  }

  /** 48 bytes derived from the shared secret and the salt: 16 for the session key, 32 for the proofs. */
  function DerivedUnion(k: Crypto, h: Handle, i: Input): (union: Data)
    requires FixedLength(k) && Derives(k, h, i)
    ensures |union| == 48
  {
    UnionIsDerived(k, k.x25519(h.esk, i.m.value.payload.value.epk.bytes).value, h.salt);
    k.hkdf(k.x25519(h.esk, i.m.value.payload.value.epk.bytes).value, h.salt,
           Bytes.Ascii("hichain_speke_sessionkey_info"), 48)
  }

  function DerivedKey(k: Crypto, h: Handle, i: Input): (key: Data)
    requires FixedLength(k) && Derives(k, h, i)
    ensures |key| == 16
  {
    DerivedUnion(k, h, i)[0..16]
  }

  function ProofKey(k: Crypto, h: Handle, i: Input): (key: Data)
    requires FixedLength(k) && Derives(k, h, i)
    ensures |key| == 32
  {
    DerivedUnion(k, h, i)[16..48]
  }

  /** A confirmation whose proof was made with the derived key over both challenges, the client's first. */
  predicate Proven(k: Crypto, h: Handle, i: Input)
    requires FixedLength(k)
  {
    && Derives(k, h, i)
    && var p := i.m.value.payload.value;
       p.kcfData == Hex(k.hmac(ProofKey(k, h, i), p.challenge.bytes + h.ourChallenge))
  }

  /** The text that an exchange request holds under the session key: a nonce of 12 bytes, then what is sealed. */
  function ExchangeText(k: Crypto, h: Handle, m: Message): Maybe<Data> {
    if m.payload.Nothing? || m.payload.value.exAuthInfo.BadHex? || |m.payload.value.exAuthInfo.bytes| < 12
       || |h.sessionKey| !in {16, 32} then Nothing
    else
      var ex := m.payload.value.exAuthInfo.bytes;
      k.open(h.sessionKey, ex[..12], ex[12..], Bytes.Ascii("hichain_exchange_request"))
  }

  /** The identity in front of the last 64 bytes of a text. */
  function ClaimedInfo(k: Crypto, text: Data): Maybe<AuthInfo>
    requires |text| >= 64
  {
    k.decodeInfo(Clean(text[..|text| - 64]))
  }

  /** An exchange request whose text ends in the signature of the claimed key over both challenges and the rest. */
  predicate SignedExchange(k: Crypto, h: Handle, i: Input) {
    && i.Receive? && i.m.Just? && i.m.value.kind == 3
    && var text := ExchangeText(k, h, i.m.value);
       && text.Just? && |text.value| >= 64
       && var ai := ClaimedInfo(k, text.value);
          && ai.Just? && ai.value.authPk.Just? && ai.value.authPk.value.Hex? && |ai.value.authPk.value.bytes| == 32
          && var n := |text.value| - 64;
             k.verify(ai.value.authPk.value.bytes, h.peerChallenge + h.ourChallenge + text.value[..n], text.value[n..])
  }

  // ------------------------------------- the server's functions in these terms

  lemma UnionIsDerived(k: Crypto, shared: Data, salt: Data)
    requires FixedLength(k)
    ensures k.hkdf(shared, salt, Bytes.Ascii("hichain_speke_sessionkey_info"), 48) == UnionKey(k, shared, salt)
    ensures |UnionKey(k, shared, salt)| == 48
  {}

  lemma BaseIsDrawn(k: Crypto, e: Env)
    requires e.params.Just?
    ensures DrawnBase(k, e) == SpekeBase(k, e.params.value.pin, e.salt)
  {}

  lemma KeyIsDrawn(k: Crypto, i: Input)
    requires DrawsSalt(i)
    ensures DrawsKey(k, i) <==> X25519(k, i.e.esk, SpekeBase(k, i.e.params.value.pin, i.e.salt)).Just?
    ensures DrawsKey(k, i) ==>
              k.x25519(i.e.esk, DrawnBase(k, i.e)) == X25519(k, i.e.esk, SpekeBase(k, i.e.params.value.pin, i.e.salt))
  {
    BaseIsDrawn(k, i.e);
    hide SpekeBase, DrawnBase;
  }

  /** The parser of exchange requests accepts only a well-formed text, and the signature is checked over it. */
  lemma ExchangeIsOpened(k: Crypto, h: Handle, m: Message, e: Env)
    requires m.kind == 3
    ensures var x, text := OpenExchange(k, h, m), ExchangeText(k, h, m);
            && (x.Exchange? ==> text.Just? && |text.value| >= 64 && ClaimedInfo(k, text.value).Just?
                                && |h.sessionKey| in {16, 32}
                                && x.info == text.value[..|text.value| - 64]
                                && x.signature == text.value[|text.value| - 64..]
                                && x.authId == ClaimedInfo(k, text.value).value.authId
                                && ClaimedInfo(k, text.value).value.authPk == Just(Hex(x.publicKey)))
            && (SignedExchange(k, h, Receive(Just(m), e)) <==>
                x.Exchange? && Verify(k, x.publicKey, h.peerChallenge + h.ourChallenge + x.info, x.signature))
  {
    hide Clean;
  }

  /** Where salt, keys, challenge and session key of a handle come from. */
  ghost predicate Effect(k: Crypto, h: Handle, h': Handle, i: Input)
    requires FixedLength(k)
  {
    && (if DrawsSalt(i) then HasSalt(k, h', i.e) else h'.salt == h.salt && h'.base == h.base)
    && (if DrawsKey(k, i) then HasKey(k, h', i.e) else h'.esk == h.esk && h'.epk == h.epk)
    && h'.ourChallenge == (if DrawsKey(k, i) then i.e.challenge
                           else if Starts(h, i) then i.e.firstChallenge else h.ourChallenge)
    && h'.sessionKey == (if Derives(k, h, i) then DerivedKey(k, h, i) else h.sessionKey)
    && (h'.state == Init ==> h.state == Init && !(DrawsKey(k, i) && i.e.sendOk))
  }

  /** The key that the callbacks were told last. */
  function Told(before: Data, events: seq<Event>): Data
    decreases |events|
  {
    if events == [] then before
    else Told(if events[0].SetSessionKey? then events[0].key else before, events[1..])
  }

  /** A session key is told exactly when it was derived and proven. */
  ghost predicate Tells(k: Crypto, h: Handle, i: Input, events: seq<Event>)
    requires FixedLength(k)
  {
    forall before: Data :: Told(before, events) == if Proven(k, h, i) then DerivedKey(k, h, i) else before
  }

  /** The peer's word alone: a confirmation message, which carries no proof. */
  predicate Confirming(i: Input) {
    i.Receive? && i.m.Just? && (i.m.value.kind == 4 || i.m.value.kind == 0x8002)
  }

  /** What an event says about the state in which it happened. */
  ghost predicate Justified(k: Crypto, h: Handle, i: Input, event: Event)
    requires FixedLength(k)
  {
    match event
    case SetSessionKey(key, length) => Proven(k, h, i) && key == DerivedKey(k, h, i) && |key| == 16 == length
    case Transmit(m) =>
      && (m.kind == 0x8002 ==> Proven(k, h, i))
      && (m.kind == 0x8003 ==> h.sessionKey != [] && SignedExchange(k, h, i))
    case SetServiceResult(code) => code == 0 && !Confirming(i) ==> h.sessionKey != [] && SignedExchange(k, h, i)
  }

  ghost predicate Sound(k: Crypto, h: Handle, i: Input, o: Outcome)
    requires FixedLength(k)
  {
    Effect(k, h, o.h, i) && Tells(k, h, i, o.events) && forall event | event in o.events :: Justified(k, h, i, event)
  }

  lemma {:induction false} ToldNothing(before: Data, events: seq<Event>)
    requires forall event | event in events :: !event.SetSessionKey?
    ensures Told(before, events) == before
    decreases |events|
  {
    if events != [] {
      assert events[0] in events;
      ToldNothing(before, events[1..]);
    }
  }

  lemma TellsNothing(k: Crypto, h: Handle, i: Input, events: seq<Event>)
    requires FixedLength(k) && !Proven(k, h, i)
    requires forall event | event in events :: !event.SetSessionKey?
    ensures Tells(k, h, i, events)
  {
    hide Proven, Told;
    forall before: Data {
      ToldNothing(before, events);
    }
  }

  lemma TellsKey(k: Crypto, h: Handle, i: Input, events: seq<Event>)
    requires FixedLength(k) && Proven(k, h, i)
    requires |events| == 2 && events[0] == SetSessionKey(DerivedKey(k, h, i), 16) && !events[1].SetSessionKey?
    ensures Tells(k, h, i, events)
  {
    var key := DerivedKey(k, h, i);
    hide Derives, DerivedKey;
    forall before: Data ensures Told(before, events) == key {
      assert Told(before, events) == Told(key, events[1..]) == Told(key, events[1..][1..]);
    }
  }

  lemma PakeRequestSound(k: Crypto, h: Handle, store: Store, m: Message, e: Env)
    requires FixedLength(k) && WellSized(e) && m.kind == PAKE_REQUEST
    ensures Sound(k, h, Receive(Just(m), e), OnPakeRequest(k, h, store, m, e))
  {
    var i, o := Receive(Just(m), e), OnPakeRequest(k, h, store, m, e);
    if DrawsSalt(i) {
      BaseIsDrawn(k, e);
      KeyIsDrawn(k, i);
    }
    hide SpekeBase, X25519, DrawnBase, DrawsKey, FixedLength, Tells;
    TellsNothing(k, h, i, o.events);
  }

  lemma DeriveFacts(k: Crypto, h: Handle, m: Message, e: Env)
    requires FixedLength(k) && m.payload.Just? && (m.kind == CLIENT_CONFIRM || m.kind == PAKE_RESPONSE)
    ensures var i, p, (h', union) := Receive(Just(m), e), m.payload.value, Derive(k, h, m.payload.value);
            && (union.Just? <==> Derives(k, h, i))
            && h' == h.(peerEpk := h'.peerEpk, peerChallenge := h'.peerChallenge, shared := h'.shared,
                        sessionKey := if Derives(k, h, i) then DerivedKey(k, h, i) else h.sessionKey)
            && (union.Just? ==> union.value == DerivedUnion(k, h, i) && h'.peerChallenge == p.challenge.bytes)
  {
    hide FixedLength;
  }

  lemma ClientConfirmSound(k: Crypto, h: Handle, store: Store, m: Message, e: Env)
    requires FixedLength(k) && WellSized(e) && (m.kind == CLIENT_CONFIRM || m.kind == PAKE_RESPONSE)
    ensures Sound(k, h, Receive(Just(m), e), OnClientConfirm(k, h, store, m, e))
  {
    hide Derive, SignedExchange, Tells;
    var i, o := Receive(Just(m), e), OnClientConfirm(k, h, store, m, e);
    if m.payload.Just? {
      DeriveFacts(k, h, m, e);
    }
    if Derives(k, h, i) {
      var p := m.payload.value;
      var (h', union) := Derive(k, h, p);
      assert KcfData(k, HmacPart(union.value), h'.ourChallenge, h'.peerChallenge, false)
          == k.hmac(HmacPart(DerivedUnion(k, h, i)), p.challenge.bytes + h.ourChallenge);
    }
    if Proven(k, h, i) {
      TellsKey(k, h, i, o.events);
    } else {
      if Derives(k, h, i) {
        assert o == Outcome(Derive(k, h, m.payload.value).0, store, [], false);
      } else if m.payload.Just? {
        assert Derive(k, h, m.payload.value).1.Nothing?;
      }
      TellsNothing(k, h, i, o.events);
    }
  }

  /** A session key that opens a request seals the answer. */
  lemma SealsIfOpens(k: Crypto, h: Handle, m: Message)
    ensures OpenExchange(k, h, m).Exchange? ==> |h.sessionKey| == 16 || |h.sessionKey| == 32
  {
    hide Clean;
  }

  lemma LoadKeysFrame(k: Crypto, h: Handle, store: Store, e: Env)
    ensures var h' := LoadKeys(k, h, store, e).0; h' == h.(ltSecret := h'.ltSecret, ltPublic := h'.ltPublic)
  {}

  /** An exchange touches nothing but the state, the peer's id and the long-term keys. */
  lemma ExchangeFrame(k: Crypto, h: Handle, store: Store, m: Message, e: Env)
    requires WellSized(e)
    ensures var h' := OnExchangeRequest(k, h, store, m, e).h;
            && h' == h.(state := h'.state, peerAuthId := h'.peerAuthId,
                        ltSecret := h'.ltSecret, ltPublic := h'.ltPublic)
            && (h'.state == Init ==> h.state == Init)
  {
    var x := OpenExchange(k, h, m);
    LoadKeysFrame(k, h, store, e);
    if x.Exchange? && x.authId.Hex? {
      LoadKeysFrame(k, h.(peerAuthId := x.authId.bytes), store, e);
    }
    hide OpenExchange, ServerText, Verify, Encrypt, ExchangeResponse, SavePeer, LoadKeys;
  }

  lemma ExchangeEffect(k: Crypto, h: Handle, store: Store, m: Message, e: Env)
    requires FixedLength(k) && WellSized(e) && m.kind == EXCHANGE_REQUEST
    ensures Effect(k, h, OnExchangeRequest(k, h, store, m, e).h, Receive(Just(m), e))
  {
    ExchangeFrame(k, h, store, m, e);
    hide OnExchangeRequest, FixedLength;
  }

  lemma ExchangeEvents(k: Crypto, h: Handle, store: Store, m: Message, e: Env)
    requires FixedLength(k) && WellSized(e) && m.kind == EXCHANGE_REQUEST
    ensures forall event | event in OnExchangeRequest(k, h, store, m, e).events ::
              !event.SetSessionKey? && Justified(k, h, Receive(Just(m), e), event)
  {
    SealsIfOpens(k, h, m);
    ExchangeIsOpened(k, h, m, e);
    hide OpenExchange, SignedExchange, ServerText, Verify, Encrypt, FixedLength, SavePeer, LoadKeys;
  }

  lemma ExchangeSound(k: Crypto, h: Handle, store: Store, m: Message, e: Env)
    requires FixedLength(k) && WellSized(e) && m.kind == EXCHANGE_REQUEST
    ensures Sound(k, h, Receive(Just(m), e), OnExchangeRequest(k, h, store, m, e))
  {
    ExchangeEffect(k, h, store, m, e);
    ExchangeEvents(k, h, store, m, e);
    hide OnExchangeRequest, Effect, Justified, Tells, FixedLength;
    TellsNothing(k, h, Receive(Just(m), e), OnExchangeRequest(k, h, store, m, e).events);
  }

  /** Starts, confirmations of the result, errors, and what is ignored. */
  lemma OtherSound(k: Crypto, h: Handle, store: Store, i: Input)
    requires FixedLength(k) && WellSized(i.e)
    requires i.Receive? && i.m.Just? ==>
               i.m.value.kind !in {PAKE_REQUEST, CLIENT_CONFIRM, PAKE_RESPONSE}
               && (i.m.value.kind == EXCHANGE_REQUEST ==> i.m.value.payload.Nothing?)
    ensures Sound(k, h, i, Step(k, h, store, i))
  {
    hide FixedLength, Tells;
    TellsNothing(k, h, i, Step(k, h, store, i).events);
  }

  lemma StepSound(k: Crypto, h: Handle, store: Store, i: Input)
    requires FixedLength(k) && WellSized(i.e)
    ensures Sound(k, h, i, Step(k, h, store, i))
  {
    hide Sound, OnStart, OnPakeRequest, OnClientConfirm, OnExchangeRequest, OnAuthConfirm;
    if i.Start? || i.m.Nothing? {
      OtherSound(k, h, store, i);
    } else if i.m.value.kind == PAKE_REQUEST {
      PakeRequestSound(k, h, store, i.m.value, i.e);
    } else if i.m.value.kind == CLIENT_CONFIRM || i.m.value.kind == PAKE_RESPONSE {
      ClientConfirmSound(k, h, store, i.m.value, i.e);
    } else if i.m.value.kind == EXCHANGE_REQUEST && i.m.value.payload.Just? {
      ExchangeSound(k, h, store, i.m.value, i.e);
    } else {
      OtherSound(k, h, store, i);
    }
  }

  // --------------------------------------------------------- what runs keep

  function HandleAfter(k: Crypto, store: Store, inputs: seq<Input>): Handle
    requires SizedInputs(inputs) && FixedLength(k)
  {
    After(k, store, inputs).h
  }

  /** The key pair was drawn while request j was handled, the last one that drew any. */
  ghost predicate KeyFrom(k: Crypto, h: Handle, inputs: seq<Input>, j: nat) {
    && j < |inputs| && DrawsKey(k, inputs[j]) && HasKey(k, h, inputs[j].e)
    && forall i | j < i < |inputs| :: !DrawsKey(k, inputs[i])
  }

  ghost predicate SaltFrom(k: Crypto, h: Handle, inputs: seq<Input>, j: nat) {
    && j < |inputs| && DrawsSalt(inputs[j]) && HasSalt(k, h, inputs[j].e)
    && forall i | j < i < |inputs| :: !DrawsSalt(inputs[i])
  }

  /** What holds of a handle after any inputs. */
  ghost predicate Inv(k: Crypto, h: Handle, inputs: seq<Input>) {
    && (h.esk != [] ==> exists j: nat :: KeyFrom(k, h, inputs, j))
    && (h.salt != [] ==> exists j: nat :: SaltFrom(k, h, inputs, j))
    && (h.esk != [] ==> |h.salt| == 16)
    && (h.sessionKey != [] ==> |h.sessionKey| == 16 && h.esk != [])
  }

  lemma InvStep(k: Crypto, h: Handle, h': Handle, inputs: seq<Input>, i: Input)
    requires FixedLength(k) && WellSized(i.e) && Inv(k, h, inputs) && Effect(k, h, h', i)
    ensures Inv(k, h', inputs + [i])
  {
    hide UnionKey, SpekeBase;
    var all := inputs + [i];
    if DrawsKey(k, i) {
      assert KeyFrom(k, h', all, |inputs|);
    } else if h.esk != [] {
      var j: nat :| KeyFrom(k, h, inputs, j);
      assert KeyFrom(k, h', all, j);
    }
    if DrawsSalt(i) {
      assert SaltFrom(k, h', all, |inputs|);
    } else if h.salt != [] {
      var j: nat :| SaltFrom(k, h, inputs, j);
      assert SaltFrom(k, h', all, j);
    }
    assert Derives(k, h, i) ==> |h.esk| == 32;
  }

  /** The last input of a run is a step from the state before it. */
  lemma LastStep(k: Crypto, store: Store, inputs: seq<Input>)
    requires FixedLength(k) && SizedInputs(inputs) && inputs != []
    ensures var init, last := inputs[..|inputs| - 1], inputs[|inputs| - 1];
            && SizedInputs(init) && WellSized(last.e) && inputs == init + [last]
            && var before := After(k, store, init);
               && After(k, store, inputs) == Step(k, before.h, before.store, last)
               && Sound(k, before.h, last, After(k, store, inputs))
  {
    var init, last := inputs[..|inputs| - 1], inputs[|inputs| - 1];
    assert last in inputs;
    var before := After(k, store, init);
    hide Step, Sound;
    StepSound(k, before.h, before.store, last);
  }

  lemma {:induction false} InvAfter(k: Crypto, store: Store, inputs: seq<Input>)
    requires FixedLength(k) && SizedInputs(inputs)
    ensures Inv(k, HandleAfter(k, store, inputs), inputs)
  {
    if inputs != [] {
      var init, last := inputs[..|inputs| - 1], inputs[|inputs| - 1];
      LastStep(k, store, inputs);
      InvAfter(k, store, init);
      hide Effect, Tells, Justified, Inv, Step, After;
      InvStep(k, HandleAfter(k, store, init), HandleAfter(k, store, inputs), init, last);
    }
  }

  /** The handle's keys were drawn while an earlier PAKE request was handled, its salt then or while a later one was. */
  ghost predicate DrawnKeys(k: Crypto, h: Handle, inputs: seq<Input>) {
    exists j: nat, n: nat :: KeyFrom(k, h, inputs, j) && SaltFrom(k, h, inputs, n) && j <= n
  }

  lemma KeysDrawn(k: Crypto, h: Handle, inputs: seq<Input>)
    requires Inv(k, h, inputs) && h.esk != []
    ensures DrawnKeys(k, h, inputs)
  {
    var j: nat :| KeyFrom(k, h, inputs, j);
    var n: nat :| SaltFrom(k, h, inputs, n);
    if n < j {
      assert false;
    }
  }

  /**
  Whatever messages arrive in whatever order: a session key is reported only when the client has
  just proved that it knows the key derived from the handle's own ephemeral key and salt, both of
  them drawn while earlier PAKE requests were handled; no confirmation and no exchange response
  leaves before a PAKE request was handled; success comes from an exchange request signed over both
  challenges, or on the peer's word.
  */
  lemma RunSafety(k: Crypto, store: Store, inputs: seq<Input>, i: Input, event: Event)
    requires FixedLength(k) && SizedInputs(inputs) && WellSized(i.e)
    requires event in Step(k, After(k, store, inputs).h, After(k, store, inputs).store, i).events
    ensures var h := HandleAfter(k, store, inputs);
            && (event.SetSessionKey? ==>
                && Proven(k, h, i) && event.key == DerivedKey(k, h, i) && |event.key| == 16 == event.length
                && DrawnKeys(k, h, inputs))
            && (event.Transmit? && event.m.kind in {0x8002, 0x8003} ==> DrawnKeys(k, h, inputs))
            && (event.Transmit? && event.m.kind == 0x8003 ==> SignedExchange(k, h, i))
            && (event.SetServiceResult? && event.code == 0 ==>
                Confirming(i) || (DrawnKeys(k, h, inputs) && SignedExchange(k, h, i)))
  {
    var before := After(k, store, inputs);
    hide Step, After, SignedExchange, DrawnKeys, FixedLength;
    InvAfter(k, store, inputs);
    StepSound(k, before.h, before.store, i);
    assert Justified(k, before.h, i, event);
    if before.h.esk != [] {
      KeysDrawn(k, before.h, inputs);
    }
    assert Proven(k, before.h, i) ==> before.h.esk != [];
  }

  // --------------------------------------------- salt, key and challenge together

  predicate StartsAt(k: Crypto, store: Store, inputs: seq<Input>, i: nat)
    requires FixedLength(k) && SizedInputs(inputs) && i < |inputs|
  {
    SizedPrefix(inputs, i);
    Starts(HandleAfter(k, store, inputs[..i]), inputs[i])
  }

  lemma SizedPrefix(inputs: seq<Input>, i: nat)
    requires SizedInputs(inputs) && i <= |inputs|
    ensures SizedInputs(inputs[..i])
  {}

  /** Request j was the last that drew a key pair. */
  predicate LastDraw(k: Crypto, inputs: seq<Input>, j: nat) {
    j < |inputs| && DrawsKey(k, inputs[j]) && forall i | j < i < |inputs| :: !DrawsKey(k, inputs[i])
  }

  /** Later requests, even if they get stuck, draw other salts. */
  predicate FreshSalts(inputs: seq<Input>, j: nat) {
    forall i | j < i < |inputs| && DrawsSalt(inputs[i]) :: inputs[i].e.salt != inputs[j].e.salt
  }

  predicate StuckAfter(k: Crypto, inputs: seq<Input>, j: nat) {
    exists i :: j < i < |inputs| && Stuck(k, inputs[i])
  }

  predicate StartedAfter(k: Crypto, store: Store, inputs: seq<Input>, j: nat)
    requires FixedLength(k) && SizedInputs(inputs)
  {
    exists i :: j < i < |inputs| && StartsAt(k, store, inputs, i)
  }

  lemma Later(k: Crypto, store: Store, inputs: seq<Input>, j: nat)
    requires FixedLength(k) && SizedInputs(inputs) && j < |inputs| - 1
    ensures var n := |inputs| - 1;
            && SizedInputs(inputs[..n])
            && (StuckAfter(k, inputs, j) <==> StuckAfter(k, inputs[..n], j) || Stuck(k, inputs[n]))
            && (StartedAfter(k, store, inputs, j) <==>
                StartedAfter(k, store, inputs[..n], j) || StartsAt(k, store, inputs, n))
  {
    hide Stuck, Starts, After;
    var n := |inputs| - 1;
    var init := inputs[..n];
    assert forall i | 0 <= i < n :: init[i] == inputs[i] && init[..i] == inputs[..i];
    SizedPrefix(inputs, n);
    assert forall i | j < i < n :: StartsAt(k, store, init, i) == StartsAt(k, store, inputs, i);
  }

  /** What is left of a draw after later inputs, none of which drew a key pair. */
  lemma {:induction false} SinceDraw(k: Crypto, store: Store, inputs: seq<Input>, j: nat)
    requires FixedLength(k) && SizedInputs(inputs) && LastDraw(k, inputs, j)
    ensures var h, e := HandleAfter(k, store, inputs), inputs[j].e;
            && HasKey(k, h, e)
            && (if StartedAfter(k, store, inputs, j) then |h.ourChallenge| == 32 else h.ourChallenge == e.challenge)
            && (!StuckAfter(k, inputs, j) ==> HasSalt(k, h, e))
            && (StuckAfter(k, inputs, j) && FreshSalts(inputs, j) ==> h.salt != e.salt)
            && (e.sendOk ==> h.state != Init && !StartedAfter(k, store, inputs, j))
  {
    var n := |inputs| - 1;
    LastStep(k, store, inputs);
    hide After, Step, Tells, Justified, Derives, UnionKey, SpekeBase, X25519, FixedLength;
    if j < n {
      var init := inputs[..n];
      assert forall i | 0 <= i < n :: init[i] == inputs[i];
      SinceDraw(k, store, init, j);
      Later(k, store, inputs, j);
      hide StuckAfter, StartedAfter;
    } else {
      assert !StuckAfter(k, inputs, j) && !StartedAfter(k, store, inputs, j);
    }
  }

  /**
  The key pair in use always comes from the last request that drew one. Salt and challenge come from
  that request too, exactly if no later request got stuck without a public key and no later start was
  carried out; once the request was answered, no start is. Only that salts are not drawn twice is assumed.
  */
  lemma OneRequest(k: Crypto, store: Store, inputs: seq<Input>, j: nat)
    requires FixedLength(k) && SizedInputs(inputs) && LastDraw(k, inputs, j) && FreshSalts(inputs, j)
    ensures var h, e := HandleAfter(k, store, inputs), inputs[j].e;
            && HasKey(k, h, e)
            && (HasSalt(k, h, e) && h.ourChallenge == e.challenge
                <==> !StuckAfter(k, inputs, j) && !StartedAfter(k, store, inputs, j))
            && (e.sendOk ==> (HasSalt(k, h, e) && h.ourChallenge == e.challenge <==> !StuckAfter(k, inputs, j)))
  {
    hide StuckAfter, StartedAfter, HandleAfter, HasKey;
    SinceDraw(k, store, inputs, j);
    assert inputs[j] in inputs && |inputs[j].e.challenge| == 16;
  }

  /** An answered request followed by a stuck one: the new salt stands beside the old key pair and challenge. */
  lemma StuckRequest(k: Crypto, store: Store, m1: Message, e1: Env, m2: Message, e2: Env)
    requires FixedLength(k) && WellSized(e1) && WellSized(e2) && e1.sendOk && e1.salt != e2.salt
    requires DrawsKey(k, Receive(Just(m1), e1)) && Stuck(k, Receive(Just(m2), e2))
    ensures var h := HandleAfter(k, store, [Receive(Just(m1), e1), Receive(Just(m2), e2)]);
            h.salt == e2.salt != e1.salt && h.esk == e1.esk && h.ourChallenge == e1.challenge
  {
    var inputs := [Receive(Just(m1), e1), Receive(Just(m2), e2)];
    LastStep(k, store, inputs);
    hide After, Step, FixedLength, X25519, SpekeBase;
    SinceDraw(k, store, inputs, 0);
  }

  // ------------------------------------------------- the session key in use

  predicate DerivesAt(k: Crypto, store: Store, inputs: seq<Input>, i: nat)
    requires FixedLength(k) && SizedInputs(inputs) && i < |inputs|
  {
    SizedPrefix(inputs, i);
    Derives(k, HandleAfter(k, store, inputs[..i]), inputs[i])
  }

  predicate ProvenAt(k: Crypto, store: Store, inputs: seq<Input>, i: nat)
    requires FixedLength(k) && SizedInputs(inputs) && i < |inputs|
  {
    SizedPrefix(inputs, i);
    Proven(k, HandleAfter(k, store, inputs[..i]), inputs[i])
  }

  /** Confirmation d was the last from which a session key was derived. */
  predicate LastDerivation(k: Crypto, store: Store, inputs: seq<Input>, d: nat)
    requires FixedLength(k) && SizedInputs(inputs)
  {
    d < |inputs| && DerivesAt(k, store, inputs, d) && forall i | d < i < |inputs| :: !DerivesAt(k, store, inputs, i)
  }

  /** The session key that the callbacks were told last, over a whole run; none is []. */
  function ToldKey(k: Crypto, store: Store, inputs: seq<Input>): Data
    requires FixedLength(k) && SizedInputs(inputs)
  {
    if inputs == [] then []
    else
      var init := inputs[..|inputs| - 1];
      Told(ToldKey(k, store, init), After(k, store, inputs).events)
  }

  lemma SamePrefix(k: Crypto, store: Store, inputs: seq<Input>, n: nat, i: nat)
    requires FixedLength(k) && SizedInputs(inputs) && i < n <= |inputs|
    ensures SizedInputs(inputs[..n]) && inputs[..n][..i] == inputs[..i]
    ensures DerivesAt(k, store, inputs[..n], i) == DerivesAt(k, store, inputs, i)
    ensures ProvenAt(k, store, inputs[..n], i) == ProvenAt(k, store, inputs, i)
  {
    hide Proven, Derives, After, FixedLength;
    SizedPrefix(inputs, n);
    assert inputs[..n][..i] == inputs[..i];
  }

  lemma {:induction false} DerivationExists(k: Crypto, store: Store, inputs: seq<Input>)
    requires FixedLength(k) && SizedInputs(inputs) && HandleAfter(k, store, inputs).sessionKey != []
    ensures exists d: nat :: LastDerivation(k, store, inputs, d)
  {
    var n := |inputs| - 1;
    if inputs != [] {
      LastStep(k, store, inputs);
      hide After, Step, FixedLength, Tells, Justified, Derives;
      if DerivesAt(k, store, inputs, n) {
        assert LastDerivation(k, store, inputs, n);
      } else {
        DerivationExists(k, store, inputs[..n]);
        var d: nat :| LastDerivation(k, store, inputs[..n], d);
        forall i | d <= i < n ensures DerivesAt(k, store, inputs[..n], i) == DerivesAt(k, store, inputs, i) {
          SamePrefix(k, store, inputs, n, i);
        }
        assert LastDerivation(k, store, inputs, d);
      }
    }
  }

  /** One step: a confirmation that derives sets the key in use, and tells it if it carries the proof. */
  lemma KeyAfterStep(k: Crypto, store: Store, inputs: seq<Input>)
    requires FixedLength(k) && SizedInputs(inputs) && inputs != []
    ensures var n := |inputs| - 1;
            && SizedInputs(inputs[..n])
            && var h, h' := HandleAfter(k, store, inputs[..n]), HandleAfter(k, store, inputs);
               && h'.sessionKey == (if Derives(k, h, inputs[n]) then DerivedKey(k, h, inputs[n]) else h.sessionKey)
               && ToldKey(k, store, inputs) == (if Proven(k, h, inputs[n]) then h'.sessionKey
                                                else ToldKey(k, store, inputs[..n]))
               && (DerivesAt(k, store, inputs, n) <==> Derives(k, h, inputs[n]))
               && (ProvenAt(k, store, inputs, n) <==> Proven(k, h, inputs[n]))
  {
    var n := |inputs| - 1;
    LastStep(k, store, inputs);
    assert ToldKey(k, store, inputs) == Told(ToldKey(k, store, inputs[..n]), After(k, store, inputs).events);
    hide After, Step, FixedLength, Justified, Derives, ToldKey, Told, DerivedKey, DrawsSalt, DrawsKey, Starts,
         HasSalt, HasKey;
  }

  /** The key in use is the one derived last, and it is the one told last if its confirmation carried the proof. */
  lemma {:induction false} SinceDerivation(k: Crypto, store: Store, inputs: seq<Input>, d: nat)
    requires FixedLength(k) && SizedInputs(inputs) && LastDerivation(k, store, inputs, d)
    ensures SizedInputs(inputs[..d])
    ensures HandleAfter(k, store, inputs).sessionKey == DerivedKey(k, HandleAfter(k, store, inputs[..d]), inputs[d])
    ensures ToldKey(k, store, inputs) == if ProvenAt(k, store, inputs, d) then HandleAfter(k, store, inputs).sessionKey
                                         else ToldKey(k, store, inputs[..d])
  {
    var n := |inputs| - 1;
    KeyAfterStep(k, store, inputs);
    if d < n {
      assert DerivesAt(k, store, inputs, n) == false;
      forall i | d <= i < n ensures DerivesAt(k, store, inputs[..n], i) == DerivesAt(k, store, inputs, i) {
        SamePrefix(k, store, inputs, n, i);
      }
      SamePrefix(k, store, inputs, n, d);
      hide HandleAfter, FixedLength, Derives, Proven, ToldKey, DerivedKey;
      SinceDerivation(k, store, inputs[..n], d);
    }
  }

  /**
  When success is reported for an exchange, a session key was derived before; the callbacks hold that
  very key exactly if the last confirmation that derived one carried the matching proof, or derived
  once more the key they were told before it.
  */
  lemma ExchangeKeyTold(k: Crypto, store: Store, inputs: seq<Input>, i: Input)
    requires FixedLength(k) && SizedInputs(inputs) && WellSized(i.e) && !Confirming(i)
    requires SetServiceResult(HC_OK) in Step(k, HandleAfter(k, store, inputs), After(k, store, inputs).store, i).events
    ensures exists d: nat :: LastDerivation(k, store, inputs, d)
    ensures forall d: nat | LastDerivation(k, store, inputs, d) ::
              && SizedInputs(inputs[..d])
              && (ToldKey(k, store, inputs) == HandleAfter(k, store, inputs).sessionKey <==>
                  ProvenAt(k, store, inputs, d)
                  || ToldKey(k, store, inputs[..d]) == HandleAfter(k, store, inputs).sessionKey)
  {
    var h := HandleAfter(k, store, inputs);
    StepSound(k, h, After(k, store, inputs).store, i);
    assert Justified(k, h, i, SetServiceResult(HC_OK));
    hide Step, After, FixedLength, ToldKey, SignedExchange, LastDerivation;
    DerivationExists(k, store, inputs);
    forall d: nat | LastDerivation(k, store, inputs, d)
      ensures SizedInputs(inputs[..d])
      ensures ToldKey(k, store, inputs) == h.sessionKey <==>
                ProvenAt(k, store, inputs, d) || ToldKey(k, store, inputs[..d]) == h.sessionKey
    {
      SinceDerivation(k, store, inputs, d);
    }
  }

  /** No session key was ever told exactly if no confirmation carried a matching proof. */
  lemma {:induction false} NothingTold(k: Crypto, store: Store, inputs: seq<Input>)
    requires FixedLength(k) && SizedInputs(inputs)
    ensures ToldKey(k, store, inputs) == [] <==> forall i | 0 <= i < |inputs| :: !ProvenAt(k, store, inputs, i)
  {
    var n := |inputs| - 1;
    if inputs != [] {
      KeyAfterStep(k, store, inputs);
      NothingTold(k, store, inputs[..n]);
      hide HandleAfter, Derives, ToldKey, DerivedUnion;
      forall i | 0 <= i < n ensures ProvenAt(k, store, inputs[..n], i) == ProvenAt(k, store, inputs, i) {
        SamePrefix(k, store, inputs, n, i);
      }
    }
  }
}
