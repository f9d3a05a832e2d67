/**
The handshake with an honest client. The client has its own formulas, written
with the primitives alone, and knows of the server only what the server sends.
*/
module Agreement {
  import Bytes
  import opened Wrappers
  import opened Pake
  import opened Answers

  /** Everything the client brings: PIN, ephemeral key, challenge, identity, long-term key and a nonce. */
  datatype Client = Client(pin: Data, esk: Data, challenge: Data, id: Data, ltSecret: Data, nonce: Data)

  predicate WellFormed(c: Client) {
    |c.esk| == 32 && |c.ltSecret| == 64 && |c.nonce| == 12
  }

  // ------------------------------------------------------------- client's side

  function EffectivePin(pin: Data): Data {
    if pin == [] then Bytes.Ascii("888888") else pin
  }

  function BaseOf(k: Crypto, pin: Data, salt: Data): Data {
    k.elligator(k.hkdf(EffectivePin(pin), salt, Bytes.Ascii("hichain_speke_base_info"), 32))
  }

  /** What the client reads from the answer to its request. */
  datatype Offer = Offer(salt: Data, epk: Data, challenge: Data)

  function ReadOffer(m: Message): Maybe<Offer> {
    if m.kind != 0x8001 || m.payload.Nothing? then Nothing
    else
      var p := m.payload.value;
      if p.salt.BadHex? || p.epk.BadHex? || p.challenge.BadHex? then Nothing
      else Just(Offer(p.salt.bytes, p.epk.bytes, p.challenge.bytes))
  }

  /** The 48 bytes derived from the shared secret: 16 for the session key, 32 for the proofs. */
  function ClientUnion(k: Crypto, c: Client, o: Offer): Maybe<Data> {
    if |c.esk| != 32 || |o.epk| != 32 then Nothing
    else
      match k.x25519(c.esk, o.epk)
      case Nothing => Nothing
      case Just(shared) =>
        var union := k.hkdf(shared, o.salt, Bytes.Ascii("hichain_speke_sessionkey_info"), 48);
        if |union| == 48 then Just(union) else Nothing
  }

  function ClientKey(k: Crypto, c: Client, o: Offer): Data {
    match ClientUnion(k, c, o)
    case Nothing => []
    case Just(union) => if |union| == 48 then union[0..16] else []
  }

  function ClientProofKey(k: Crypto, c: Client, o: Offer): Data {
    match ClientUnion(k, c, o)
    case Nothing => []
    case Just(union) => if |union| == 48 then union[16..48] else []
  }

  /** The client's public key, its challenge, and its proof over both challenges, its own first. */
  function ConfirmMessage(k: Crypto, c: Client, o: Offer): Maybe<Message> {
    match k.x25519(c.esk, BaseOf(k, c.pin, o.salt))
    case Nothing => Nothing
    case Just(epk) =>
      var kcf := k.hmac(ClientProofKey(k, c, o), c.challenge + o.challenge);
      Just(Message(2, [], Just(Payload(NO_TEXT, Hex(epk), Hex(c.challenge), Hex(kcf), NO_TEXT, Nothing)),
                   [], [], [], [], [], NO_TEXT, 0))
  }

  /** The server's proof is over both challenges too, the server's first. */
  predicate AcceptsProof(k: Crypto, c: Client, o: Offer, m: Message) {
    && m.kind == 0x8002 && m.payload.Just?
    && m.payload.value.kcfData == Hex(k.hmac(ClientProofKey(k, c, o), o.challenge + c.challenge))
  }

  /** The client's identity and key, signed together with both challenges, its own first, and sealed. */
  function ExchangeMessage(k: Crypto, c: Client, o: Offer): Message {
    var info := k.encodeInfo(c.id, k.publicKey(c.ltSecret));
    var text := info + k.sign(c.ltSecret, c.challenge + o.challenge + info);
    var cipher := k.seal(ClientKey(k, c, o), c.nonce, text, Bytes.Ascii("hichain_exchange_request"));
    Message(3, [], Just(Payload(NO_TEXT, NO_TEXT, NO_TEXT, NO_TEXT, Hex(c.nonce + cipher), Nothing)),
            [], [], [], [], [], NO_TEXT, 0)
  }

  /** The client opens the answer, finds the server's id in it, and checks the signature of the key beside it. */
  predicate AcceptsServer(k: Crypto, c: Client, o: Offer, serverId: Data, m: Message) {
    && m.kind == 0x8003 && m.payload.Just? && m.payload.value.exAuthInfo.Hex?
    && var ex := m.payload.value.exAuthInfo.bytes;
       && |ex| >= 12
       && var text := k.open(ClientKey(k, c, o), ex[..12], ex[12..], Bytes.Ascii("hichain_exchange_response"));
          && text.Just? && |text.value| >= 64
          && var n := |text.value| - 64;
             var ai := k.decodeInfo(Clean(text.value[..n]));
             && ai.Just? && ai.value.authPk.Just? && ai.value.authPk.value.Hex? && ai.value.authId == Hex(serverId)
             && |ai.value.authPk.value.bytes| == 32
             && k.verify(ai.value.authPk.value.bytes, o.challenge + c.challenge + text.value[..n], text.value[n..])
  }

  // ------------------------------------------------------------- the handshake

  /** The message that a step sends, if it sends one. */
  function FirstSent(events: seq<Event>): Maybe<Message> {
    if events == [] then Nothing
    else if events[0].Transmit? then Just(events[0].m)
    else FirstSent(events[1..])
  }

  /** What the client reads from the messages that a step sends. */
  function Offered(events: seq<Event>): Maybe<Offer> {
    match FirstSent(events)
    case Nothing => Nothing
    case Just(m) => ReadOffer(m)
  }

  datatype Run = Run(o1: Outcome, o2: Outcome, o3: Outcome, offer: Offer)

  /** The client's request, and its confirmation and exchange made from what the server has sent. */
  function Handshake(k: Crypto, h: Handle, store: Store, m: Message, e1: Env, e2: Env, e3: Env, c: Client): Maybe<Run>
    requires FixedLength(k) && WellSized(e1) && WellSized(e2) && WellSized(e3)
  {
    var o1 := OnReceive(k, h, store, Just(m), e1);
    match Offered(o1.events)
    case Nothing => Nothing
    case Just(offer) =>
      var o2 := OnReceive(k, o1.h, o1.store, ConfirmMessage(k, c, offer), e2);
      var o3 := OnReceive(k, o2.h, o2.store, Just(ExchangeMessage(k, c, offer)), e3);
      Just(Run(o1, o2, o3, offer))
  }

  /** What a handshake needs from outside: messages go out, both PINs agree, and both public keys exist. */
  predicate Possible(k: Crypto, m: Message, e1: Env, e2: Env, e3: Env, c: Client) {
    && WellSized(e1) && WellSized(e2) && WellSized(e3) && WellFormed(c)
    && e1.sendOk && e2.sendOk && e3.sendOk && m.kind == 1
    && e1.params.Just? && e1.params.value.selfAuthId != []
    && EffectivePin(e1.params.value.pin) == EffectivePin(c.pin)
    && k.x25519(e1.esk, BaseOf(k, c.pin, e1.salt)).Just? && k.x25519(c.esk, BaseOf(k, c.pin, e1.salt)).Just?
  }

  // ------------------------------------------------------------------- phases

  /** The server's base is the one of its own PIN and salt. */
  lemma DrawnBaseIsBaseOf(k: Crypto, e: Env)
    requires e.params.Just?
    ensures DrawnBase(k, e) == BaseOf(k, e.params.value.pin, e.salt)
  {}

  /**
  Where derivation and map keep two PINs apart, the two sides have the same base exactly if their effective
  PINs are the same; the salt is the one the client has read.
  */
  lemma SameBaseExactly(k: Crypto, h: Handle, store: Store, m: Message, e: Env, c: Client)
    requires FixedLength(k) && WellSized(e) && m.kind == 1 && DrawsKey(k, Receive(Just(m), e))
    requires var p, q := EffectivePin(e.params.value.pin), EffectivePin(c.pin);
             var info := Bytes.Ascii("hichain_speke_base_info");
             k.elligator(k.hkdf(p, e.salt, info, 32)) == k.elligator(k.hkdf(q, e.salt, info, 32)) ==> p == q
    ensures var o := OnReceive(k, h, store, Just(m), e);
            && Offered(o.events).Just?
            && (o.h.base == BaseOf(k, c.pin, Offered(o.events).value.salt)
                <==> EffectivePin(e.params.value.pin) == EffectivePin(c.pin))
  {
    RequestAnswer(k, h, store, m, e);
    StepSound(k, h, store, Receive(Just(m), e));
    DrawnBaseIsBaseOf(k, e);
    hide OnReceive, DrawnBase;
  }

  /** The server's answer to a request is an offer of its salt, public key and challenge. */
  lemma RequestPhase(k: Crypto, h: Handle, store: Store, m: Message, e: Env, c: Client)
    requires Lawful(k) && FixedLength(k) && WellSized(e) && e.sendOk && m.kind == 1
    requires e.params.Just? && e.params.value.selfAuthId != []
    requires EffectivePin(e.params.value.pin) == EffectivePin(c.pin)
    requires k.x25519(e.esk, BaseOf(k, c.pin, e.salt)).Just?
    ensures var o, base := OnReceive(k, h, store, Just(m), e), BaseOf(k, c.pin, e.salt);
            && o.ok && o.store == store
            && Offered(o.events) == Just(Offer(e.salt, k.x25519(e.esk, base).value, e.challenge))
            && o.h.salt == e.salt && o.h.esk == e.esk && o.h.ourChallenge == e.challenge
            && o.h.selfAuthId == e.params.value.selfAuthId
            && o.h.ltSecret == h.ltSecret && o.h.ltPublic == h.ltPublic && o.h.requestId == m.requestId
  {
    var i := Receive(Just(m), e);
    DrawnBaseIsBaseOf(k, e);
    assert |BaseOf(k, c.pin, e.salt)| == 32;
    RequestAnswer(k, h, store, m, e);
    StepSound(k, h, store, i);
    assert DrawsKey(k, i);
    hide Lawful, OnReceive, DrawnBase, BaseOf;
  }

  /** Both sides derive the same 48 bytes. */
  lemma SameUnion(k: Crypto, h: Handle, e: Env, c: Client, o: Offer)
    requires Lawful(k) && FixedLength(k) && WellSized(e) && WellFormed(c)
    requires k.x25519(e.esk, BaseOf(k, c.pin, e.salt)).Just? && k.x25519(c.esk, BaseOf(k, c.pin, e.salt)).Just?
    requires h.esk == e.esk && h.salt == e.salt
    requires o == Offer(e.salt, k.x25519(e.esk, BaseOf(k, c.pin, e.salt)).value, e.challenge)
    ensures ConfirmMessage(k, c, o).Just?
    ensures var i := Receive(ConfirmMessage(k, c, o), e);
            && Derives(k, h, i) && ClientUnion(k, c, o) == Just(DerivedUnion(k, h, i))
            && ClientKey(k, c, o) == DerivedKey(k, h, i) && ClientProofKey(k, c, o) == ProofKey(k, h, i)
  {
    var base := BaseOf(k, c.pin, e.salt);
    var epk := k.x25519(c.esk, base).value;
    assert |epk| == 32 && |o.epk| == 32;
    assert k.x25519(c.esk, o.epk).Just? && k.x25519(c.esk, o.epk) == k.x25519(e.esk, epk);
    hide Lawful, FixedLength, BaseOf;
    var i := Receive(ConfirmMessage(k, c, o), e);
    assert i.m.value.payload.value.epk == Hex(epk);
  }

  /** Each accepts the other's proof, and the server reports the client's session key. */
  lemma ConfirmPhase(k: Crypto, h: Handle, store: Store, e1: Env, e: Env, c: Client, o: Offer)
    requires Lawful(k) && FixedLength(k) && WellSized(e1) && WellSized(e) && e.sendOk && WellFormed(c)
    requires k.x25519(e1.esk, BaseOf(k, c.pin, e1.salt)).Just? && k.x25519(c.esk, BaseOf(k, c.pin, e1.salt)).Just?
    requires h.esk == e1.esk && h.salt == e1.salt && h.ourChallenge == e1.challenge
    requires o == Offer(e1.salt, k.x25519(e1.esk, BaseOf(k, c.pin, e1.salt)).value, e1.challenge)
    ensures var r := OnReceive(k, h, store, ConfirmMessage(k, c, o), e);
            && r.ok && r.store == store && |ClientKey(k, c, o)| == 16
            && |r.events| == 2 && r.events[0] == SetSessionKey(ClientKey(k, c, o), 16)
            && r.events[1].Transmit? && AcceptsProof(k, c, o, r.events[1].m) && r.events[1].m.requestId == h.requestId
            && r.h.sessionKey == ClientKey(k, c, o) && r.h.peerChallenge == c.challenge
            && r.h.ourChallenge == h.ourChallenge && r.h.selfAuthId == h.selfAuthId && r.h.requestId == h.requestId
            && r.h.ltSecret == h.ltSecret && r.h.ltPublic == h.ltPublic
  {
    SameUnion(k, h, e1, c, o);
    var m := ConfirmMessage(k, c, o).value;
    var i := Receive(Just(m), e);
    assert Derives(k, h, i) && DerivedUnion(k, h, i) == DerivedUnion(k, h, Receive(Just(m), e1));
    assert Proven(k, h, i);
    ConfirmAnswer(k, h, store, m, e);
    StepSound(k, h, store, i);
    hide OnReceive, Lawful, DerivedUnion, ClientUnion, BaseOf;
  }

  /** Secret keys that a server makes have 64 bytes. */
  predicate SecretSized(secretKey: Data) {
    secretKey == [] || |secretKey| == 64
  }

  ghost predicate SecretsSized(h: Handle, store: Store) {
    SecretSized(h.ltSecret) && forall id | id in store :: SecretSized(store[id].secretKey)
  }

  /** A secret key, if there is one, stands beside its public key. */
  predicate Together(k: Crypto, secretKey: Data, publicKey: Data) {
    secretKey == [] || (|secretKey| == 64 && publicKey == k.publicKey(secretKey))
  }

  /** The long-term key pair that the server would use belongs together. */
  predicate KeysMatch(k: Crypto, h: Handle, store: Store) {
    && Together(k, h.ltSecret, h.ltPublic)
    && (h.selfAuthId in store ==> Together(k, store[h.selfAuthId].secretKey, store[h.selfAuthId].publicKey))
  }

  /** What the pair signs for this server and these challenges verifies under the public key of the pair. */
  predicate SignatureVerifies(k: Crypto, pair: (Data, Data), serverId: Data, challenges: Data) {
    var text := challenges + k.encodeInfo(serverId, pair.1);
    |pair.1| == 32 && k.verify(pair.1, text, k.sign(pair.0, text))
  }

  lemma PairVerifies(k: Crypto, h: Handle, store: Store, e: Env, challenges: Data)
    requires Lawful(k) && WellSized(e) && SecretsSized(h, store)
    ensures var pair := OwnPair(k, h, store, e);
            && |pair.0| == 64
            && (KeysMatch(k, h, store) ==> SignatureVerifies(k, pair, h.selfAuthId, challenges))
  {
    var pair := OwnPair(k, h, store, e);
    var text := challenges + k.encodeInfo(h.selfAuthId, pair.1);
    assert |k.sign(pair.0, text)| == 64 && |k.publicKey(pair.0)| == 32;
    assert k.verify(k.publicKey(pair.0), text, k.sign(pair.0, text));
    hide Lawful;
  }

  /** The honest exchange request is signed, by the client's key and in its name. */
  lemma ExchangeIsSigned(k: Crypto, h: Handle, c: Client, o: Offer, e: Env)
    requires Lawful(k) && WellFormed(c) && |h.sessionKey| == 16 && h.sessionKey == ClientKey(k, c, o)
    requires h.ourChallenge == o.challenge && h.peerChallenge == c.challenge
    ensures var m := ExchangeMessage(k, c, o);
            var i := Receive(Just(m), e);
            && SignedExchange(k, h, i) && ClaimedId(k, h, m) == Just(c.id)
            && ClaimedKey(k, h, i) == k.publicKey(c.ltSecret)
  {
    var info := k.encodeInfo(c.id, k.publicKey(c.ltSecret));
    var signature := k.sign(c.ltSecret, c.challenge + o.challenge + info);
    var text := info + signature;
    var tag := Bytes.Ascii("hichain_exchange_request");
    var ex := c.nonce + k.seal(h.sessionKey, c.nonce, text, tag);
    assert ex[..12] == c.nonce && ex[12..] == k.seal(h.sessionKey, c.nonce, text, tag);
    assert k.open(h.sessionKey, c.nonce, ex[12..], tag) == Just(text);
    assert text[..|text| - 64] == info && text[|text| - 64..] == signature;
    hide Clean, ClientKey;
  }

  /** What the server seals, the client opens, and accepts exactly if the signature is good. */
  lemma AnswerOpens(k: Crypto, h: Handle, c: Client, o: Offer, pair: (Data, Data), nonce: Data, m: Message)
    requires Lawful(k) && |h.sessionKey| == 16 && h.sessionKey == ClientKey(k, c, o) && |nonce| == 12
    requires h.ourChallenge == o.challenge && h.peerChallenge == c.challenge && |pair.0| == 64
    requires m.kind == 0x8003 && m.payload.Just?
    requires m.payload.value.exAuthInfo == Hex(SealedAnswer(k, h, pair, nonce))
    ensures AcceptsServer(k, c, o, h.selfAuthId, m)
       <==> SignatureVerifies(k, pair, h.selfAuthId, o.challenge + c.challenge)
  {
    var info := k.encodeInfo(h.selfAuthId, pair.1);
    var signature := k.sign(pair.0, o.challenge + c.challenge + info);
    var text := info + signature;
    var tag := Bytes.Ascii("hichain_exchange_response");
    var ex := SealedAnswer(k, h, pair, nonce);
    assert ex[..12] == nonce && ex[12..] == k.seal(h.sessionKey, nonce, text, tag);
    assert k.open(h.sessionKey, nonce, ex[12..], tag) == Just(text);
    assert text[..|text| - 64] == info && text[|text| - 64..] == signature;
    hide Clean, ClientKey;
  }

  /** The honest exchange is accepted; the client accepts the answer exactly if its signature is good. */
  lemma ExchangePhase(k: Crypto, h: Handle, store: Store, e: Env, c: Client, o: Offer)
    requires Lawful(k) && FixedLength(k) && WellSized(e) && e.sendOk && WellFormed(c) && SecretsSized(h, store)
    requires |h.sessionKey| == 16 && h.sessionKey == ClientKey(k, c, o)
    requires h.ourChallenge == o.challenge && h.peerChallenge == c.challenge
    ensures var r, pair := OnReceive(k, h, store, Just(ExchangeMessage(k, c, o)), e), OwnPair(k, h, store, e);
            && r.ok && r.h.state == Completed && r.h.sessionKey == h.sessionKey
            && |r.events| == 2 && r.events[0].Transmit? && r.events[1] == SetServiceResult(0)
            && r.events[0].m.peerDeviceId == h.selfAuthId && r.events[0].m.connDeviceId == c.id
            && r.events[0].m.requestId == h.requestId
            && (AcceptsServer(k, c, o, h.selfAuthId, r.events[0].m)
                <==> SignatureVerifies(k, pair, h.selfAuthId, o.challenge + c.challenge))
            && (KeysMatch(k, h, store) ==> AcceptsServer(k, c, o, h.selfAuthId, r.events[0].m))
            && r.h.peerAuthId == c.id && SavesKeys(k, h, store, r.store, e, c.id, k.publicKey(c.ltSecret))
  {
    var m := ExchangeMessage(k, c, o);
    var pair := OwnPair(k, h, store, e);
    ExchangeIsSigned(k, h, c, o, e);
    PairVerifies(k, h, store, e, o.challenge + c.challenge);
    ExchangeAnswer(k, h, store, m, e);
    hide Lawful, OnReceive, SignedExchange, ClaimedId, ClaimedKey, SealedAnswer, AcceptsServer, SignatureVerifies,
         SavesKeys, OwnPair, ClientKey, KeysMatch;
    var r := OnReceive(k, h, store, Just(m), e);
    AnswerOpens(k, h, c, o, pair, e.nonce, r.events[0].m);
  }

  /**
  Both sides accepted each other's proof of the same 16-byte key, the server completed with exactly one
  success report and saved the client's key, and the client accepts the server exactly if its signature is good.
  */
  ghost predicate Agreed(k: Crypto, run: Run, h: Handle, store: Store, m: Message, e1: Env, e3: Env, c: Client)
    requires e1.params.Just?
  {
    var o, key, id := run.offer, ClientKey(k, c, run.offer), e1.params.value.selfAuthId;
    var h2 := h.(selfAuthId := id);
    && run.o1.ok && run.o2.ok && run.o3.ok && |key| == 16
    && |run.o2.events| == 2 && run.o2.events[0] == SetSessionKey(key, 16)
    && run.o2.events[1].Transmit? && AcceptsProof(k, c, o, run.o2.events[1].m)
    && |run.o3.events| == 2 && run.o3.events[1] == SetServiceResult(0)
    && run.o3.events[0].Transmit? && run.o3.events[0].m.connDeviceId == c.id
    && run.o2.events[1].m.requestId == run.o3.events[0].m.requestId == m.requestId
    && (AcceptsServer(k, c, o, id, run.o3.events[0].m)
        <==> SignatureVerifies(k, OwnPair(k, h2, store, e3), id, o.challenge + c.challenge))
    && run.o3.h.state == Completed && run.o3.h.sessionKey == key
    && SavesKeys(k, h2, store, run.o3.store, e3, c.id, k.publicKey(c.ltSecret))
  }

  lemma SamePair(k: Crypto, h: Handle, h2: Handle, store: Store, e: Env)
    requires h.ltSecret == h2.ltSecret && h.ltPublic == h2.ltPublic && h.selfAuthId == h2.selfAuthId
    ensures OwnPair(k, h, store, e) == OwnPair(k, h2, store, e) && KeysMatch(k, h, store) == KeysMatch(k, h2, store)
    ensures forall store', id, publicKey ::
              SavesKeys(k, h, store, store', e, id, publicKey) == SavesKeys(k, h2, store, store', e, id, publicKey)
  {}

  /**
  Agreement, from any handle state and any key store whose secret keys have 64 bytes: server and
  client agree, and the client accepts the server if the key pair that the server uses belongs together.
  */
  lemma HonestHandshake(k: Crypto, h: Handle, store: Store, m: Message, e1: Env, e2: Env, e3: Env, c: Client)
    requires Lawful(k) && FixedLength(k) && Possible(k, m, e1, e2, e3, c) && SecretsSized(h, store)
    ensures var run := Handshake(k, h, store, m, e1, e2, e3, c);
            && run.Just? && Agreed(k, run.value, h, store, m, e1, e3, c)
            && (KeysMatch(k, h.(selfAuthId := e1.params.value.selfAuthId), store) ==>
                AcceptsServer(k, c, run.value.offer, e1.params.value.selfAuthId, run.value.o3.events[0].m))
  {
    hide OnReceive, AcceptsServer, AcceptsProof, ConfirmMessage, ExchangeMessage, SignatureVerifies, OwnPair, SavesKeys,
         ClientKey, Offered, Lawful, FixedLength, KeysMatch, BaseOf;
    RequestPhase(k, h, store, m, e1, c);
    var o1 := OnReceive(k, h, store, Just(m), e1);
    var offer := Offered(o1.events).value;
    ConfirmPhase(k, o1.h, o1.store, e1, e2, c, offer);
    var o2 := OnReceive(k, o1.h, o1.store, ConfirmMessage(k, c, offer), e2);
    ExchangePhase(k, o2.h, o2.store, e3, c, offer);
    SamePair(k, o2.h, h.(selfAuthId := e1.params.value.selfAuthId), store, e3);
  }

  // ------------------------------------------------ a key that nobody was told

  /** The confirmation as an honest client makes it, with a proof that is not even hexadecimal. */
  function Garbled(confirm: Maybe<Message>): Maybe<Message> {
    if confirm.Nothing? || confirm.value.payload.Nothing? then Nothing
    else Just(confirm.value.(payload := Just(confirm.value.payload.value.(kcfData := BadHex))))
  }

  /** Request, refused confirmation, and the exchange that the client makes with the key all the same. */
  function RefusedHandshake(k: Crypto, m: Message, e1: Env, e2: Env, e3: Env, c: Client): Maybe<Run>
    requires FixedLength(k) && WellSized(e1) && WellSized(e2) && WellSized(e3)
  {
    var o1 := OnReceive(k, NEW_HANDLE, map[], Just(m), e1);
    match Offered(o1.events)
    case Nothing => Nothing
    case Just(offer) =>
      var o2 := OnReceive(k, o1.h, o1.store, Garbled(ConfirmMessage(k, c, offer)), e2);
      var o3 := OnReceive(k, o2.h, o2.store, Just(ExchangeMessage(k, c, offer)), e3);
      Just(Run(o1, o2, o3, offer))
  }

  /** A garbled proof is refused, but the session key is there. */
  lemma GarbledPhase(k: Crypto, h: Handle, store: Store, e1: Env, e: Env, c: Client, o: Offer)
    requires Lawful(k) && FixedLength(k) && WellSized(e1) && WellSized(e) && WellFormed(c)
    requires k.x25519(e1.esk, BaseOf(k, c.pin, e1.salt)).Just? && k.x25519(c.esk, BaseOf(k, c.pin, e1.salt)).Just?
    requires h.esk == e1.esk && h.salt == e1.salt && h.ourChallenge == e1.challenge
    requires o == Offer(e1.salt, k.x25519(e1.esk, BaseOf(k, c.pin, e1.salt)).value, e1.challenge)
    ensures var r := OnReceive(k, h, store, Garbled(ConfirmMessage(k, c, o)), e);
            && !r.ok && r.store == store && r.events == []
            && r.h.sessionKey == ClientKey(k, c, o) && |r.h.sessionKey| == 16
            && r.h.peerChallenge == c.challenge && r.h.ourChallenge == h.ourChallenge && r.h.ltSecret == h.ltSecret
  {
    SameUnion(k, h, e1, c, o);
    var m := Garbled(ConfirmMessage(k, c, o)).value;
    var i := Receive(Just(m), e);
    assert Derives(k, h, i) && DerivedUnion(k, h, i) == DerivedUnion(k, h, Receive(ConfirmMessage(k, c, o), e1));
    assert !Proven(k, h, i);
    ConfirmAnswer(k, h, store, m, e);
    StepSound(k, h, store, i);
    hide OnReceive, Lawful, DerivedUnion, ClientUnion, BaseOf;
  }

  /**
  The session key is stored before the proof is checked: after a confirmation that is refused, the
  exchange made with that key is accepted, and success is reported though no session key ever was.
  */
  lemma UnconfirmedSuccess(k: Crypto, m: Message, e1: Env, e2: Env, e3: Env, c: Client)
    requires Lawful(k) && FixedLength(k) && Possible(k, m, e1, e2, e3, c)
    ensures var run := RefusedHandshake(k, m, e1, e2, e3, c);
            && run.Just? && !run.value.o2.ok
            && Told(Told(Told([], run.value.o1.events), run.value.o2.events), run.value.o3.events) == []
            && run.value.o3.ok && run.value.o3.h.state == Completed
            && SetServiceResult(0) in run.value.o3.events
  {
    hide OnReceive, AcceptsServer, ConfirmMessage, ExchangeMessage, SignatureVerifies, OwnPair, SavesKeys,
         ClientKey, Offered, Lawful, FixedLength, KeysMatch, BaseOf, Garbled, Told;
    RequestPhase(k, NEW_HANDLE, map[], m, e1, c);
    RequestTellsNothing(k, NEW_HANDLE, map[], m, e1);
    var o1 := OnReceive(k, NEW_HANDLE, map[], Just(m), e1);
    var offer := Offered(o1.events).value;
    GarbledPhase(k, o1.h, o1.store, e1, e2, c, offer);
    var o2 := OnReceive(k, o1.h, o1.store, Garbled(ConfirmMessage(k, c, offer)), e2);
    ExchangePhase(k, o2.h, o2.store, e3, c, offer);
    var o3 := OnReceive(k, o2.h, o2.store, Just(ExchangeMessage(k, c, offer)), e3);
    ToldNothing([], o2.events);
    ToldNothing([], o3.events);
    assert o3.events[1] in o3.events;
  }

  lemma RequestTellsNothing(k: Crypto, h: Handle, store: Store, m: Message, e: Env)
    requires FixedLength(k) && WellSized(e) && m.kind == 1
    ensures Told([], OnReceive(k, h, store, Just(m), e).events) == []
  {
    RequestAnswer(k, h, store, m, e);
    hide OnReceive;
    ToldNothing([], OnReceive(k, h, store, Just(m), e).events);
  }
}
