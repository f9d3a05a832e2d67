/**
What the server can be seen to do with each kind of message: what it sends and
reports, and what it remembers, stated with the primitives, numbers and texts
alone.
*/
module Answers {
  import Bytes
  import opened Wrappers
  import opened Pake

  const NO_TEXT := Hex([])

  /** A start from the initial state sends the own id and a challenge; in any other state nothing happens. */
  lemma StartAnswer(k: Crypto, h: Handle, store: Store, e: Env)
    requires FixedLength(k) && WellSized(e)
    ensures var o := Step(k, h, store, Start(e));
            if h.state != Init || e.params.Nothing? then o == Outcome(h, store, [], false)
            else
              var p := e.params.value;
              && o.ok == e.sendOk && o.store == store
              && o.events == [Transmit(Message(1, [], Nothing, [], [], [], [], p.selfAuthId, Hex(e.firstChallenge), 0))]
              && o.h == h.(selfAuthId := p.selfAuthId, peerAuthId := p.peerAuthId, ourChallenge := e.firstChallenge,
                           state := if e.sendOk then Started else Init)
  {}

  /** What a client that sends no version is told. */
  function AnsweredVersion(m: Message): Version {
    if m.payload.Just? && m.payload.value.version.Just? then m.payload.value.version.value
    else Version(Bytes.Ascii("1.0.0"), Bytes.Ascii("2.0.26"))
  }

  /** The id by which a PAKE request introduces its client. */
  function IntroducedId(h: Handle, m: Message): Data {
    if m.connDeviceId != [] then m.connDeviceId else if m.peerDeviceId != [] then m.peerDeviceId else h.peerAuthId
  }

  /** A PAKE request is answered with salt, public key and challenge exactly if it drew a key pair. */
  lemma RequestAnswer(k: Crypto, h: Handle, store: Store, m: Message, e: Env)
    requires FixedLength(k) && WellSized(e) && m.kind == 1
    ensures var i, o := Receive(Just(m), e), OnReceive(k, h, store, Just(m), e);
            && o.store == store && (o.ok <==> DrawsKey(k, i) && e.sendOk)
            && o.h.state == (if o.ok then Authenticating else h.state)
            && o.h.requestId == m.requestId && o.h.peerAuthId == IntroducedId(h, m)
            && o.h.selfAuthId == (if e.params.Just? then e.params.value.selfAuthId else h.selfAuthId)
            && o.h.sessionKey == h.sessionKey && o.h.peerChallenge == h.peerChallenge
            && o.h.ltSecret == h.ltSecret && o.h.ltPublic == h.ltPublic
            && (!DrawsKey(k, i) ==> o.events == [])
            && (DrawsKey(k, i) ==>
                var epk := k.x25519(e.esk, DrawnBase(k, e)).value;
                var payload := Payload(Hex(e.salt), Hex(epk), Hex(e.challenge), NO_TEXT, NO_TEXT,
                                       Just(AnsweredVersion(m)));
                o.events == [Transmit(Message(0x8001, m.requestId, Just(payload), [], [], [], [], [], NO_TEXT, 0))])
  {
    var i := Receive(Just(m), e);
    if DrawsSalt(i) {
      KeyIsDrawn(k, i);
    }
    hide SpekeBase, X25519, DrawnBase, FixedLength;
  }

  /** A confirmation is answered with the server's proof, and the key is told, exactly if the client's proof matches. */
  lemma ConfirmAnswer(k: Crypto, h: Handle, store: Store, m: Message, e: Env)
    requires FixedLength(k) && WellSized(e) && (m.kind == 2 || m.kind == 0x8001)
    ensures var i, o := Receive(Just(m), e), OnReceive(k, h, store, Just(m), e);
            && o.store == store && (o.ok <==> Proven(k, h, i) && e.sendOk)
            && o.h.state == (if o.ok then Authenticating else h.state)
            && (Derives(k, h, i) ==> o.h.peerChallenge == m.payload.value.challenge.bytes)
            && o.h.selfAuthId == h.selfAuthId && o.h.peerAuthId == h.peerAuthId && o.h.requestId == h.requestId
            && o.h.ltSecret == h.ltSecret && o.h.ltPublic == h.ltPublic
            && (!Proven(k, h, i) ==> o.events == [])
            && (Proven(k, h, i) ==>
                var proof := k.hmac(ProofKey(k, h, i), h.ourChallenge + m.payload.value.challenge.bytes);
                var payload := Payload(NO_TEXT, NO_TEXT, NO_TEXT, Hex(proof), NO_TEXT, Nothing);
                o.events == [SetSessionKey(DerivedKey(k, h, i), 16),
                             Transmit(Message(0x8002, h.requestId, Just(payload), [], [], [], [], [], NO_TEXT, 0))])
  {
    var i := Receive(Just(m), e);
    if m.payload.Just? {
      DeriveFacts(k, h, m, e);
      if Derives(k, h, i) {
        var d := Derive(k, h, m.payload.value);
        assert KcfData(k, HmacPart(d.1.value), d.0.ourChallenge, d.0.peerChallenge, false)
            == k.hmac(ProofKey(k, h, i), m.payload.value.challenge.bytes + h.ourChallenge);
        assert KcfData(k, HmacPart(d.1.value), d.0.ourChallenge, d.0.peerChallenge, true)
            == k.hmac(ProofKey(k, h, i), h.ourChallenge + m.payload.value.challenge.bytes);
      }
    }
    hide Derive, KcfData, DerivedUnion;
  }

  /** The key pair that an exchange is answered with: the handle's own, else the stored one, else a new one. */
  function OwnPair(k: Crypto, h: Handle, store: Store, e: Env): (Data, Data) {
    if h.ltSecret != [] then (h.ltSecret, h.ltPublic)
    else if h.selfAuthId in store && store[h.selfAuthId].secretKey != [] then
      (store[h.selfAuthId].secretKey, store[h.selfAuthId].publicKey)
    else (e.ltSecret, k.publicKey(e.ltSecret))
  }

  /** The id that the signed text claims, if it is legible. */
  function ClaimedId(k: Crypto, h: Handle, m: Message): Maybe<Data> {
    match ExchangeText(k, h, m)
    case Nothing => Nothing
    case Just(text) =>
      if |text| < 64 || ClaimedInfo(k, text).Nothing? || ClaimedInfo(k, text).value.authId.BadHex? then Nothing
      else Just(ClaimedInfo(k, text).value.authId.bytes)
  }

  /** The client's key is saved under its own id, or under the one known before if it states none. */
  function SavedUnder(k: Crypto, h: Handle, m: Message): Data {
    if ClaimedId(k, h, m).Just? then ClaimedId(k, h, m).value else h.peerAuthId
  }

  function ClaimedKey(k: Crypto, h: Handle, i: Input): Data
    requires SignedExchange(k, h, i)
  {
    ClaimedInfo(k, ExchangeText(k, h, i.m.value).value).value.authPk.value.bytes
  }

  /** The sealed answer to an exchange: identity and key of the server, and its signature over challenges and those. */
  function SealedAnswer(k: Crypto, h: Handle, pair: (Data, Data), nonce: Data): Data {
    var info := k.encodeInfo(h.selfAuthId, pair.1);
    var text := info + k.sign(pair.0, h.ourChallenge + h.peerChallenge + info);
    nonce + k.seal(h.sessionKey, nonce, text, Bytes.Ascii("hichain_exchange_response"))
  }

  /** What an answered exchange leaves in the store: the server's own pair, if it was new, and the client's key. */
  ghost predicate SavesKeys(k: Crypto, h: Handle, store: Store, store': Store, e: Env, id: Data, publicKey: Data) {
    var isNew := h.ltSecret == [] && (h.selfAuthId !in store || store[h.selfAuthId].secretKey == []);
    && id in store' && store'[id].publicKey == publicKey
    && store'[id].secretKey == (if isNew && id == h.selfAuthId then e.ltSecret
                                else if id in store then store[id].secretKey else [])
    && (isNew && id != h.selfAuthId ==>
        h.selfAuthId in store' && store'[h.selfAuthId] == Entry(k.publicKey(e.ltSecret), e.ltSecret))
    && (forall other | other != id && !(isNew && other == h.selfAuthId) ::
          (other in store' <==> other in store) && (other in store ==> store'[other] == store[other]))
  }

  /**
  An exchange request is answered, success is reported and the client's key is saved exactly if it is signed
  and the server's secret key has 64 bytes; success and the saving wait until the answer is sent.
  */
  lemma ExchangeAnswer(k: Crypto, h: Handle, store: Store, m: Message, e: Env)
    requires FixedLength(k) && WellSized(e) && m.kind == 3
    ensures var i, o, pair := Receive(Just(m), e), OnReceive(k, h, store, Just(m), e), OwnPair(k, h, store, e);
            var answered := SignedExchange(k, h, i) && |pair.0| == 64;
            && (o.ok <==> answered && e.sendOk)
            && o.h.state == (if o.ok then Completed else h.state)
            && o.h.sessionKey == h.sessionKey && o.h.selfAuthId == h.selfAuthId
            && o.h.ourChallenge == h.ourChallenge && o.h.peerChallenge == h.peerChallenge
            && (!answered ==> o.events == [])
            && (!SignedExchange(k, h, i) ==> o.store == store && o.h.ltSecret == h.ltSecret)
            && (answered ==>
                var id := ClaimedId(k, h, m);
                var client := if id.Just? then id.value else [];
                var answer := Hex(SealedAnswer(k, h, pair, e.nonce));
                var payload := Payload(NO_TEXT, NO_TEXT, NO_TEXT, NO_TEXT, answer, Nothing);
                var sent := Transmit(Message(0x8003, h.requestId, Just(payload), h.selfAuthId, h.selfAuthId,
                                             client, client, [], NO_TEXT, 0));
                && (o.h.ltSecret, o.h.ltPublic) == pair
                && o.h.peerAuthId == SavedUnder(k, h, m)
                && o.events == (if e.sendOk then [sent, SetServiceResult(0)] else [sent])
                && (e.sendOk ==> SavesKeys(k, h, store, o.store, e, o.h.peerAuthId, ClaimedKey(k, h, i))))
  {
    var i, pair := Receive(Just(m), e), OwnPair(k, h, store, e);
    ExchangeIsOpened(k, h, m, e);
    if !SignedExchange(k, h, i) {
      RefusedExchange(k, h, store, m, e);
    } else {
      SignedAnswer(k, h, store, m, e);
      SavedKeys(k, h, store, e, SavedUnder(k, h, m), ClaimedKey(k, h, i));
    }
    hide OnReceive, SignedExchange, ExchangeText, ClaimedInfo, ClaimedId, ClaimedKey, SealedAnswer, LoadKeys, SavePeer,
         SavesKeys, OwnPair;
  }

  lemma RefusedExchange(k: Crypto, h: Handle, store: Store, m: Message, e: Env)
    requires FixedLength(k) && WellSized(e) && m.kind == 3 && !SignedExchange(k, h, Receive(Just(m), e))
    ensures var o := OnReceive(k, h, store, Just(m), e);
            o == Outcome(h.(peerAuthId := o.h.peerAuthId), store, [], false)
  {
    ExchangeIsOpened(k, h, m, e);
    hide OpenExchange, SignedExchange, ExchangeText, ClaimedInfo, Verify, FixedLength;
  }

  /** The text that the server seals for its pair. */
  lemma SealedIsServerText(k: Crypto, h: Handle, h2: Handle, pair: (Data, Data), nonce: Data)
    requires h2 == h.(peerAuthId := h2.peerAuthId, ltSecret := pair.0, ltPublic := pair.1)
    requires |nonce| == 12 && |h.sessionKey| in {16, 32}
    ensures Encrypt(k, h2.sessionKey, nonce, ServerText(k, h2), RESPONSE_LABEL).Just?
    ensures nonce + Encrypt(k, h2.sessionKey, nonce, ServerText(k, h2), RESPONSE_LABEL).value
         == SealedAnswer(k, h, pair, nonce)
  {}

  lemma SignedAnswer(k: Crypto, h: Handle, store: Store, m: Message, e: Env)
    requires FixedLength(k) && WellSized(e) && m.kind == 3 && SignedExchange(k, h, Receive(Just(m), e))
    ensures var i, o, pair := Receive(Just(m), e), OnReceive(k, h, store, Just(m), e), OwnPair(k, h, store, e);
            var id, own := ClaimedId(k, h, m), LoadKeys(k, h, store, e).1;
            var client := if id.Just? then id.value else [];
            var payload := Payload(NO_TEXT, NO_TEXT, NO_TEXT, NO_TEXT, Hex(SealedAnswer(k, h, pair, e.nonce)), Nothing);
            var sent := Transmit(Message(0x8003, h.requestId, Just(payload), h.selfAuthId, h.selfAuthId,
                                         client, client, [], NO_TEXT, 0));
            var h2 := h.(peerAuthId := SavedUnder(k, h, m), ltSecret := pair.0, ltPublic := pair.1);
            o == if |pair.0| != 64 then Outcome(h2, own, [], false)
                 else if !e.sendOk then Outcome(h2, own, [sent], false)
                 else Outcome(h2.(state := Completed), SavePeer(own, SavedUnder(k, h, m), ClaimedKey(k, h, i)),
                              [sent, SetServiceResult(0)], true)
  {
    ExchangeIsOpened(k, h, m, e);
    SealsIfOpens(k, h, m);
    var x, pair := OpenExchange(k, h, m), OwnPair(k, h, store, e);
    var h1 := if x.authId.Hex? then h.(peerAuthId := x.authId.bytes) else h;
    LoadedPair(k, h, h1, store, e);
    SealedIsServerText(k, h, LoadKeys(k, h1, store, e).0, pair, e.nonce);
    assert SavedUnder(k, h, m) == h1.peerAuthId && ClaimedKey(k, h, Receive(Just(m), e)) == x.publicKey;
    assert ClaimedId(k, h, m) == if x.authId.Hex? then Just(x.authId.bytes) else Nothing;
    hide OpenExchange, SignedExchange, ExchangeText, ClaimedInfo, ClaimedId, ClaimedKey, SavedUnder, Verify, LoadKeys,
         SavePeer, ServerText, SealedAnswer, Encrypt, OwnPair, FixedLength;
  }

  lemma LoadedPair(k: Crypto, h: Handle, h1: Handle, store: Store, e: Env)
    requires h1 == h.(peerAuthId := h1.peerAuthId)
    ensures var (h', own) := LoadKeys(k, h1, store, e);
            && h' == h1.(ltSecret := OwnPair(k, h, store, e).0, ltPublic := OwnPair(k, h, store, e).1)
            && own == LoadKeys(k, h, store, e).1
  {}

  lemma SavedKeys(k: Crypto, h: Handle, store: Store, e: Env, id: Data, publicKey: Data)
    requires WellSized(e)
    ensures SavesKeys(k, h, store, SavePeer(LoadKeys(k, h, store, e).1, id, publicKey), e, id, publicKey)
  {}

  /** The peer's word decides from any state; an error message means failure; anything else is ignored. */
  lemma OtherAnswers(k: Crypto, h: Handle, store: Store, m: Message, e: Env)
    requires FixedLength(k) && WellSized(e)
    ensures OnReceive(k, h, store, Nothing, e) == Outcome(h, store, [], false)
    ensures m.kind == 4 || m.kind == 0x8002 ==>
              OnReceive(k, h, store, Just(m), e) ==
              if m.result == 0 then Outcome(h.(state := Completed), store, [SetServiceResult(0)], true)
              else Outcome(h.(state := Failed), store, [SetServiceResult(-3)], true)
    ensures m.kind == 0x8080 ==>
              OnReceive(k, h, store, Just(m), e) == Outcome(h.(state := Failed), store, [SetServiceResult(-3)], false)
    ensures m.kind !in {1, 2, 3, 4, 0x8001, 0x8002, 0x8080} ==>
              OnReceive(k, h, store, Just(m), e) == Outcome(h, store, [], false)
  {}
}
