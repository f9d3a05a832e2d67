/** The CoAP adapter: the bounded write buffer, the encoder, the decoder, response building and message ids. */
module Coap {
  import opened Bytes
  import opened Wrappers
  import opened CoapWire

  const ERROR := -1
  const MAX_PDU_SIZE := 1024
  const URI_HOST: u16 := 3
  const URI_PATH: u16 := 11
  const DEVICE_DISCOVER := Ascii("device_discover")
  const NONCON: MsgType := 1

  class ReadWriteBuffer {
    const buffer: array<byte>
    var len: int
    const cap: int

    ghost predicate Valid()
      reads this
    {
      0 <= len <= cap <= buffer.Length
    }

    ghost function Contents(): seq<byte>
      requires Valid()
      reads this, buffer
    {
      buffer[..len]
    }

    constructor (buffer: array<byte>, cap: nat)
      requires cap <= buffer.Length
      ensures Valid() && this.buffer == buffer && this.cap == cap && len == 0
    {
      this.buffer, this.len, this.cap := buffer, 0, cap;
    }

    method WriteByte(b: byte) returns (ok: bool)
      requires Valid()
      modifies this`len, buffer
      ensures Valid()
      ensures ok <==> |old(Contents())| + 1 <= cap
      ensures Contents() == if ok then old(Contents()) + [b] else old(Contents())
    {
      if len >= cap { return false; }
      buffer[len] := b;
      len := len + 1;
      return true;
    }

    method WriteBytes(data: seq<byte>) returns (ok: bool)
      requires Valid()
      modifies this`len, buffer
      ensures Valid()
      ensures ok <==> |old(Contents())| + |data| <= cap
      ensures Contents() == if ok then old(Contents()) + data else old(Contents())
    {
      if len + |data| > cap { return false; }
      forall i | 0 <= i < |data| {
        buffer[len + i] := data[i];
      }
      len := len + |data|;
      return true;
    }

    /** A write that is one step of a known packet: `goal` is what is there, this data, and the rest. */
    method Emit(data: seq<byte>, ghost rest: seq<byte>, ghost goal: seq<byte>) returns (ok: bool)
      requires Valid()
      requires goal == Contents() + (data + rest)
      modifies this`len, buffer
      ensures Valid() && old(len) <= len
      ensures Contents() <= goal
      ensures if ok then goal == Contents() + rest else |goal| > cap
    {
      ghost var c := Contents();
      assert goal == (c + data) + rest;
      if |data| == 1 {
        ok := WriteByte(data[0]);
      } else {
        ok := WriteBytes(data);
      }
    }
  }

  class Packet {
    var ver: nat
    var mtype: nat
    var tokenLen: nat
    var code: byte
    var msgId: u16
    var token: seq<byte>
    var optionsNum: nat
    const options: array<Opt>
    var payload: seq<byte>
    var len: nat

    ghost predicate Valid()
      reads this
    {
      optionsNum <= options.Length == MAX_OPTIONS
    }

    constructor ()
      ensures Valid() && fresh(options) && optionsNum == 0 && token == [] && payload == []
    {
      options := new Opt[MAX_OPTIONS](_ => Opt(0, []));
      ver, mtype, tokenLen, code, msgId, optionsNum, len := 0, 0, 0, 0, 0, 0, 0;
      token, payload := [], [];
    }

    ghost function Stored(): seq<Opt>
      requires Valid()
      reads this, options
    {
      options[..optionsNum]
    }

    ghost function Held(): Slots
      requires Valid()
      reads this, options
    {
      Slots(Stored(), payload)
    }
  }

  // ------------------------------------------------------------------ encoding

  /** A failed encode leaves a prefix of the packet behind what was in the buffer. */
  predicate WrittenPart(before: seq<byte>, after: seq<byte>, wire: seq<byte>) {
    |before| <= |after| && after <= before + wire
  }

  method Encode(pkt: Packet, m: Message, buf: ReadWriteBuffer) returns (ret: int)
    requires buf.Valid() && |m.options| < 0x100
    modifies pkt`ver, pkt`mtype, pkt`code, pkt`msgId, pkt`tokenLen, pkt`len, buf`len, buf.buffer
    ensures buf.Valid()
    ensures ret == SUCCESS <==> TokenAccepted(m) && |old(buf.Contents())| + Size(m) <= buf.cap
    ensures ret == TOKEN_INVALID_SHORT <==> !TokenAccepted(m)
    ensures ret == SUCCESS || ret == TOKEN_INVALID_SHORT || ret == ERROR
    ensures ret == SUCCESS ==> buf.Contents() == old(buf.Contents()) + Wire(m) && pkt.len == buf.len % TWO_32
    ensures ret == TOKEN_INVALID_SHORT ==> buf.Contents() == old(buf.Contents())
    ensures WrittenPart(old(buf.Contents()), buf.Contents(), Wire(m))
    ensures pkt.ver == 1 && pkt.mtype == m.mtype && pkt.code == m.code && pkt.msgId == m.msgId
    ensures pkt.tokenLen == |m.token| % 0x100
  {
    pkt.ver, pkt.mtype, pkt.code, pkt.msgId := 1, m.mtype, m.code, m.msgId;
    pkt.tokenLen := |m.token| % 0x100;
    if pkt.tokenLen > 8 { return TOKEN_INVALID_SHORT; }
    ghost var goal := buf.Contents() + Wire(m);
    WireSize(m);
    var ok := WriteMessage(m, buf, goal);
    if !ok { return ERROR; }
    pkt.len := buf.len % TWO_32;
    return SUCCESS;
  }

  method WriteMessage(m: Message, buf: ReadWriteBuffer, ghost goal: seq<byte>) returns (ok: bool)
    requires buf.Valid() && TokenAccepted(m)
    requires goal == buf.Contents() + Wire(m)
    modifies buf`len, buf.buffer
    ensures buf.Valid() && old(buf.len) <= buf.len
    ensures buf.Contents() <= goal
    ensures if ok then goal == buf.Contents() else |goal| > buf.cap
  {
    hide Wire, PrintOptions, Deltas;
    ghost var body := PrintOptions(Deltas(0, m.options)) + PayloadBytes(m.payload);
    HeadPieces(m, body);
    ok := WriteHead(m, body, buf, goal);
    if !ok { return; }
    ok := WriteOptions(m.options, PayloadBytes(m.payload), goal, buf);
    if !ok { return; }
    if |m.payload| > 0 {
      ok := buf.Emit([MARKER], m.payload, goal);
      if !ok { return; }
      assert m.payload + [] == m.payload;
      ok := buf.Emit(m.payload, [], goal);
      if !ok { return; }
    }
    assert buf.Contents() + [] == buf.Contents();
  }

  method WriteHead(m: Message, ghost body: seq<byte>, buf: ReadWriteBuffer, ghost goal: seq<byte>) returns (ok: bool)
    requires buf.Valid() && TokenAccepted(m)
    requires goal == buf.Contents() + ([FirstByte(m)] + ([m.code] + (BE16(m.msgId) + (m.token + body))))
    modifies buf`len, buf.buffer
    ensures buf.Valid() && old(buf.len) <= buf.len
    ensures buf.Contents() <= goal
    ensures if ok then goal == buf.Contents() + body else |goal| > buf.cap
  {
    ghost var rest2 := m.token + body;
    ghost var rest1 := BE16(m.msgId) + rest2;
    ghost var rest0 := [m.code] + rest1;
    ok := buf.Emit([64 + m.mtype * 16 + |m.token| % 0x100], rest0, goal);
    if !ok { return; }
    ok := buf.Emit([m.code], rest1, goal);
    if !ok { return; }
    ok := buf.Emit(BE16(m.msgId), rest2, goal);
    if !ok { return; }
    ok := buf.Emit(m.token, body, goal);
  }

  lemma HeadPieces(m: Message, body: seq<byte>)
    requires body == PrintOptions(Deltas(0, m.options)) + PayloadBytes(m.payload)
    ensures Wire(m) == [FirstByte(m)] + ([m.code] + (BE16(m.msgId) + (m.token + body)))
  {
    assert Wire(m) == Head(m) + body;
  }

  /** The option loop; `goal` is what the buffer will hold at the end of the packet. */
  method WriteOptions(options: seq<Opt>, ghost payload: seq<byte>, ghost goal: seq<byte>, buf: ReadWriteBuffer)
    returns (ok: bool)
    requires buf.Valid()
    requires goal == buf.Contents() + (PrintOptions(Deltas(0, options)) + payload)
    modifies buf`len, buf.buffer
    ensures buf.Valid() && old(buf.len) <= buf.len
    ensures buf.Contents() <= goal
    ensures if ok then goal == buf.Contents() + payload else |goal| > buf.cap
  {
    var prevOptionNum: u16 := 0;
    for i := 0 to |options|
      invariant buf.Valid() && old(buf.len) <= buf.len
      invariant goal == buf.Contents() + (PrintOptions(Deltas(prevOptionNum, options[i..])) + payload)
    {
      var opt := options[i];
      var delta := (opt.num - prevOptionNum) % 0x1_0000;
      ghost var more := Deltas(opt.num, options[i + 1..]);
      assert options[i..][1..] == options[i + 1..];
      assert Deltas(prevOptionNum, options[i..]) == [RawOption(delta, opt.value)] + more;
      OptionPieces(RawOption(delta, opt.value), more, payload);
      ok := WriteOption(delta, opt.value, PrintOptions(more) + payload, goal, buf);
      if !ok { return; }
      prevOptionNum := opt.num;
    }
    assert options[|options|..] == [];
    assert [] + payload == payload;
    ok := true;
  }

  method WriteOption(delta: u16, value: seq<byte>, ghost rest: seq<byte>, ghost goal: seq<byte>, buf: ReadWriteBuffer)
    returns (ok: bool)
    requires buf.Valid()
    requires goal == buf.Contents() + ([OptionHeader(RawOption(delta, value))]
                                       + (Extension(delta) + (Extension(|value|) + (value + rest))))
    modifies buf`len, buf.buffer
    ensures buf.Valid() && old(buf.len) <= buf.len
    ensures buf.Contents() <= goal
    ensures if ok then goal == buf.Contents() + rest else |goal| > buf.cap
  {
    var length := |value|;
    var deltaExt, lenExt := Extension(delta), Extension(length);
    ghost var rest2 := value + rest;
    ghost var rest1 := lenExt + rest2;
    ghost var rest0 := deltaExt + rest1;
    ok := buf.Emit([Nibble(delta) * 16 + Nibble(length)], rest0, goal);
    if !ok { return; }
    if |deltaExt| > 0 {
      ok := buf.Emit(deltaExt, rest1, goal);
      if !ok { return; }
    } else {
      assert rest0 == rest1;
    }
    if |lenExt| > 0 {
      ok := buf.Emit(lenExt, rest2, goal);
      if !ok { return; }
    } else {
      assert rest1 == rest2;
    }
    ok := buf.Emit(value, rest, goal);
  }

  lemma OptionPieces(o: RawOption, os: seq<RawOption>, p: seq<byte>)
    ensures PrintOptions([o] + os) + p
         == [OptionHeader(o)] + (Extension(o.delta) + (Extension(|o.value|) + (o.value + (PrintOptions(os) + p))))
  {
    assert ([o] + os)[1..] == os;
    Regroup(OptionHeader(o), Extension(o.delta), Extension(|o.value|), o.value, PrintOptions(os) + p);
    assert PrintOptions([o] + os) + p == PrintOption(o) + (PrintOptions(os) + p);
  }

  // ------------------------------------------------------------------ decoding

  /** The part of the receive buffer that the caller declares to hold the packet. */
  function View(buf: seq<byte>, bufLen: int): seq<byte>
    requires bufLen <= |buf|
  {
    if bufLen < 0 then [] else buf[..bufLen]
  }

  datatype NumberedOptions = Bad(code: int) | Good(opts: seq<Opt>, tail: Maybe<seq<byte>>)

  function NumberAll(prev: u16, p: Parsed): NumberedOptions {
    match p
    case Malformed(code) => Bad(code)
    case Parsed(os, tail) => Good(Numbered(prev, os), tail)
  }

  function After(opts: seq<Opt>, r: NumberedOptions): NumberedOptions {
    match r
    case Bad(code) => r
    case Good(more, tail) => Good(opts + more, tail)
  }

  /** What the option parser makes of `s` when the options `done` are already stored. */
  function Rest(done: seq<Opt>, prev: u16, s: seq<byte>): NumberedOptions {
    After(done, NumberAll(prev, ParseOptions(s, |done|)))
  }

  lemma RestStops(done: seq<Opt>, prev: u16, s: seq<byte>)
    ensures s == [] ==> Rest(done, prev, s) == Good(done, Nothing)
    ensures s != [] && s[0] == MARKER ==> Rest(done, prev, s) == Good(done, Just(s[1..]))
    ensures s != [] && s[0] != MARKER && |done| >= MAX_OPTIONS ==> Rest(done, prev, s) == Bad(OPT_INVALID_BIG)
    ensures s != [] && s[0] != MARKER && |done| < MAX_OPTIONS && ReadOption(s).BadOption? ==>
              Rest(done, prev, s) == Bad(ReadOption(s).code)
  {
    assert done + [] == done;
  }

  lemma RestContinues(done: seq<Opt>, prev: u16, s: seq<byte>, one: OneOption, num: u16)
    requires s != [] && s[0] != MARKER && |done| < MAX_OPTIONS && ReadOption(s) == one && one.OneOption?
    requires num == (prev + one.o.delta) % 0x1_0000
    ensures Rest(done, prev, s) == Rest(done + [Opt(num, one.o.value)], num, one.rest)
  {
    ReadOptionShrinks(s);
    var rest := ParseOptions(one.rest, |done| + 1);
    if rest.Parsed? {
      assert ([one.o] + rest.os)[1..] == rest.os;
      assert done + ([Opt(num, one.o.value)] + Numbered(num, rest.os))
          == done + [Opt(num, one.o.value)] + Numbered(num, rest.os);
    }
  }

  /** One extended delta or length: the value, and where the next byte is. */
  method ReadExtended(nibble: nat, buf: seq<byte>, bufLen: nat, offset: nat)
    returns (code: int, value: nat, next: nat)
    requires offset <= bufLen <= |buf|
    ensures var f := ReadField(nibble, buf[offset..bufLen]);
            && (code == SUCCESS <==> f.Field?)
            && (f.BadField? ==> code == f.code)
            && (f.Field? ==> offset <= next <= bufLen && f == Field(value, buf[next..bufLen]))
  {
    code, value, next := SUCCESS, nibble, offset;
    if nibble == 13 {
      if offset >= bufLen { return OPT_INVALID_LEN, 0, offset; }
      value, next := 13 + buf[offset] as int, offset + 1;
    } else if nibble == 14 {
      if offset + 1 >= bufLen { return OPT_INVALID_LEN, 0, offset; }
      value, next := 269 + FromBE16(buf[offset], buf[offset + 1]) as int, offset + 2;
    } else if nibble >= 15 {
      return INVALID_PKT, 0, offset;
    }
  }

  /** One option: its delta, its value, and where the next byte is. */
  method ReadOptionAt(buf: seq<byte>, bufLen: nat, start: nat)
    returns (code: int, delta: nat, val: seq<byte>, next: nat)
    requires start < bufLen <= |buf|
    ensures var one := ReadOption(buf[start..bufLen]);
            && (code == SUCCESS <==> one.OneOption?)
            && (one.BadOption? ==> code == one.code)
            && (one.OneOption? ==> start < next <= bufLen && one == OneOption(RawOption(delta, val), buf[next..bufLen]))
  {
    hide ReadField;
    delta, val, next := 0, [], start;
    ghost var s := buf[start..bufLen];
    var h := buf[start];
    var offset := start + 1;
    assert s[0] == h && s[1..] == buf[offset..bufLen];
    var l;
    code, delta, offset := ReadExtended(h / 16, buf, bufLen, offset);
    if code != SUCCESS { return; }
    code, l, offset := ReadExtended(h % 16, buf, bufLen, offset);
    if code != SUCCESS { return; }
    ghost var s2 := buf[offset..bufLen];
    if offset + l > bufLen { code := OPT_INVALID_LEN; return; }
    val := buf[offset..offset + l];
    next := offset + l;
    SliceOfSlice(buf, offset, bufLen, 0, l);
    SliceOfSlice(buf, offset, bufLen, l, bufLen - offset);
    assert s2[..l] == val && s2[l..] == buf[next..bufLen];
  }

  /** The parts of a packet object that a decode may leave as they were. */
  datatype Slots = Slots(options: seq<Opt>, payload: seq<byte>)

  const EMPTY_SLOTS := Slots([], [])

  function SlotsOf(m: Message): Slots {
    Slots(m.options, m.payload)
  }

  /** What an accepted input leaves in an object: options stay if there is no body, a payload if none replaces it. */
  function Refill(held: Slots, s: seq<byte>): Slots
    requires Decode(s).Accept?
  {
    Slots(if Body(s) == [] then held.options else Decode(s).m.options,
          if Decode(s).m.payload == [] then held.payload else Decode(s).m.payload)
  }

  ghost predicate Holds(pkt: Packet, s: seq<byte>, held: Slots)
    requires pkt.Valid() && Decode(s).Accept?
    reads pkt, pkt.options
  {
    var m := Decode(s).m;
    && pkt.ver == 1 && pkt.mtype == m.mtype && pkt.code == m.code && pkt.msgId == m.msgId
    && pkt.token == m.token && pkt.tokenLen == |m.token|
    && pkt.Held() == Refill(held, s)
  }

  method DecodePacket(pkt: Packet, buf: seq<byte>, bufLen: int) returns (ret: int)
    requires pkt.Valid() && bufLen <= |buf|
    modifies pkt`ver, pkt`mtype, pkt`tokenLen, pkt`code, pkt`msgId, pkt`token, pkt`optionsNum, pkt`payload, pkt.options
    ensures pkt.Valid()
    ensures ret == SUCCESS <==> Decode(View(buf, bufLen)).Accept?
    ensures Decode(View(buf, bufLen)).Reject? ==> ret == Decode(View(buf, bufLen)).code
    ensures ret == SUCCESS ==> Holds(pkt, View(buf, bufLen), old(pkt.Held()))
  {
    hide ParseOptions, Numbered;
    ghost var s := View(buf, bufLen);
    if bufLen < 4 { return HEADER_INVALID_SHORT; }
    pkt.ver := buf[0] / 64;
    if pkt.ver != 1 { return VER_INVALID; }
    pkt.mtype, pkt.tokenLen := buf[0] / 16 % 4, buf[0] % 16;
    if pkt.tokenLen > 8 { return TOKEN_INVALID_SHORT; }
    pkt.code, pkt.msgId := buf[1], FromBE16(buf[2], buf[3]);
    var tokenEnd := 4 + pkt.tokenLen;
    if tokenEnd > bufLen { return TOKEN_INVALID_SHORT; }
    pkt.token := buf[4..tokenEnd];
    SliceOfSlice(buf, 0, bufLen, 4, tokenEnd);
    SliceOfSlice(buf, 0, bufLen, tokenEnd, bufLen);
    ret := ParseOptionsAndPayload(pkt, buf, bufLen, tokenEnd);
  }

  method ParseOptionsAndPayload(pkt: Packet, buf: seq<byte>, bufLen: nat, start: nat) returns (ret: int)
    requires pkt.Valid() && start <= bufLen <= |buf|
    modifies pkt`optionsNum, pkt`payload, pkt.options
    ensures pkt.Valid()
    ensures var p := NumberAll(0, ParseOptions(buf[start..bufLen], 0));
            && (p.Bad? ==> ret == p.code)
            && (ret == SUCCESS <==> p.Good?)
            && (p.Good? ==>
                && pkt.Stored() == (if start == bufLen then old(pkt.Stored()) else p.opts)
                && pkt.payload == (if TailPayload(p.tail) == [] then old(pkt.payload) else TailPayload(p.tail)))
  {
    var offset := start;
    if offset >= bufLen { return SUCCESS; }
    ghost var whole := Rest([], 0, buf[start..bufLen]);
    FirstRest(buf[start..bufLen]);
    var prevOptionNum: u16 := 0;
    pkt.optionsNum := 0;
    ghost var tail: Maybe<seq<byte>> := Nothing;
    while offset < bufLen
      invariant pkt.Valid() && start <= offset <= bufLen
      invariant pkt.payload == old(pkt.payload)
      invariant Rest(pkt.Stored(), prevOptionNum, buf[offset..bufLen]) == whole
    {
      if buf[offset] == MARKER {
        RestStops(pkt.Stored(), prevOptionNum, buf[offset..bufLen]);
        tail := Just(buf[offset..bufLen][1..]);
        offset := offset + 1;
        break;
      }
      var code;
      code, prevOptionNum, offset := ParseNext(pkt, buf, bufLen, offset, prevOptionNum);
      if code != SUCCESS { return code; }
    }
    if tail.Nothing? {
      RestStops(pkt.Stored(), prevOptionNum, buf[offset..bufLen]);
    }
    assert whole == Good(pkt.Stored(), tail);
    if offset < bufLen {
      pkt.payload := buf[offset..bufLen];
    }
    return SUCCESS;
  }

  /** One round of the option loop: the option at `start` is read, numbered and stored. */
  method ParseNext(pkt: Packet, buf: seq<byte>, bufLen: nat, start: nat, prevOptionNum: u16)
    returns (code: int, optionNum: u16, next: nat)
    requires pkt.Valid() && start < bufLen <= |buf| && buf[start] != MARKER
    modifies pkt`optionsNum, pkt.options
    ensures pkt.Valid()
    ensures var rest := Rest(old(pkt.Stored()), prevOptionNum, buf[start..bufLen]);
            if code == SUCCESS then start < next <= bufLen && rest == Rest(pkt.Stored(), optionNum, buf[next..bufLen])
            else rest == Bad(code)
  {
    hide Rest, ReadOption;
    optionNum, next := prevOptionNum, start;
    ghost var s := buf[start..bufLen];
    RestStops(pkt.Stored(), prevOptionNum, s);
    if pkt.optionsNum >= MAX_OPTIONS { code := OPT_INVALID_BIG; return; }
    var delta, val;
    code, delta, val, next := ReadOptionAt(buf, bufLen, start);
    if code != SUCCESS { return; }
    optionNum := (prevOptionNum + delta) % 0x1_0000;
    RestContinues(pkt.Stored(), prevOptionNum, s, ReadOption(s), optionNum);
    Store(pkt, Opt(optionNum, val));
  }

  lemma FirstRest(s: seq<byte>)
    ensures Rest([], 0, s) == NumberAll(0, ParseOptions(s, 0))
  {
    var r := NumberAll(0, ParseOptions(s, 0));
    assert r.Good? ==> [] + r.opts == r.opts;
  }

  method Store(pkt: Packet, opt: Opt)
    requires pkt.Valid() && pkt.optionsNum < MAX_OPTIONS
    modifies pkt`optionsNum, pkt.options
    ensures pkt.Valid() && pkt.optionsNum == old(pkt.optionsNum) + 1
    ensures pkt.Stored() == old(pkt.Stored()) + [opt]
  {
    pkt.options[pkt.optionsNum] := opt;
    pkt.optionsNum := pkt.optionsNum + 1;
  }

  lemma EmptyBody(s: seq<byte>)
    requires Decode(s).Accept? && Body(s) == []
    ensures SlotsOf(Decode(s).m) == EMPTY_SLOTS
  {}

  /**
  An object ends up holding exactly the decoded options and payload if and only if nothing stale
  shows: no old options while the body is empty, and no old payload while the payload is.
  */
  lemma HoldsMessage(held: Slots, s: seq<byte>)
    requires Decode(s).Accept?
    ensures Refill(held, s) == SlotsOf(Decode(s).m)
       <==> (Body(s) == [] ==> held.options == []) && (Decode(s).m.payload == [] ==> held.payload == [])
  {
    if Body(s) == [] {
      EmptyBody(s);
    }
  }

  predicate Accepted(inputs: seq<seq<byte>>) {
    forall i | 0 <= i < |inputs| :: Decode(inputs[i]).Accept?
  }

  /** What a new object holds after all of these inputs were decoded into it. */
  function RefillAll(inputs: seq<seq<byte>>): Slots
    requires Accepted(inputs)
  {
    if inputs == [] then EMPTY_SLOTS
    else
      var n := |inputs| - 1;
      Refill(RefillAll(inputs[..n]), inputs[n])
  }

  /** However many inputs: options show from the last one that had a body, the payload from the last that had one. */
  lemma {:induction false} ShowsLast(inputs: seq<seq<byte>>, i: nat)
    requires Accepted(inputs) && i < |inputs|
    ensures Body(inputs[i]) != [] && (forall j | i < j < |inputs| :: Body(inputs[j]) == []) ==>
              RefillAll(inputs).options == Decode(inputs[i]).m.options
    ensures Decode(inputs[i]).m.payload != []
            && (forall j | i < j < |inputs| :: Decode(inputs[j]).m.payload == []) ==>
              RefillAll(inputs).payload == Decode(inputs[i]).m.payload
  {
    hide Decode, Body;
    var n := |inputs| - 1;
    if i < n {
      assert forall j | 0 <= j < n :: inputs[..n][j] == inputs[j];
      ShowsLast(inputs[..n], i);
    }
  }

  /** Two inputs decoded into one new packet object. */
  method DecodeTwice(first: seq<byte>, second: seq<byte>) returns (pkt: Packet, ret: int)
    ensures fresh(pkt) && pkt.Valid()
    ensures ret == SUCCESS <==> Decode(first).Accept? && Decode(second).Accept?
    ensures ret == SUCCESS ==>
              && Holds(pkt, second, SlotsOf(Decode(first).m))
              && (pkt.Held() == SlotsOf(Decode(second).m) <==>
                  (Body(second) == [] ==> Decode(first).m.options == [])
                  && (Decode(second).m.payload == [] ==> Decode(first).m.payload == []))
  {
    hide Decode, Body;
    pkt := new Packet();
    assert first[..|first|] == first && second[..|second|] == second;
    assert pkt.Held() == EMPTY_SLOTS;
    ret := DecodePacket(pkt, first, |first|);
    if ret != SUCCESS { return; }
    HoldsMessage(EMPTY_SLOTS, first);
    ghost var held := pkt.Held();
    ret := DecodePacket(pkt, second, |second|);
    if ret != SUCCESS { return; }
    HoldsMessage(held, second);
  }

  /** A packet with an option and a payload, then one with neither: what shows afterwards is not the second packet. */
  lemma StalePacket()
    ensures var first: seq<byte>, second: seq<byte> := [0x40, 1, 0, 7, 0x11, 5, 0xFF, 9], [0x40, 1, 0, 8];
            && Decode(first).Accept? && Decode(second) == Accept(Message(0, 1, 8, [], [], []))
            && Refill(Refill(EMPTY_SLOTS, first), second) == Slots([Opt(1, [5])], [9])
  {
    FirstOfTwo();
    SecondOfTwo();
    hide Decode, Body;
  }

  lemma FirstOfTwo()
    ensures Decode([0x40, 1, 0, 7, 0x11, 5, 0xFF, 9]) == Accept(Message(0, 1, 7, [], [Opt(1, [5])], [9]))
    ensures Body([0x40, 1, 0, 7, 0x11, 5, 0xFF, 9]) != []
  {
    OneOptionBody();
    hide ParseOptions, Numbered;
    var first: seq<byte> := [0x40, 1, 0, 7, 0x11, 5, 0xFF, 9];
    assert Body(first) == [0x11, 5, 0xFF, 9];
  }

  lemma SecondOfTwo()
    ensures Decode([0x40, 1, 0, 8]) == Accept(Message(0, 1, 8, [], [], []))
    ensures Body([0x40, 1, 0, 8]) == []
  {}

  lemma OneOptionBody()
    ensures ParseOptions([0x11, 5, 0xFF, 9], 0) == Parsed([RawOption(1, [5])], Just([9]))
    ensures Numbered(0, [RawOption(1, [5])]) == [Opt(1, [5])]
  {
    var body: seq<byte>, rest: seq<byte> := [0x11, 5, 0xFF, 9], [0xFF, 9];
    assert body[1..] == [5, 0xFF, 9] && body[1..][1..] == rest && rest[1..] == [9];
    assert ReadOption(body) == OneOption(RawOption(1, [5]), rest);
    assert ParseOptions(rest, 1) == Parsed([], Just([9]));
  }

  // ---------------------------------------------------------- discovery response

  /** Lengths are passed on as 32-bit numbers, and only that many bytes are sent. */
  function Cut32(s: seq<byte>): (t: seq<byte>)
    ensures t <= s && |t| == |s| % TWO_32
    ensures |s| < TWO_32 ==> t == s
  {
    s[..|s| % TWO_32]
  }

  function Response(code: byte, msgId: u16, token: seq<byte>, remoteIp: seq<byte>, payload: seq<byte>): Message {
    Message(NONCON, code, msgId, token, [Opt(URI_HOST, Cut32(remoteIp)), Opt(URI_PATH, DEVICE_DISCOVER)],
            Cut32(payload + [0]))
  }

  /** The capacity is compared as a 32-bit number, whatever int it is. */
  predicate ResponseFits(m: Message, bufferLength: nat, cap: int) {
    TokenAccepted(m) && Size(m) <= bufferLength && Size(m) <= MAX_PDU_SIZE && Size(m) < ToU32(cap)
  }

  /**
  What a receiver makes of an answer: a message of type 1 with the code, id and token of the request, option 3
  with the address, option 11 with the fixed path, and the payload with a zero byte after it.
  */
  predicate IsAnswer(s: seq<byte>, code: byte, msgId: u16, token: seq<byte>, remoteIp: seq<byte>, payload: seq<byte>) {
    && Decode(s).Accept?
    && var m := Decode(s).m;
       && m.mtype == 1 && m.code == code && m.msgId == msgId && m.token == token
       && m.options == [Opt(3, remoteIp), Opt(11, Ascii("device_discover"))]
       && m.payload == payload + [0]
  }

  lemma ResponseIsAnswer(m: Message, code: byte, msgId: u16, token: seq<byte>, remoteIp: seq<byte>, payload: seq<byte>)
    requires m == Response(code, msgId, token, remoteIp, payload) && Size(m) <= MAX_PDU_SIZE
    requires |token| <= 8 && |remoteIp| < 0x1_0000_0000 && |payload| < 0xFFFF_FFFF
    ensures IsAnswer(Wire(m), code, msgId, token, remoteIp, payload)
  {
    hide Decode, Wire;
    assert |m.options[0].value| <= OptionsSize(0, m.options);
    DecodeWireOfRepresentable(m);
  }

  method BuildSendPkt(pkt: Packet, remoteIp: seq<byte>, payload: seq<byte>, snd: ReadWriteBuffer) returns (ret: int)
    modifies snd`len, snd.buffer
    ensures ret == SUCCESS || ret == BAD_REQ
    ensures var m := Response(pkt.code, pkt.msgId, pkt.token, remoteIp, payload);
            && (ret == SUCCESS <==> remoteIp != [] && payload != [] && ResponseFits(m, snd.buffer.Length, snd.cap))
            && (ret == SUCCESS ==> 0 <= snd.len <= snd.buffer.Length && snd.buffer[..snd.len] == Wire(m))
    ensures ret == SUCCESS && |pkt.token| <= 8 && |remoteIp| < 0x1_0000_0000 && |payload| < 0xFFFF_FFFF ==>
              IsAnswer(snd.buffer[..snd.len], pkt.code, pkt.msgId, pkt.token, remoteIp, payload)
    ensures ret == BAD_REQ && remoteIp != [] && payload != [] ==> snd.len == 0
    ensures remoteIp == [] || payload == [] ==> snd.len == old(snd.len) && snd.buffer[..] == old(snd.buffer[..])
  {
    hide IsAnswer, Wire, Size;
    if remoteIp == [] || payload == [] { return BAD_REQ; }
    var m := Response(pkt.code, pkt.msgId, pkt.token, remoteIp, payload);
    snd.len := 0;
    var limit := if snd.buffer.Length < MAX_PDU_SIZE then snd.buffer.Length else MAX_PDU_SIZE;
    forall i | 0 <= i < limit {
      snd.buffer[i] := 0;
    }
    var respPkt := new Packet();
    var rwBuf := new ReadWriteBuffer(snd.buffer, limit);
    WireSize(m);
    var code := Encode(respPkt, m, rwBuf);
    if code != SUCCESS { return BAD_REQ; }
    var bufLen := rwBuf.len;
    if bufLen >= ToU32(snd.cap) { return BAD_REQ; }
    snd.len := bufLen;
    if |pkt.token| <= 8 && |remoteIp| < 0x1_0000_0000 && |payload| < 0xFFFF_FFFF {
      ResponseIsAnswer(m, pkt.code, pkt.msgId, pkt.token, remoteIp, payload);
    }
    return SUCCESS;
  }

  /** What is sent decodes at the receiver to the same message, exactly when the request's token was a legal one. */
  lemma ResponseDecodes(m: Message, code: byte, msgId: u16, token: seq<byte>, remoteIp: seq<byte>, payload: seq<byte>)
    requires m == Response(code, msgId, token, remoteIp, payload)
    requires ResponseFits(m, MAX_PDU_SIZE, MAX_PDU_SIZE)
    ensures Decode(Wire(m)) == Accept(m) <==> |token| <= 8
    ensures |Wire(m)| <= 1023
  {
    DecodeEncode(m);
    WireSize(m);
    assert |m.options[0].value| <= OptionsSize(0, m.options);
  }

  /** A token that comes from a decoded request is a legal one, so the response to it always decodes to itself. */
  lemma RequestAnswered(request: seq<byte>, m: Message, code: byte, msgId: u16, remoteIp: seq<byte>,
                        payload: seq<byte>)
    requires Decode(request).Accept?
    requires m == Response(code, msgId, Decode(request).m.token, remoteIp, payload)
    requires ResponseFits(m, MAX_PDU_SIZE, MAX_PDU_SIZE)
    ensures Decode(Wire(m)) == Accept(m)
  {
    DecodedIsRepresentable(request);
    ResponseDecodes(m, code, msgId, Decode(request).m.token, remoteIp, payload);
  }

  /** Only a packet that a caller makes up can carry this token: its length becomes 0, and its bytes are sent. */
  lemma LongToken()
    ensures var token: seq<byte> := seq(256, _ => 0);
            var m := Response(0, 0, token, [1], [1]);
            ResponseFits(m, MAX_PDU_SIZE, MAX_PDU_SIZE) && Decode(Wire(m)) != Accept(m)
  {
    var token: seq<byte> := seq(256, _ => 0);
    var m := Response(0, 0, token, [1], [1]);
    assert Cut32([1]) == [1] && Cut32([1] + [0]) == [1, 0];
    var path := [Opt(URI_PATH, DEVICE_DISCOVER)];
    assert m.options[1..] == path && path[1..] == [];
    assert OptionsSize(URI_PATH, path[1..]) == 0;
    assert OptionsSize(URI_HOST, path) == 1 + FieldSize(8) + FieldSize(15) + 15 == 17;
    assert OptionsSize(0, m.options) == 1 + FieldSize(3) + FieldSize(1) + 1 + OptionsSize(URI_HOST, path) == 19;
    ResponseDecodes(m, 0, 0, token, [1], [1]);
  }

  // ---------------------------------------------------------------- message ids

  class MsgIdGenerator {
    var msgId: u16

    constructor ()
      ensures msgId == IdAfter(0)
    {
      msgId := 0;
    }

    method Init()
      modifies this
      ensures msgId == IdAfter(0)
    {
      msgId := 0;
    }

    method Next(ghost calls: nat) returns (id: u16)
      requires msgId == IdAfter(calls)
      modifies this
      ensures id == msgId == IdAfter(calls + 1)
    {
      msgId := (msgId + 1) % 0x1_0000;
      if msgId == 0 {
        msgId := (msgId + 1) % 0x1_0000;
      }
      return msgId;
    }
  }

  /** The id issued by the given call after initialisation, as the wrap-around of a 16-bit counter that skips 0. */
  function IdAfter(calls: nat): u16 {
    if calls == 0 then 0 else NextId(IdAfter(calls - 1))
  }

  function NextId(id: u16): u16 {
    var next := (id + 1) % 0x1_0000;
    if next == 0 then 1 else next
  }

  lemma {:induction false} IdClosedForm(calls: nat)
    requires calls > 0
    ensures IdAfter(calls) == (calls - 1) % 0xFFFF + 1
  {
    hide IdAfter, NextId;
    IdStep(calls);
    if calls > 1 {
      IdClosedForm(calls - 1);
      NextResidue(calls - 2);
    }
  }

  lemma IdStep(calls: nat)
    requires calls > 0
    ensures IdAfter(calls) == NextId(IdAfter(calls - 1))
    ensures IdAfter(1) == 1
  {}

  lemma NextResidue(n: nat)
    ensures NextId(n % 0xFFFF + 1) == (n + 1) % 0xFFFF + 1
  {
    var q := n / 0xFFFF;
    assert n + 1 == 0xFFFF * q + (n % 0xFFFF + 1);
  }

  /** Ids repeat after exactly 65535 calls and no sooner, and 0 is never issued. */
  lemma IdsDistinct(i: nat, j: nat)
    requires 0 < i < j
    ensures IdAfter(i) != 0
    ensures j < i + 0xFFFF ==> IdAfter(i) != IdAfter(j)
    ensures IdAfter(i) == IdAfter(j) <==> (j - i) % 0xFFFF == 0
  {
    hide IdAfter;
    IdClosedForm(i);
    IdClosedForm(j);
    SameResidue(i - 1, j - 1);
  }

  lemma SameResidue(a: nat, b: nat)
    requires a < b
    ensures a % 0xFFFF == b % 0xFFFF <==> (b - a) % 0xFFFF == 0
    ensures b < a + 0xFFFF ==> a % 0xFFFF != b % 0xFFFF
  {
    var k := b / 0xFFFF - a / 0xFFFF;
    var r := b % 0xFFFF - a % 0xFFFF;
    assert b - a == 0xFFFF * k + r;
    if (b - a) % 0xFFFF == 0 {
      var q := (b - a) / 0xFFFF;
      assert 0xFFFF * (q - k) == r && -0xFFFF < r < 0xFFFF;
    }
  }
}
