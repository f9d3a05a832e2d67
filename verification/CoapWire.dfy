/**
The byte format of a CoAP message (RFC 7252, sections 3 and 3.1) as the adapter
reads and writes it, in two layers: raw options carry the delta that is on the
wire, options carry the option number that the deltas add up to.
*/
module CoapWire {
  import opened Bytes
  import opened Wrappers

  const SUCCESS := 0
  const HEADER_INVALID_SHORT := 1
  const VER_INVALID := 2
  const TOKEN_INVALID_SHORT := 3
  const OPT_INVALID_BIG := 4
  const OPT_INVALID_LEN := 5
  const INVALID_PKT := 7
  const BAD_REQ := 8

  const MARKER: byte := 0xFF
  const MAX_OPTIONS := 16
  /** The largest number that a nibble with a two-byte extension can carry. */
  const MAX_FIELD := 269 + 0xFFFF

  type MsgType = t: int | 0 <= t < 4

  datatype RawOption = RawOption(delta: nat, value: seq<byte>)
  datatype Opt = Opt(num: u16, value: seq<byte>)

  // ---------------------------------------------------------------- printing

  function Nibble(n: nat): nat {
    if n < 13 then n else if n < 269 then 13 else 14
  }

  /** The extension bytes of a delta or a length; the two-byte form truncates to 16 bits. */
  function Extension(n: nat): seq<byte> {
    if n < 13 then []
    else if n < 269 then [n - 13]
    else BE16((n - 269) % 0x1_0000)
  }

  function OptionHeader(o: RawOption): byte {
    Nibble(o.delta) * 16 + Nibble(|o.value|)
  }

  function PrintOption(o: RawOption): seq<byte> {
    [OptionHeader(o)] + Extension(o.delta) + Extension(|o.value|) + o.value
  }

  function PrintOptions(os: seq<RawOption>): seq<byte> {
    if os == [] then [] else PrintOption(os[0]) + PrintOptions(os[1..])
  }

  function PrintTail(tail: Maybe<seq<byte>>): seq<byte> {
    if tail.Nothing? then [] else [MARKER] + tail.value
  }

  // ----------------------------------------------------------------- parsing

  datatype Field = BadField(code: int) | Field(n: nat, rest: seq<byte>)
  datatype OneOption = BadOption(code: int) | OneOption(o: RawOption, rest: seq<byte>)
  datatype Parsed = Malformed(code: int) | Parsed(os: seq<RawOption>, tail: Maybe<seq<byte>>)

  function ReadField(nibble: nat, s: seq<byte>): Field {
    if nibble < 13 then Field(nibble, s)
    else if nibble == 13 then
      if |s| < 1 then BadField(OPT_INVALID_LEN) else Field(13 + s[0] as int, s[1..])
    else if nibble == 14 then
      if |s| < 2 then BadField(OPT_INVALID_LEN) else Field(269 + FromBE16(s[0], s[1]) as int, s[2..])
    else BadField(INVALID_PKT)
  }

  function ReadOption(s: seq<byte>): OneOption
    requires s != []
  {
    match ReadField(s[0] / 16, s[1..])
    case BadField(code) => BadOption(code)
    case Field(delta, s1) =>
      match ReadField(s[0] % 16, s1)
      case BadField(code) => BadOption(code)
      case Field(len, s2) =>
        if |s2| < len then BadOption(OPT_INVALID_LEN)
        else OneOption(RawOption(delta, s2[..len]), s2[len..])
  }

  lemma ReadOptionShrinks(s: seq<byte>)
    requires s != [] && ReadOption(s).OneOption?
    ensures |ReadOption(s).rest| < |s|
  {}

  /** Reads options until the payload marker or the end; `count` options were read before. */
  function ParseOptions(s: seq<byte>, count: nat): Parsed
    decreases |s|
  {
    if s == [] then Parsed([], Nothing)
    else if s[0] == MARKER then Parsed([], Just(s[1..]))
    else if count >= MAX_OPTIONS then Malformed(OPT_INVALID_BIG)
    else
      match ReadOption(s)
      case BadOption(code) => Malformed(code)
      case OneOption(o, rest) =>
        ReadOptionShrinks(s);
        match ParseOptions(rest, count + 1)
        case Malformed(code) => Malformed(code)
        case Parsed(os, tail) => Parsed([o] + os, tail)
  }

  // ---------------------------------------------- the two are mutually inverse

  predicate Printable(o: RawOption) {
    o.delta <= MAX_FIELD && |o.value| <= MAX_FIELD
  }

  lemma ReadPrintedField(n: nat, s: seq<byte>)
    requires n <= MAX_FIELD
    ensures ReadField(Nibble(n), Extension(n) + s) == Field(n, s)
  {
    var t := Extension(n) + s;
    if n < 13 {
      assert t == s;
    } else if n < 269 {
      assert t[1..] == s;
    } else {
      assert t[2..] == s;
    }
  }

  /** No option header is mistaken for the payload marker. */
  lemma HeaderIsNotMarker(o: RawOption)
    ensures PrintOption(o) != [] && PrintOption(o)[0] != MARKER
    ensures PrintOption(o)[0] / 16 == Nibble(o.delta) && PrintOption(o)[0] % 16 == Nibble(|o.value|)
  {}

  lemma ReadPrintedOption(o: RawOption, s: seq<byte>)
    requires Printable(o)
    ensures ReadOption(PrintOption(o) + s) == OneOption(o, s)
  {
    var t := PrintOption(o) + s;
    var s2 := o.value + s;
    var s1 := Extension(|o.value|) + s2;
    HeaderIsNotMarker(o);
    assert t[1..] == Extension(o.delta) + s1;
    ReadPrintedField(o.delta, s1);
    ReadPrintedField(|o.value|, s2);
    assert s2[..|o.value|] == o.value && s2[|o.value|..] == s;
  }

  lemma {:induction false} ParsePrinted(os: seq<RawOption>, tail: Maybe<seq<byte>>, count: nat)
    requires forall o | o in os :: Printable(o)
    requires |os| + count <= MAX_OPTIONS
    ensures ParseOptions(PrintOptions(os) + PrintTail(tail), count) == Parsed(os, tail)
  {
    hide ReadOption, PrintOption;
    var s := PrintOptions(os) + PrintTail(tail);
    if os == [] {
      assert s == PrintTail(tail);
    } else {
      var rest := PrintOptions(os[1..]) + PrintTail(tail);
      assert s == PrintOption(os[0]) + rest;
      HeaderIsNotMarker(os[0]);
      ReadPrintedOption(os[0], rest);
      ParsePrinted(os[1..], tail, count + 1);
      assert os == [os[0]] + os[1..];
    }
  }

  lemma PrintReadField(nibble: nat, s: seq<byte>)
    requires ReadField(nibble, s).Field?
    ensures var f := ReadField(nibble, s);
            f.n <= MAX_FIELD && Nibble(f.n) == nibble && Extension(f.n) + f.rest == s
  {
    if nibble == 13 {
      assert [s[0]] + s[1..] == s;
    } else if nibble == 14 {
      assert BE16(FromBE16(s[0], s[1])) == [s[0], s[1]];
      assert [s[0], s[1]] + s[2..] == s;
    }
  }

  lemma PrintReadOption(s: seq<byte>)
    requires s != [] && ReadOption(s).OneOption?
    ensures Printable(ReadOption(s).o)
    ensures PrintOption(ReadOption(s).o) + ReadOption(s).rest == s
  {
    hide ReadField, Extension, Nibble;
    var f1 := ReadField(s[0] / 16, s[1..]);
    var f2 := ReadField(s[0] % 16, f1.rest);
    PrintReadField(s[0] / 16, s[1..]);
    PrintReadField(s[0] % 16, f1.rest);
    var o := ReadOption(s).o;
    assert OptionHeader(o) == s[0];
    assert o.value + f2.rest[f2.n..] == f2.rest;
    Regroup(s[0], Extension(f1.n), Extension(f2.n), o.value, f2.rest[f2.n..]);
    assert [s[0]] + s[1..] == s;
  }

  lemma Regroup(h: byte, a: seq<byte>, b: seq<byte>, c: seq<byte>, d: seq<byte>)
    ensures [h] + a + b + c + d == [h] + (a + (b + (c + d)))
  {}

  lemma PrintCons(o: RawOption, os: seq<RawOption>, tail: Maybe<seq<byte>>)
    ensures PrintOptions([o] + os) + PrintTail(tail) == PrintOption(o) + (PrintOptions(os) + PrintTail(tail))
  {
    assert ([o] + os)[1..] == os;
  }

  /** Whatever the option parser accepts is, byte for byte, the printed form of what it returns. */
  lemma {:induction false} PrintParsed(s: seq<byte>, count: nat)
    requires ParseOptions(s, count).Parsed?
    ensures var p := ParseOptions(s, count);
            && PrintOptions(p.os) + PrintTail(p.tail) == s
            && (forall o | o in p.os :: Printable(o))
            && (|p.os| > 0 ==> |p.os| + count <= MAX_OPTIONS)
    decreases |s|
  {
    hide ReadOption, PrintOption;
    var p := ParseOptions(s, count);
    if s != [] && s[0] != MARKER {
      var one := ReadOption(s);
      ReadOptionShrinks(s);
      PrintReadOption(s);
      var q := ParseOptions(one.rest, count + 1);
      PrintParsed(one.rest, count + 1);
      assert p == Parsed([one.o] + q.os, q.tail);
      PrintCons(one.o, q.os, q.tail);
    }
  }

  // --------------------------------------------------- deltas and option numbers

  function Numbered(prev: u16, os: seq<RawOption>): seq<Opt>
    decreases os
  {
    if os == [] then []
    else
      var num := (prev + os[0].delta) % 0x1_0000;
      [Opt(num, os[0].value)] + Numbered(num, os[1..])
  }

  function Deltas(prev: u16, opts: seq<Opt>): seq<RawOption>
    decreases opts
  {
    if opts == [] then []
    else [RawOption((opts[0].num - prev) % 0x1_0000, opts[0].value)] + Deltas(opts[0].num, opts[1..])
  }

  /** Option numbers survive in any order, because both subtractions and additions wrap at 2^16. */
  lemma {:induction false} NumberedDeltas(prev: u16, opts: seq<Opt>)
    ensures Numbered(prev, Deltas(prev, opts)) == opts
    decreases opts
  {
    if opts != [] {
      var raw := Deltas(prev, opts);
      NumberedDeltas(opts[0].num, opts[1..]);
      assert raw[1..] == Deltas(opts[0].num, opts[1..]);
      assert (prev + raw[0].delta) % 0x1_0000 == opts[0].num;
      assert opts == [opts[0]] + opts[1..];
    }
  }

  function Wrapped(os: seq<RawOption>): seq<RawOption> {
    if os == [] then []
    else [RawOption(os[0].delta % 0x1_0000, os[0].value)] + Wrapped(os[1..])
  }

  lemma {:induction false} DeltasNumbered(prev: u16, os: seq<RawOption>)
    ensures Deltas(prev, Numbered(prev, os)) == Wrapped(os)
    decreases os
  {
    if os != [] {
      var opts := Numbered(prev, os);
      DeltasNumbered(opts[0].num, os[1..]);
      assert opts[1..] == Numbered(opts[0].num, os[1..]);
      assert (opts[0].num - prev) % 0x1_0000 == os[0].delta % 0x1_0000;
    }
  }

  lemma {:induction false} SameShape(prev: u16, opts: seq<Opt>)
    ensures |Deltas(prev, opts)| == |opts|
    ensures forall i | 0 <= i < |opts| ::
              Deltas(prev, opts)[i].value == opts[i].value && Deltas(prev, opts)[i].delta < 0x1_0000
    decreases opts
  {
    if opts != [] {
      SameShape(opts[0].num, opts[1..]);
    }
  }

  lemma {:induction false} SameValues(prev: u16, os: seq<RawOption>)
    ensures |Numbered(prev, os)| == |os|
    ensures forall i | 0 <= i < |os| :: Numbered(prev, os)[i].value == os[i].value
    decreases os
  {
    if os != [] {
      SameValues((prev + os[0].delta) % 0x1_0000, os[1..]);
    }
  }

  // -------------------------------------------------------------- whole messages

  /** What a packet says; an absent payload and an empty one are the same. */
  datatype Message = Message(mtype: MsgType, code: byte, msgId: u16, token: seq<byte>,
                             options: seq<Opt>, payload: seq<byte>)

  datatype Decoded = Reject(code: int) | Accept(m: Message)

  function FirstByte(m: Message): byte {
    64 + m.mtype * 16 + |m.token| % 0x100 % 16
  }

  function Head(m: Message): seq<byte> {
    [FirstByte(m), m.code] + BE16(m.msgId) + m.token
  }

  function PayloadBytes(payload: seq<byte>): seq<byte> {
    if payload == [] then [] else [MARKER] + payload
  }

  /** The encoder keeps only eight bits of the token length before it checks it. */
  predicate TokenAccepted(m: Message) {
    |m.token| % 0x100 <= 8
  }

  function Wire(m: Message): seq<byte> {
    Head(m) + PrintOptions(Deltas(0, m.options)) + PayloadBytes(m.payload)
  }

  function TailPayload(tail: Maybe<seq<byte>>): seq<byte> {
    if tail.Nothing? then [] else tail.value
  }

  /** The header's verdict: SUCCESS when version, token length and token are in order. */
  function HeaderCode(s: seq<byte>): int {
    if |s| < 4 then HEADER_INVALID_SHORT
    else if s[0] / 64 != 1 then VER_INVALID
    else if s[0] % 16 > 8 || 4 + s[0] % 16 > |s| then TOKEN_INVALID_SHORT
    else SUCCESS
  }

  /** The bytes after the token. */
  function Body(s: seq<byte>): seq<byte>
    requires HeaderCode(s) == SUCCESS
  {
    s[4 + s[0] % 16..]
  }

  function Decode(s: seq<byte>): Decoded {
    if HeaderCode(s) != SUCCESS then Reject(HeaderCode(s))
    else
      match ParseOptions(Body(s), 0)
      case Malformed(code) => Reject(code)
      case Parsed(os, tail) =>
        Accept(Message(s[0] / 16 % 4, s[1], FromBE16(s[2], s[3]), s[4..4 + s[0] % 16],
                       Numbered(0, os), TailPayload(tail)))
  }

  // ------------------------------------------------------------ round trips

  predicate Representable(m: Message) {
    |m.token| <= 8 && |m.options| <= MAX_OPTIONS && forall o | o in m.options :: |o.value| <= MAX_FIELD
  }

  /** The header of a message is read back, whatever follows it. */
  lemma HeadReadsBack(m: Message, body: seq<byte>)
    requires |m.token| <= 8
    ensures var s := Head(m) + body;
            && HeaderCode(s) == SUCCESS && Body(s) == body
            && s[0] / 16 % 4 == m.mtype && s[1] == m.code && FromBE16(s[2], s[3]) == m.msgId
            && s[4..4 + s[0] % 16] == m.token
  {
    var s := Head(m) + body;
    assert Head(m)[0] == FirstByte(m) == s[0];
    assert s[0] % 16 == |m.token|;
    assert s[4 + |m.token|..] == body;
    assert s[4..4 + |m.token|] == m.token;
  }

  lemma PrintedTail(payload: seq<byte>)
    ensures PrintTail(if payload == [] then Nothing else Just(payload)) == PayloadBytes(payload)
    ensures TailPayload(if payload == [] then Nothing else Just(payload)) == payload
  {}

  lemma DeltasPrintable(opts: seq<Opt>)
    requires forall o | o in opts :: |o.value| <= MAX_FIELD
    ensures |Deltas(0, opts)| == |opts| && forall o | o in Deltas(0, opts) :: Printable(o)
  {
    var os := Deltas(0, opts);
    SameShape(0, opts);
    forall o | o in os ensures Printable(o) {
      var i :| 0 <= i < |os| && os[i] == o;
      assert opts[i] in opts;
    }
  }

  lemma DecodeWireOfRepresentable(m: Message)
    requires Representable(m)
    ensures Decode(Wire(m)) == Accept(m)
  {
    hide PrintOptions, Deltas, ParseOptions, Numbered;
    var os := Deltas(0, m.options);
    var tail := if m.payload == [] then Nothing else Just(m.payload);
    var body := PrintOptions(os) + PrintTail(tail);
    PrintedTail(m.payload);
    assert Wire(m) == Head(m) + body;
    HeadReadsBack(m, body);
    DeltasPrintable(m.options);
    ParsePrinted(os, tail, 0);
    NumberedDeltas(0, m.options);
  }

  lemma DecodedIsRepresentable(s: seq<byte>)
    requires Decode(s).Accept?
    ensures Representable(Decode(s).m)
  {
    var m := Decode(s).m;
    var os := ParseOptions(Body(s), 0).os;
    PrintParsed(Body(s), 0);
    SameValues(0, os);
    forall o | o in m.options ensures |o.value| <= MAX_FIELD {
      var i :| 0 <= i < |m.options| && m.options[i] == o;
      assert os[i] in os;
    }
  }

  /** Decoding gives back the encoded message exactly when token, option count and option lengths are in range. */
  lemma DecodeEncode(m: Message)
    ensures Decode(Wire(m)) == Accept(m) <==> Representable(m)
  {
    if Representable(m) {
      DecodeWireOfRepresentable(m);
    } else if Decode(Wire(m)).Accept? {
      DecodedIsRepresentable(Wire(m));
    }
  }

  /** No delta on the wire exceeds 16 bits, and the payload marker, if any, is followed by a payload. */
  predicate Canonical(s: seq<byte>)
    requires Decode(s).Accept?
  {
    var p := ParseOptions(Body(s), 0);
    (forall o | o in p.os :: o.delta < 0x1_0000) && p.tail != Just([])
  }

  lemma {:induction false} WrappedShrinks(os: seq<RawOption>)
    requires forall o | o in os :: Printable(o)
    ensures |PrintOptions(Wrapped(os))| <= |PrintOptions(os)|
    ensures (forall o | o in os :: o.delta < 0x1_0000) ==> Wrapped(os) == os
    ensures !(forall o | o in os :: o.delta < 0x1_0000) ==> |PrintOptions(Wrapped(os))| < |PrintOptions(os)|
  {
    if os != [] {
      var w := Wrapped(os);
      WrappedShrinks(os[1..]);
      assert w[1..] == Wrapped(os[1..]);
      assert os == [os[0]] + os[1..];
      if os[0].delta >= 0x1_0000 {
        assert os[0] in os;
        assert |Extension(w[0].delta)| < 2 == |Extension(os[0].delta)|;
        assert |PrintOption(w[0])| < |PrintOption(os[0])|;
      } else {
        assert w[0] == os[0];
      }
    }
  }

  lemma HeaderPieces(s: seq<byte>, n: nat)
    requires 4 + n <= |s|
    ensures s == [s[0], s[1]] + [s[2], s[3]] + s[4..4 + n] + s[4 + n..]
  {}

  lemma HeadIsPrefix(s: seq<byte>)
    requires Decode(s).Accept?
    ensures s == Head(Decode(s).m) + Body(s)
  {
    hide ParseOptions, Numbered;
    var m := Decode(s).m;
    assert FirstByte(m) == s[0];
    assert BE16(m.msgId) == [s[2], s[3]];
    HeaderPieces(s, s[0] % 16);
  }

  /** The header, the token, the options, the marker and the payload partition every accepted input. */
  lemma DecodePartitions(s: seq<byte>)
    requires Decode(s).Accept?
    ensures var m, p := Decode(s).m, ParseOptions(Body(s), 0);
            && s == Head(m) + PrintOptions(p.os) + PrintTail(p.tail)
            && m.options == Numbered(0, p.os) && m.payload == TailPayload(p.tail)
            && |p.os| <= MAX_OPTIONS
  {
    var m, p := Decode(s).m, ParseOptions(Body(s), 0);
    PrintParsed(Body(s), 0);
    HeadIsPrefix(s);
    assert s == Head(m) + (PrintOptions(p.os) + PrintTail(p.tail));
  }

  /** Re-encoding an accepted input gives its bytes back exactly when the input is canonical. */
  lemma EncodeDecode(s: seq<byte>)
    requires Decode(s).Accept?
    ensures Wire(Decode(s).m) == s <==> Canonical(s)
    ensures !Canonical(s) ==> |Wire(Decode(s).m)| < |s|
  {
    var m, p := Decode(s).m, ParseOptions(Body(s), 0);
    DecodePartitions(s);
    PrintParsed(Body(s), 0);
    DeltasNumbered(0, p.os);
    WrappedShrinks(p.os);
  }

  /** Two different canonical inputs never decode to the same message. */
  lemma DecodeInjective(s: seq<byte>, t: seq<byte>)
    requires Decode(s).Accept? && Canonical(s)
    requires Decode(t).Accept? && Canonical(t)
    requires Decode(s) == Decode(t)
    ensures s == t
  {
    EncodeDecode(s);
    EncodeDecode(t);
  }

  /** Neither clause of canonicity can be dropped: both inputs are accepted and re-encoded shorter. */
  lemma MarkerWithoutPayload()
    ensures var s: seq<byte> := [0x40, 1, 0, 7, 0xFF];
            Decode(s).Accept? && Wire(Decode(s).m) == [0x40, 1, 0, 7]
  {
    var s: seq<byte> := [0x40, 1, 0, 7, 0xFF];
    assert Body(s) == [0xFF];
    assert Decode(s) == Accept(Message(0, 1, 7, [], [], []));
  }

  lemma DeltaAbove16Bits()
    ensures var s: seq<byte> := [0x40, 1, 0, 7, 0xE0, 0xFF, 0xFF];
            Decode(s).Accept? && Wire(Decode(s).m) == [0x40, 1, 0, 7, 0xD0, 0xFF]
  {
    WideDeltaDecodes();
    hide Decode, PrintOptions, Deltas;
    var m := Message(0, 1, 7, [], [Opt(268, [])], []);
    PrintsShort();
    assert Wire(m) == [0x40, 1, 0, 7] + [0xD0, 0xFF] + [];
  }

  lemma WideDeltaDecodes()
    ensures Decode([0x40, 1, 0, 7, 0xE0, 0xFF, 0xFF]) == Accept(Message(0, 1, 7, [], [Opt(268, [])], []))
  {
    LargestDelta();
    assert Numbered(0, [RawOption(65804, [])]) == [Opt(268, [])];
    hide ParseOptions, Numbered;
    assert Body([0x40, 1, 0, 7, 0xE0, 0xFF, 0xFF]) == [0xE0, 0xFF, 0xFF];
  }

  lemma PrintsShort()
    ensures PrintOptions(Deltas(0, [Opt(268, [])])) == [0xD0, 0xFF]
  {
    var o := RawOption(268, []);
    assert Deltas(0, [Opt(268, [])]) == [o];
    assert PrintOption(o) == [0xD0, 0xFF];
    assert [o][1..] == [];
  }

  lemma LargestDelta()
    ensures ParseOptions([0xE0, 0xFF, 0xFF], 0) == Parsed([RawOption(65804, [])], Nothing)
  {
    var s: seq<byte> := [0xE0, 0xFF, 0xFF];
    assert s[1..] == [0xFF, 0xFF] && s[1..][2..] == [];
    assert ReadOption(s) == OneOption(RawOption(65804, []), []);
  }

  // ---------------------------------------------------------------------- size

  function FieldSize(n: nat): nat {
    if n < 13 then 0 else if n < 269 then 1 else 2
  }

  function OptionsSize(prev: u16, opts: seq<Opt>): nat
    decreases opts
  {
    if opts == [] then 0
    else
      var len := |opts[0].value|;
      1 + FieldSize((opts[0].num - prev) % 0x1_0000) + FieldSize(len) + len + OptionsSize(opts[0].num, opts[1..])
  }

  function Size(m: Message): nat {
    4 + |m.token| + OptionsSize(0, m.options) + if m.payload == [] then 0 else 1 + |m.payload|
  }

  lemma {:induction false} PrintedSize(prev: u16, opts: seq<Opt>)
    ensures |PrintOptions(Deltas(prev, opts))| == OptionsSize(prev, opts)
    decreases opts
  {
    if opts != [] {
      PrintedSize(opts[0].num, opts[1..]);
      assert Deltas(prev, opts)[1..] == Deltas(opts[0].num, opts[1..]);
    }
  }

  lemma WireSize(m: Message)
    ensures |Wire(m)| == Size(m)
  {
    PrintedSize(0, m.options);
  }
}
