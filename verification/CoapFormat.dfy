/**
The message format of RFC 7252, sections 3 and 3.1, written down as a relation
between bytes and messages, without reading or printing anything. The decoder
accepts exactly the bytes that stand in this relation to some message, and the
encoder produces such bytes.
*/
module CoapFormat {
  import opened Bytes
  import opened Wrappers
  import opened CoapWire

  // --------------------------------------------------------------- the format

  /** A nibble with its extension bytes stands for n. */
  predicate IsField(nibble: int, ext: seq<byte>, n: int) {
    || (0 <= nibble < 13 && ext == [] && n == nibble)
    || (nibble == 13 && |ext| == 1 && n == 13 + ext[0] as int)
    || (nibble == 14 && |ext| == 2 && n == 269 + 256 * ext[0] as int + ext[1] as int)
  }

  /** An option taken apart: its delta and length fields, and the bytes after it. */
  datatype Cut = Cut(deltaNibble: int, deltaExt: seq<byte>, delta: int, lenNibble: int, lenExt: seq<byte>,
                     rest: seq<byte>)

  /** The bytes begin with an option of this number and value, after one numbered prev. */
  predicate IsCut(s: seq<byte>, prev: int, o: Opt, c: Cut) {
    && IsField(c.deltaNibble, c.deltaExt, c.delta) && IsField(c.lenNibble, c.lenExt, |o.value|)
    && o.num == (prev + c.delta) % 65536
    && |s| > 0 && s[0] == 16 * c.deltaNibble + c.lenNibble
    && s[1..] == c.deltaExt + (c.lenExt + (o.value + c.rest))
  }

  /** Options one after the other, then a marker and a payload, or nothing. */
  ghost predicate IsBody(s: seq<byte>, prev: int, opts: seq<Opt>, payload: seq<byte>)
    decreases |opts|
  {
    if opts == [] then s == [0xFF] + payload || (s == [] && payload == [])
    else exists c: Cut :: IsCut(s, prev, opts[0], c) && IsBody(c.rest, opts[0].num, opts[1..], payload)
  }

  ghost predicate IsMessage(s: seq<byte>, m: Message) {
    var n := |m.token|;
    && n <= 8 && 4 + n <= |s|
    && s[0] == 64 + 16 * m.mtype + n && s[1] == m.code && 256 * s[2] as int + s[3] as int == m.msgId
    && s[4..4 + n] == m.token
    && |m.options| <= 16 && IsBody(s[4 + n..], 0, m.options, m.payload)
  }

  // ------------------------------------------------------ decoding gives it

  lemma FieldRead(nibble: nat, s: seq<byte>) returns (ext: seq<byte>)
    requires ReadField(nibble, s).Field?
    ensures s == ext + ReadField(nibble, s).rest && IsField(nibble, ext, ReadField(nibble, s).n)
  {
    ext := if nibble < 13 then [] else if nibble == 13 then s[..1] else s[..2];
  }

  lemma OptionRead(s: seq<byte>, prev: u16) returns (c: Cut)
    requires s != [] && ReadOption(s).OneOption?
    ensures var one := ReadOption(s);
            c.rest == one.rest && IsCut(s, prev, Opt((prev + one.o.delta) % 65536, one.o.value), c)
  {
    hide ReadField, IsField;
    var f1 := ReadField(s[0] / 16, s[1..]);
    var f2 := ReadField(s[0] % 16, f1.rest);
    var de := FieldRead(s[0] / 16, s[1..]);
    var le := FieldRead(s[0] % 16, f1.rest);
    var one := ReadOption(s);
    assert f2.rest == one.o.value + one.rest;
    assert |one.o.value| == f2.n;
    c := Cut(s[0] / 16, de, f1.n, s[0] % 16, le, one.rest);
  }

  lemma NumberedCons(prev: u16, o: RawOption, os: seq<RawOption>)
    ensures var num := (prev + o.delta) % 65536;
            Numbered(prev, [o] + os) == [Opt(num, o.value)] + Numbered(num, os)
  {
    assert ([o] + os)[1..] == os;
  }

  lemma ParseStep(s: seq<byte>, count: nat)
    requires s != [] && s[0] != MARKER && count < MAX_OPTIONS && ReadOption(s).OneOption?
    ensures var one, p := ReadOption(s), ParseOptions(s, count);
            var q := ParseOptions(one.rest, count + 1);
            && |one.rest| < |s| && (p.Parsed? <==> q.Parsed?)
            && (p.Parsed? ==> p == Parsed([one.o] + q.os, q.tail))
  {
    ReadOptionShrinks(s);
  }

  lemma ParseEnds(s: seq<byte>, count: nat)
    ensures s == [] ==> ParseOptions(s, count) == Parsed([], Nothing)
    ensures s != [] && s[0] == 0xFF ==> ParseOptions(s, count) == Parsed([], Just(s[1..]))
    ensures s != [] && s[0] != 0xFF && ParseOptions(s, count).Parsed? ==> count < 16 && ReadOption(s).OneOption?
  {}

  lemma {:induction false} ParsedIsBody(s: seq<byte>, count: nat, prev: u16)
    requires ParseOptions(s, count).Parsed?
    ensures var p := ParseOptions(s, count); IsBody(s, prev, Numbered(prev, p.os), TailPayload(p.tail))
    decreases |s|
  {
    ParseEnds(s, count);
    BodyEnds(s, prev);
    hide IsBody, IsCut, ReadOption, ParseOptions;
    var p := ParseOptions(s, count);
    if s != [] && s[0] != MARKER {
      hide Numbered;
      var one := ReadOption(s);
      var c := OptionRead(s, prev);
      ParseStep(s, count);
      var num := (prev + one.o.delta) % 65536;
      var q := ParseOptions(one.rest, count + 1);
      ParsedIsBody(one.rest, count + 1, num);
      NumberedCons(prev, one.o, q.os);
      var opts := Numbered(prev, p.os);
      assert opts[0] == Opt(num, one.o.value) && opts[1..] == Numbered(num, q.os);
      BodyStep(s, prev, opts, TailPayload(p.tail), c);
    }
  }

  lemma BodyEnds(s: seq<byte>, prev: int)
    ensures s == [] ==> IsBody(s, prev, [], [])
    ensures s != [] && s[0] == 0xFF ==> IsBody(s, prev, [], s[1..])
  {
    assert s != [] && s[0] == 0xFF ==> s == [0xFF] + s[1..];
  }

  lemma BodyStep(s: seq<byte>, prev: int, opts: seq<Opt>, payload: seq<byte>, c: Cut)
    requires opts != [] && IsCut(s, prev, opts[0], c) && IsBody(c.rest, opts[0].num, opts[1..], payload)
    ensures IsBody(s, prev, opts, payload)
  {}

  // --------------------------------------------------- and nothing else does

  lemma FieldIsPrinted(nibble: int, ext: seq<byte>, n: int)
    requires IsField(nibble, ext, n)
    ensures 0 <= n <= MAX_FIELD && nibble == Nibble(n) && ext == Extension(n)
  {
    if nibble == 14 {
      var v := 256 * ext[0] as int + ext[1] as int;
      assert n - 269 == v && v < 0x1_0000;
      assert BE16(v) == ext;
    }
  }

  lemma CutIsRead(s: seq<byte>, prev: u16, o: Opt, c: Cut)
    requires IsCut(s, prev, o, c)
    ensures c.delta >= 0 && s[0] != MARKER && ReadOption(s) == OneOption(RawOption(c.delta, o.value), c.rest)
  {
    FieldIsPrinted(c.deltaNibble, c.deltaExt, c.delta);
    FieldIsPrinted(c.lenNibble, c.lenExt, |o.value|);
    var raw := RawOption(c.delta, o.value);
    assert s == [s[0]] + s[1..];
    Regroup(OptionHeader(raw), Extension(c.delta), Extension(|o.value|), o.value, c.rest);
    assert PrintOption(raw) + c.rest == s;
    ReadPrintedOption(raw, c.rest);
    HeaderIsNotMarker(raw);
    hide ReadOption, Extension, Nibble;
  }

  lemma BodyCut(s: seq<byte>, prev: int, opts: seq<Opt>, payload: seq<byte>) returns (c: Cut)
    requires opts != [] && IsBody(s, prev, opts, payload)
    ensures IsCut(s, prev, opts[0], c) && IsBody(c.rest, opts[0].num, opts[1..], payload) && s != []
    ensures opts[0].num == (prev + c.delta) % 65536
  {
    c :| IsCut(s, prev, opts[0], c) && IsBody(c.rest, opts[0].num, opts[1..], payload);
  }

  lemma {:induction false} BodyIsParsed(s: seq<byte>, count: nat, prev: u16, opts: seq<Opt>, payload: seq<byte>)
    requires IsBody(s, prev, opts, payload) && |opts| + count <= 16
    ensures var p := ParseOptions(s, count);
            p.Parsed? && Numbered(prev, p.os) == opts && TailPayload(p.tail) == payload
    decreases |opts|
  {
    ParseEnds(s, count);
    if opts != [] {
      hide IsBody, IsCut, ReadOption, ParseOptions, Numbered;
      var c := BodyCut(s, prev, opts, payload);
      CutIsRead(s, prev, opts[0], c);
      ParseStep(s, count);
      BodyIsParsed(c.rest, count + 1, opts[0].num, opts[1..], payload);
      NumberedCons(prev, RawOption(c.delta, opts[0].value), ParseOptions(c.rest, count + 1).os);
      assert opts == [opts[0]] + opts[1..];
    } else {
      hide ParseOptions;
    }
  }

  /** The decoder accepts a byte string as a message exactly if the format says so. */
  lemma DecodeExactly(s: seq<byte>, m: Message)
    ensures Decode(s) == Accept(m) <==> IsMessage(s, m)
  {
    hide ParseOptions, Numbered, IsBody;
    if Decode(s) == Accept(m) {
      ParsedIsBody(Body(s), 0, 0);
      DecodedIsRepresentable(s);
    }
    if IsMessage(s, m) {
      var n := |m.token|;
      assert s[0] / 64 == 1 && s[0] / 16 % 4 == m.mtype && s[0] % 16 == n;
      BodyIsParsed(s[4 + n..], 0, 0, m.options, m.payload);
    }
  }

  /** What the encoder writes for a message in range stands in the format for that message. */
  lemma WireIsMessage(m: Message)
    requires |m.token| <= 8 && |m.options| <= 16 && forall o | o in m.options :: |o.value| <= 65804
    ensures IsMessage(Wire(m), m)
  {
    DecodeWireOfRepresentable(m);
    DecodeExactly(Wire(m), m);
  }

  /** The verdict on the header, in the order in which the code tests it, by number. */
  lemma HeaderVerdict(s: seq<byte>)
    ensures Decode(s).Reject? && |s| < 4 ==> Decode(s).code == 1
    ensures |s| < 4 ==> Decode(s).Reject?
    ensures |s| >= 4 && !(64 <= s[0] < 128) ==> Decode(s) == Reject(2)
    ensures |s| >= 4 && 64 <= s[0] < 128 && (s[0] % 16 > 8 || |s| < 4 + s[0] as int % 16) ==> Decode(s) == Reject(3)
    ensures |s| >= 4 && 64 <= s[0] < 128 && s[0] % 16 <= 8 && |s| >= 4 + s[0] as int % 16 && Decode(s).Reject? ==>
              Decode(s).code in {4, 5, 7}
  {
    if HeaderCode(s) == SUCCESS {
      OptionsVerdict(Body(s), 0);
    }
  }

  /** Why the option parser gives up: a seventeenth option, a nibble 15, or bytes that are missing. */
  lemma {:induction false} OptionsVerdict(s: seq<byte>, count: nat)
    ensures ParseOptions(s, count).Malformed? ==> ParseOptions(s, count).code in {4, 5, 7}
    ensures s != [] && s[0] != 0xFF && count >= 16 ==> ParseOptions(s, count) == Malformed(4)
    decreases |s|
  {
    if s != [] && s[0] != MARKER && count < MAX_OPTIONS && ReadOption(s).OneOption? {
      ReadOptionShrinks(s);
      OptionsVerdict(ReadOption(s).rest, count + 1);
    }
  }

  /** How many extension bytes a nibble needs. */
  function Needs(nibble: int): int {
    if nibble == 13 then 1 else if nibble == 14 then 2 else 0
  }

  /** A nibble 15 in the delta is found first, then missing bytes of its extension, and then the same for the length. */
  lemma OptionVerdict(s: seq<byte>)
    requires s != []
    ensures var d, l := s[0] / 16, s[0] % 16;
            && (d == 15 ==> ReadOption(s) == BadOption(7))
            && (d != 15 && |s| < 1 + Needs(d) ==> ReadOption(s) == BadOption(5))
            && (d != 15 && |s| >= 1 + Needs(d) && l == 15 ==> ReadOption(s) == BadOption(7))
            && (d != 15 && l != 15 && |s| < 1 + Needs(d) + Needs(l) ==> ReadOption(s) == BadOption(5))
            && (ReadOption(s).BadOption? ==> ReadOption(s).code in {5, 7})
  {}
}
