/**
Packets on an authentication TCP connection: a 24-byte little-endian header and
the data. The receiver reassembles them from arbitrary reads into one 1536-byte
buffer; `Parse` says in one go what a byte stream means to that receiver.
*/
module Framing {
  import opened Bytes

  const MAGIC: u32 := 0xBABE_FACE
  const HEAD_LEN := 24
  const MAX_DATA_LEN := 64 * 1024
  const BUF_SIZE := 1536

  datatype Head = Head(magic: u32, moduleId: i32, seqNo: i64, flag: i32, len: u32)
  datatype Packet = Packet(head: Head, data: seq<byte>)

  // ------------------------------------------------------------------- headers

  function HeadBytes(h: Head): (s: seq<byte>)
    ensures |s| == HEAD_LEN
  {
    LE32(h.magic) + LE32(ToU32(h.moduleId)) + LE64(ToU64(h.seqNo)) + LE32(ToU32(h.flag)) + LE32(h.len)
  }

  /** The header at the front of a buffer. */
  function ReadHead(s: seq<byte>): Head
    requires |s| >= HEAD_LEN
  {
    Head(FromLE32(s[0..4]), ToI32(FromLE32(s[4..8])), ToI64(FromLE64(s[8..16])),
         ToI32(FromLE32(s[16..20])), FromLE32(s[20..24]))
  }

  lemma HeadSlices(h: Head, s: seq<byte>)
    requires HeadBytes(h) <= s
    ensures s[0..4] == LE32(h.magic) && s[4..8] == LE32(ToU32(h.moduleId)) && s[8..16] == LE64(ToU64(h.seqNo))
    ensures s[16..20] == LE32(ToU32(h.flag)) && s[20..24] == LE32(h.len)
  {
    var t := HeadBytes(h);
    assert s[..24] == t;
    assert s[0..4] == t[0..4] && s[4..8] == t[4..8] && s[8..16] == t[8..16];
    assert s[16..20] == t[16..20] && s[20..24] == t[20..24];
  }

  lemma ReadHeadBytes(h: Head, rest: seq<byte>)
    ensures ReadHead(HeadBytes(h) + rest) == h
  {
    HeadSlices(h, HeadBytes(h) + rest);
    LE32RoundTrip(h.magic);
    LE32RoundTrip(ToU32(h.moduleId));
    LE64RoundTrip(ToU64(h.seqNo));
    LE32RoundTrip(ToU32(h.flag));
    LE32RoundTrip(h.len);
    SignedRoundTrip(h.moduleId, h.seqNo);
    SignedRoundTrip(h.flag, h.seqNo);
  }

  /** A packet byte for byte: five little-endian fields, negative ones in two's complement, and the data. */
  predicate IsPacket(s: seq<byte>, h: Head, data: seq<byte>) {
    && |s| == 24 + |data| && s[24..] == data
    && IsLE32(s, 0, h.magic) && IsLE32(s, 4, h.moduleId)
    && IsLE32(s, 8, h.seqNo) && IsLE32(s, 12, h.seqNo / 0x1_0000_0000)
    && IsLE32(s, 16, h.flag) && IsLE32(s, 20, h.len)
  }

  lemma HeadLayout(h: Head, data: seq<byte>)
    ensures IsPacket(HeadBytes(h) + data, h, data)
  {
    var s := HeadBytes(h) + data;
    HeadSlices(h, s);
    assert s[24..] == data;
    assert ToU32(h.magic) == h.magic && ToU32(h.len) == h.len;
    hide HeadBytes, LE32, LE64, ToU32, ToU64, IsLE32;
    LiftField(s, 0, h.magic);
    LiftField(s, 4, h.moduleId);
    LE64Bytes(h.seqNo);
    LiftLE32(s, 8, LE64(ToU64(h.seqNo)), 0, h.seqNo);
    LiftLE32(s, 8, LE64(ToU64(h.seqNo)), 4, h.seqNo / 0x1_0000_0000);
    LiftField(s, 16, h.flag);
    LiftField(s, 20, h.len);
  }

  lemma LiftField(s: seq<byte>, at: nat, n: int)
    requires at + 4 <= |s| && s[at..at + 4] == LE32(ToU32(n))
    ensures IsLE32(s, at, n)
  {
    LE32Bytes(n);
    hide LE32, ToU32, IsLE32;
    LiftLE32(s, at, LE32(ToU32(n)), 0, n);
  }

  lemma MagicFirst(s: seq<byte>)
    requires |s| >= 4 && IsLE32(s, 0, 0xBABE_FACE)
    ensures s[..4] == [0xCE, 0xFA, 0xBE, 0xBA]
  {}

  /** Each field that is read is the sum of its bytes by their places; the signed ones are that modulo 2^32 or 2^64. */
  lemma ReadHeadLayout(s: seq<byte>)
    requires |s| >= 24
    ensures var h := ReadHead(s);
            && h.magic == Word(s, 0) && h.len == Word(s, 20)
            && (h.moduleId - Word(s, 4)) % 0x1_0000_0000 == 0 && (h.flag - Word(s, 16)) % 0x1_0000_0000 == 0
            && (h.seqNo - (Word(s, 8) + 0x1_0000_0000 * Word(s, 12))) % 0x1_0000_0000_0000_0000 == 0
  {
    FromLE32Word(s[0..4]);
    FromLE32Word(s[4..8]);
    FromLE64Words(s[8..16]);
    FromLE32Word(s[16..20]);
    FromLE32Word(s[20..24]);
    Conversions32(Word(s, 4));
    Conversions32(Word(s, 16));
    Conversions64(Word(s, 8) + 0x1_0000_0000 * Word(s, 12));
    hide FromLE32, FromLE64, ToI32, ToI64;
  }

  predicate GoodHead(h: Head) {
    h.magic == MAGIC && 0 < h.len <= MAX_DATA_LEN
  }

  // ------------------------------------------------------------- one-shot parse

  datatype Ending =
    | Waiting(tail: seq<byte>)  // open, with an unfinished packet
    | BadHead(head: Head)       // closed by the packet handler
    | Oversize(head: Head)      // closed because the buffer is full

  datatype Outcome = Outcome(packets: seq<Packet>, ending: Ending)

  function Prepend(packets: seq<Packet>, o: Outcome): Outcome {
    Outcome(packets + o.packets, o.ending)
  }

  function Parse(s: seq<byte>): Outcome
    decreases |s|
  {
    if |s| < HEAD_LEN then Outcome([], Waiting(s))
    else
      var h := ReadHead(s);
      var total := HEAD_LEN + h.len;
      if !GoodHead(h) then Outcome([], BadHead(h))
      else if total > BUF_SIZE && |s| >= BUF_SIZE then Outcome([], Oversize(h))
      else if |s| < total then Outcome([], Waiting(s))
      else Prepend([Packet(h, s[HEAD_LEN..total])], Parse(s[total..]))
  }

  /**
  What a stream with a whole header at its front means, in terms of its bytes: closed for another magic
  number, for length 0 or above 65536; closed when the buffer is full; one packet and the rest; or waiting.
  */
  lemma ParseFirst(s: seq<byte>)
    requires |s| >= 24
    ensures var len, h := Word(s, 20), ReadHead(s);
            if Word(s, 0) != 0xBABE_FACE || len == 0 || len > 65536 then Parse(s) == Outcome([], BadHead(h))
            else if len > 1512 && |s| >= 1536 then Parse(s) == Outcome([], Oversize(h))
            else if |s| < 24 + len then Parse(s) == Outcome([], Waiting(s))
            else
              var rest := Parse(s[24 + len..]);
              Parse(s) == Outcome([Packet(h, s[24..24 + len])] + rest.packets, rest.ending)
  {
    ReadHeadLayout(s);
    hide ReadHead;
  }

  lemma PrependAssoc(a: seq<Packet>, b: seq<Packet>, o: Outcome)
    ensures Prepend(a, Prepend(b, o)) == Prepend(a + b, o)
    ensures Prepend([], o) == o
  {
    assert a + (b + o.packets) == (a + b) + o.packets;
  }

  lemma ParseNothing()
    ensures Parse([]) == Outcome([], Waiting([]))
  {}

  lemma ReadHeadOfPrefix(s: seq<byte>, t: seq<byte>)
    requires |s| >= HEAD_LEN
    ensures ReadHead(s + t) == ReadHead(s)
  {
    var u := s + t;
    assert u[0..4] == s[0..4] && u[4..8] == s[4..8] && u[8..16] == s[8..16];
    assert u[16..20] == s[16..20] && u[20..24] == s[20..24];
  }

  /** More bytes extend a parse at its unfinished tail, and change nothing once the connection is closed. */
  lemma {:induction false} ParseAppend(a: seq<byte>, b: seq<byte>)
    ensures Parse(a).ending.Waiting? ==> Parse(a + b) == Prepend(Parse(a).packets, Parse(Parse(a).ending.tail + b))
    ensures !Parse(a).ending.Waiting? ==> Parse(a + b) == Parse(a)
    decreases |a|
  {
    hide ReadHead;
    if |a| >= HEAD_LEN {
      var h := ReadHead(a);
      var total := HEAD_LEN + h.len;
      ReadHeadOfPrefix(a, b);
      if GoodHead(h) && !(total > BUF_SIZE && |a| >= BUF_SIZE) && total <= |a| {
        ParseAppend(a[total..], b);
        assert (a + b)[total..] == a[total..] + b;
        assert (a + b)[HEAD_LEN..total] == a[HEAD_LEN..total];
        var p := [Packet(h, a[HEAD_LEN..total])];
        var rest := Parse(a[total..]);
        if rest.ending.Waiting? {
          PrependAssoc(p, rest.packets, Parse(rest.ending.tail + b));
        }
      } else if Parse(a).ending.Waiting? {
        PrependAssoc([], [], Parse(a + b));
      }
    } else {
      PrependAssoc([], [], Parse(a + b));
    }
  }

  /** Nothing longer than the buffer is ever delivered, and what waits is a strict prefix of one packet. */
  lemma {:induction false} ParseBounds(s: seq<byte>)
    ensures forall p | p in Parse(s).packets ::
              GoodHead(p.head) && |p.data| == p.head.len && HEAD_LEN + |p.data| <= BUF_SIZE
    ensures Parse(s).ending.Waiting? ==>
              var tail := Parse(s).ending.tail;
              && |tail| < BUF_SIZE
              && (|tail| >= HEAD_LEN ==> GoodHead(ReadHead(tail)) && |tail| < HEAD_LEN + ReadHead(tail).len)
    ensures Parse(s).ending.Oversize? ==> HEAD_LEN + Parse(s).ending.head.len > BUF_SIZE
    decreases |s|
  {
    if |s| >= HEAD_LEN {
      var total := HEAD_LEN + ReadHead(s).len;
      if GoodHead(ReadHead(s)) && !(total > BUF_SIZE && |s| >= BUF_SIZE) && total <= |s| {
        ParseBounds(s[total..]);
      }
    }
  }

  // -------------------------------------------------------------------- sending

  datatype PackResult = PackError | Packed(buf: array<byte>)

  /** Copies bytes into a buffer at an offset. */
  method Put(buf: array<byte>, offset: nat, s: seq<byte>) returns (next: nat)
    requires offset + |s| <= buf.Length
    modifies buf
    ensures next == offset + |s|
    ensures buf[..next] == old(buf[..offset]) + s
  {
    forall i | 0 <= i < |s| {
      buf[offset + i] := s[i];
    }
    next := offset + |s|;
  }

  method PackSocketPkt(h: Head, data: seq<byte>) returns (r: PackResult)
    ensures r.Packed? <==> h.len == ToU32(|data|)
    ensures r.Packed? ==> fresh(r.buf) && r.buf[..] == HeadBytes(h) + data
    ensures r.Packed? ==> IsPacket(r.buf[..], h, data)
  {
    hide ToU32, ToU64, IsPacket;
    if h.len != ToU32(|data|) { return PackError; }
    var buf := new byte[HEAD_LEN + |data|](_ => 0);
    var offset := Put(buf, 0, LE32(h.magic));
    offset := Put(buf, offset, LE32(ToU32(h.moduleId)));
    offset := Put(buf, offset, LE64(ToU64(h.seqNo)));
    offset := Put(buf, offset, LE32(ToU32(h.flag)));
    offset := Put(buf, offset, LE32(h.len));
    assert buf[..offset] == HeadBytes(h);
    HeadLayout(h, data);
    offset := Put(buf, offset, data);
    assert buf[..offset] == buf[..];
    return Packed(buf);
  }

  /** What a caller hands to SocketPostBytes. */
  datatype Post = Post(moduleId: i32, seqNo: i64, flag: i32, data: seq<byte>)

  function PostHead(p: Post): Head {
    Head(MAGIC, p.moduleId, p.seqNo, p.flag, ToU32(|p.data|))
  }

  function PostBytes(p: Post): seq<byte> {
    HeadBytes(PostHead(p)) + p.data
  }

  function Stream(posts: seq<Post>): seq<byte> {
    if posts == [] then [] else PostBytes(posts[0]) + Stream(posts[1..])
  }

  /** The caller's head brings its own length; the post goes out only if that is the length of the data. */
  method SocketPostBytes(p: Post, len: u32) returns (r: PackResult)
    ensures r.Packed? <==> len == ToU32(|p.data|)
    ensures r.Packed? ==> fresh(r.buf) && r.buf[..] == PostBytes(p)
    ensures r.Packed? ==>
              && IsPacket(r.buf[..], Head(0xBABE_FACE, p.moduleId, p.seqNo, p.flag, len), p.data)
              && r.buf[..4] == [0xCE, 0xFA, 0xBE, 0xBA]
  {
    hide IsLE32, HeadBytes;
    r := PackSocketPkt(Head(MAGIC, p.moduleId, p.seqNo, p.flag, len), p.data);
    if r.Packed? {
      MagicFirst(r.buf[..]);
    }
  }

  predicate Fits(p: Post) {
    1 <= |p.data| <= BUF_SIZE - HEAD_LEN
  }

  /** How many posts get through before the first one that the receiver cannot take. */
  function Deliverable(posts: seq<Post>): (n: nat)
    ensures n <= |posts|
    ensures forall i | 0 <= i < n :: Fits(posts[i])
    ensures n < |posts| ==> !Fits(posts[n])
  {
    if posts == [] || !Fits(posts[0]) then 0 else 1 + Deliverable(posts[1..])
  }

  function Received(posts: seq<Post>): (ps: seq<Packet>)
    ensures |ps| == |posts|
    ensures forall i | 0 <= i < |posts| :: ps[i] == Packet(PostHead(posts[i]), posts[i].data)
  {
    if posts == [] then [] else [Packet(PostHead(posts[0]), posts[0].data)] + Received(posts[1..])
  }

  lemma ParsePost(p: Post, rest: seq<byte>)
    requires |p.data| < TWO_32
    ensures Fits(p) ==> Parse(PostBytes(p) + rest) == Prepend([Packet(PostHead(p), p.data)], Parse(rest))
    ensures !Fits(p) && (|p.data| == 0 || |p.data| > MAX_DATA_LEN) ==>
              Parse(PostBytes(p) + rest) == Outcome([], BadHead(PostHead(p)))
    ensures !Fits(p) && 0 < |p.data| <= MAX_DATA_LEN ==>
              Parse(PostBytes(p) + rest) == Outcome([], Oversize(PostHead(p)))
  {
    hide ReadHead, HeadBytes;
    var s := PostBytes(p) + rest;
    assert s == HeadBytes(PostHead(p)) + (p.data + rest);
    ReadHeadBytes(PostHead(p), p.data + rest);
    var total := HEAD_LEN + |p.data|;
    assert s[HEAD_LEN..total] == p.data && s[total..] == rest;
  }

  /**
  Everything posted is received as posted, signs included, up to the first post without data or
  with more than 1512 bytes of it; there the connection closes.
  */
  lemma {:induction false} ParseStream(posts: seq<Post>)
    requires forall p | p in posts :: |p.data| < TWO_32
    ensures var n := Deliverable(posts);
            && Parse(Stream(posts)).packets == Received(posts[..n])
            && (n == |posts| ==> Parse(Stream(posts)).ending == Waiting([]))
            && (n < |posts| ==>
                Parse(Stream(posts)).ending ==
                if 0 < |posts[n].data| <= MAX_DATA_LEN then Oversize(PostHead(posts[n]))
                else BadHead(PostHead(posts[n])))
  {
    hide ReadHead, HeadBytes;
    if posts != [] {
      ParsePost(posts[0], Stream(posts[1..]));
      if Fits(posts[0]) {
        ParseStream(posts[1..]);
        var n := Deliverable(posts);
        assert posts[..n][1..] == posts[1..][..n - 1];
      }
    }
  }

  // ------------------------------------------------------------------ receiving

  /** What the handler can conclude from the bytes it has, at most a full buffer of them. */
  lemma ParseCases(s: seq<byte>)
    requires |s| <= BUF_SIZE
    ensures |s| < HEAD_LEN ==> Parse(s) == Outcome([], Waiting(s))
    ensures |s| >= HEAD_LEN ==>
              var h := ReadHead(s);
              && (!GoodHead(h) ==> Parse(s) == Outcome([], BadHead(h)))
              && (GoodHead(h) && HEAD_LEN + h.len <= |s| ==>
                  Parse(s) == Prepend([Packet(h, s[HEAD_LEN..HEAD_LEN + h.len])], Parse(s[HEAD_LEN + h.len..])))
              && (GoodHead(h) && HEAD_LEN + h.len > |s| ==>
                  Parse(s) == Outcome([], if |s| == BUF_SIZE then Oversize(h) else Waiting(s)))
  {
    hide ReadHead;
  }

  /** The packet handler: delivers every complete packet in the buffer; -1 asks to close the connection. */
  method OnTcpDataReceived(buf: array<byte>, used: nat) returns (processed: int, packets: seq<Packet>)
    requires used <= buf.Length == BUF_SIZE
    ensures var o := Parse(buf[..used]);
            && packets == o.packets
            && (processed == -1 <==> o.ending.BadHead?)
            && (o.ending.Waiting? ==> 0 <= processed <= used && o.ending.tail == buf[processed..used])
            && (o.ending.Oversize? ==> processed == 0 && used == BUF_SIZE)
  {
    hide ReadHead, Parse;
    processed, packets := 0, [];
    PrependAssoc([], [], Parse(buf[..used]));
    assert buf[0..used] == buf[..used];
    while processed + HEAD_LEN <= used
      invariant 0 <= processed <= used
      invariant Parse(buf[..used]) == Prepend(packets, Parse(buf[processed..used]))
    {
      ghost var rest := buf[processed..used];
      ParseCases(rest);
      var head := ReadHead(buf[processed..used]);
      if head.magic != MAGIC { return -1, packets; }
      if head.len == 0 || head.len > MAX_DATA_LEN { return -1, packets; }
      var total := HEAD_LEN + head.len;
      if processed + total > used { break; }
      var data := buf[processed + HEAD_LEN..processed + total];
      Slices(buf, processed, used, total);
      PrependAssoc(packets, [Packet(head, data)], Parse(buf[processed + total..used]));
      packets := packets + [Packet(head, data)];
      processed := processed + total;
    }
    ParseCases(buf[processed..used]);
  }

  lemma Slices(buf: array<byte>, start: nat, end: nat, total: nat)
    requires HEAD_LEN <= total && start + total <= end <= buf.Length
    ensures buf[start..end][HEAD_LEN..total] == buf[start + HEAD_LEN..start + total]
    ensures buf[start..end][total..] == buf[start + total..end]
  {
    SliceOfSlice(buf[..], start, end, HEAD_LEN, total);
    SliceOfSlice(buf[..], start, end, total, end - start);
  }

  /** What a blocking read may do: stop signal first, an error or end of stream, or some bytes. */
  datatype Read = StopSignal | ReadError | ReadUpTo(n: nat)

  datatype Exit = Ended | HandlerFailed | BufferFull

  /** Every read in the list offers at least one byte. */
  predicate Steady(script: seq<Read>) {
    forall r | r in script :: r.ReadUpTo? && r.n > 0
  }

  method HandleDataEvents(stream: seq<byte>, script: seq<Read>)
    returns (packets: seq<Packet>, exit: Exit, consumed: nat, leftover: seq<byte>, disconnects: nat)
    ensures consumed <= |stream| && disconnects == 1
    ensures exit.Ended? ==> Parse(stream[..consumed]) == Outcome(packets, Waiting(leftover))
    ensures exit.HandlerFailed? ==> Parse(stream).ending.BadHead? && packets == Parse(stream).packets
    ensures exit.BufferFull? ==> Parse(stream).ending.Oversize? && packets == Parse(stream).packets
    ensures exit.Ended? && Steady(script) && |script| >= |stream| ==> consumed == |stream|
  {
    hide Parse;
    var buf := new byte[BUF_SIZE](_ => 0);
    var used := 0;
    ParseNothing();
    packets, exit, consumed, leftover, disconnects := [], Ended, 0, [], 0;
    for i := 0 to |script|
      invariant 0 <= used < BUF_SIZE == buf.Length && consumed <= |stream| && disconnects == 0 && exit.Ended?
      invariant Parse(stream[..consumed]) == Outcome(packets, Waiting(buf[..used]))
      invariant Steady(script) ==> consumed == |stream| || consumed >= i
    {
      if !script[i].ReadUpTo? {
        return packets, Ended, consumed, buf[..used], disconnects + 1;
      }
      // The free part of the buffer is never empty, so a read of zero bytes means the peer closed.
      assert BUF_SIZE - used > 0;
      var n := Least(script[i].n, Least(BUF_SIZE - used, |stream| - consumed));
      if n == 0 {
        assert Steady(script) ==> script[i] in script;
        return packets, Ended, consumed, buf[..used], disconnects + 1;
      }
      var status, more;
      status, more, used := ReadAndHandle(buf, used, stream[..consumed], stream[consumed..consumed + n]);
      assert stream[..consumed] + stream[consumed..consumed + n] == stream[..consumed + n];
      consumed := consumed + n;
      packets := packets + more;
      if !status.Ended? {
        ParseAppend(stream[..consumed], stream[consumed..]);
        assert stream[..consumed] + stream[consumed..] == stream;
        return packets, status, consumed, buf[..used], disconnects + 1;
      }
    }
    return packets, Ended, consumed, buf[..used], disconnects + 1;
  }

  function Least(a: nat, b: nat): nat { if a < b then a else b }

  /** One round of the read loop: the chunk lands behind the leftover, packets are handled, the rest is shifted down. */
  method ReadAndHandle(buf: array<byte>, start: nat, ghost before: seq<byte>, chunk: seq<byte>)
    returns (exit: Exit, packets: seq<Packet>, used: nat)
    requires buf.Length == BUF_SIZE && start + |chunk| <= BUF_SIZE && start < BUF_SIZE
    requires Parse(before).ending == Waiting(buf[..start])
    modifies buf
    ensures used <= BUF_SIZE
    ensures var o := Parse(before + chunk);
            && o.packets == Parse(before).packets + packets
            && (exit.Ended? <==> o.ending.Waiting?)
            && (exit.Ended? ==> used < BUF_SIZE && o.ending.tail == buf[..used])
            && (exit.HandlerFailed? <==> o.ending.BadHead?)
            && (exit.BufferFull? <==> o.ending.Oversize?)
  {
    hide ReadHead, Parse, GoodHead;
    ghost var tail := buf[..start];
    forall i | 0 <= i < |chunk| {
      buf[start + i] := chunk[i];
    }
    used := start + |chunk|;
    assert buf[..used] == tail + chunk;
    ParseAppend(before, chunk);
    ghost var o := Parse(tail + chunk);
    ParseBounds(tail + chunk);
    var processed;
    processed, packets := OnTcpDataReceived(buf, used);
    if processed > 0 {
      used := used - processed;
      ghost var kept := buf[processed..processed + used];
      forall i | 0 <= i < used {
        buf[i] := buf[processed + i];
      }
      assert buf[..used] == kept;
    } else if processed < 0 {
      return HandlerFailed, packets, used;
    }
    if used >= BUF_SIZE {
      return BufferFull, packets, used;
    }
    return Ended, packets, used;
  }

  /** End to end: posts that fit, cut into reads in any way, arrive as posted and leave nothing behind. */
  method Deliver(posts: seq<Post>, script: seq<Read>) returns (packets: seq<Packet>, exit: Exit)
    requires forall p | p in posts :: Fits(p)
    requires Steady(script) && |script| >= |Stream(posts)|
    ensures exit.Ended? && packets == Received(posts)
  {
    assert forall i | 0 <= i < |posts| :: posts[i] in posts;
    ParseStream(posts);
    assert posts[..|posts|] == posts;
    var consumed, leftover, disconnects;
    packets, exit, consumed, leftover, disconnects := HandleDataEvents(Stream(posts), script);
    assert Stream(posts)[..|Stream(posts)|] == Stream(posts);
  }
}
