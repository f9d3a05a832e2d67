/** Connection ids: the link type in the upper and the file descriptor in the lower half of 64 bits. */
module ConnIds {
  import opened Bytes

  /** Bits 32..63 of a word, in place. */
  function HighHalf(w: u64): u64 {
    w / TWO_32 * TWO_32
  }

  /** Bits 0..31 of a word. */
  function LowHalf(w: u64): u64 {
    w % TWO_32
  }

  function ShiftLeft32(w: u64): u64 {
    (w * TWO_32) % TWO_64
  }

  /** The two halves have no bit in common, so combining them is adding them. */
  function GenConnId(connType: i32, fd: i32): u64 {
    HighHalf(ShiftLeft32(ToU64(connType))) + LowHalf(ToU64(fd))
  }

  function GetConnType(connId: u64): i32 {
    ToI32(LowHalf(connId / TWO_32))
  }

  function GetFd(connId: u64): i32 {
    ToI32(LowHalf(connId))
  }

  lemma Halves(h: u32, l: u32)
    ensures (h * TWO_32 + l) / TWO_32 == h && (h * TWO_32 + l) % TWO_32 == l
  {}

  lemma SmallWord(n: i32)
    ensures ToU64(n) % TWO_32 == ToU32(n)
    ensures ToI32(ToU32(n)) == n
  {}

  lemma ShiftedWord(w: u64)
    ensures HighHalf(ShiftLeft32(w)) == w % TWO_32 * TWO_32
  {
    var q, r := w / TWO_32, w % TWO_32;
    assert w * TWO_32 == q * TWO_64 + r * TWO_32;
    assert (w * TWO_32) % TWO_64 == r * TWO_32;
  }

  lemma GenConnIdValue(connType: i32, fd: i32)
    ensures GenConnId(connType, fd) == ToU32(connType) * TWO_32 + ToU32(fd)
  {
    hide ToU64, ToU32, HighHalf, ShiftLeft32;
    ShiftedWord(ToU64(connType));
    SmallWord(connType);
    SmallWord(fd);
  }

  lemma ReadBack(connType: i32, fd: i32)
    ensures GetConnType(GenConnId(connType, fd)) == connType && GetFd(GenConnId(connType, fd)) == fd
  {
    hide GenConnId, ToU32, ToI32;
    GenConnIdValue(connType, fd);
    Halves(ToU32(connType), ToU32(fd));
    SmallWord(connType);
    SmallWord(fd);
  }

  lemma WriteBack(connId: u64)
    ensures GenConnId(GetConnType(connId), GetFd(connId)) == connId
  {
    hide GenConnId;
    GenConnIdValue(GetConnType(connId), GetFd(connId));
    assert ToU32(GetConnType(connId)) == connId / TWO_32 && ToU32(GetFd(connId)) == connId % TWO_32;
  }

  /** Both parts of every pair can be read back, and every 64-bit word is the id of exactly one pair. */
  lemma ConnIdBijection(connType: i32, fd: i32, connId: u64)
    ensures GetConnType(GenConnId(connType, fd)) == connType && GetFd(GenConnId(connType, fd)) == fd
    ensures GenConnId(connType, fd) == connId <==> GetConnType(connId) == connType && GetFd(connId) == fd
    ensures GenConnId(connType, fd) == connType % 0x1_0000_0000 * 0x1_0000_0000 + fd % 0x1_0000_0000
  {
    GenConnIdValue(connType, fd);
    hide GenConnId, GetConnType, GetFd;
    ReadBack(connType, fd);
    WriteBack(connId);
  }

  lemma SameWord(f: int, g: int)
    ensures ToI32(f) == ToI32(g) <==> (f - g) % TWO_32 == 0
  {
    var q := f / TWO_32 - g / TWO_32;
    assert f - g == q * TWO_32 + (f % TWO_32 - g % TWO_32);
  }

  /** Ids of descriptors of any size, which the code cuts to 32 bits, agree exactly if type and cut descriptor do. */
  lemma SameConnId(t: i32, f: int, u: i32, g: int)
    ensures GenConnId(t, ToI32(f)) == GenConnId(u, ToI32(g)) <==> t == u && (f - g) % TWO_32 == 0
  {
    SameWord(f, g);
    ReadBack(t, ToI32(f));
    ReadBack(u, ToI32(g));
    hide GenConnId, GetConnType, GetFd, ToI32;
  }
}

/** Virtual file descriptors: two counters, one per kind of connection, and two maps in step. */
module Fds {
  import opened Bytes
  import ConnIds

  datatype ConnType = Server | Client

  const SERVER_FD_START := 1000
  const CLIENT_FD_START := 2000

  function Count(types: seq<ConnType>, t: ConnType): nat {
    if types == [] then 0
    else Count(types[..|types| - 1], t) + if types[|types| - 1] == t then 1 else 0
  }

  /** The descriptor that a connection of type t gets after these allocations. */
  function NextFd(types: seq<ConnType>, t: ConnType): int {
    (if t == Server then SERVER_FD_START else CLIENT_FD_START) + Count(types, t)
  }

  /** All descriptors issued for a sequence of allocations. */
  function Issued(types: seq<ConnType>): (fds: seq<int>)
    ensures |fds| == |types|
    ensures forall i | 0 <= i < |types| :: fds[i] == NextFd(types[..i], types[i])
  {
    if types == [] then []
    else
      var init := types[..|types| - 1];
      assert forall i | 0 <= i < |init| :: init[..i] == types[..i];
      Issued(init) + [NextFd(init, types[|types| - 1])]
  }

  predicate Distinct(s: seq<int>) {
    forall i, j | 0 <= i < j < |s| :: s[i] != s[j]
  }

  lemma {:induction false} CountMonotone(types: seq<ConnType>, i: nat, t: ConnType)
    requires i <= |types|
    ensures Count(types[..i], t) <= Count(types, t)
    ensures i < |types| && types[i] == t ==> Count(types[..i], t) < Count(types, t)
  {
    if i < |types| {
      var init := types[..|types| - 1];
      assert init[..i] == types[..i];
      CountMonotone(init, i, t);
    } else {
      assert types[..i] == types;
    }
  }

  /** Each smaller count was the count just before some allocation of that type. */
  lemma {:induction false} CountReached(types: seq<ConnType>, t: ConnType, n: nat) returns (i: nat)
    requires n < Count(types, t)
    ensures i < |types| && types[i] == t && Count(types[..i], t) == n
  {
    var last := |types| - 1;
    if types[last] == t && Count(types[..last], t) == n {
      i := last;
    } else {
      i := CountReached(types[..last], t, n);
      assert types[..last][..i] == types[..i];
    }
  }

  lemma FdsDiffer(types: seq<ConnType>, i: nat, j: nat)
    requires Count(types, Server) <= 1000 || Count(types, Client) == 0
    requires i < j < |types|
    ensures NextFd(types[..i], types[i]) != NextFd(types[..j], types[j])
  {
    assert types[..j][..i] == types[..i] && types[..j][i] == types[i];
    CountMonotone(types[..j], i, types[i]);
    CountMonotone(types, i, types[i]);
    CountMonotone(types, j, types[j]);
    hide Count;
  }

  lemma SmallRunsDistinct(types: seq<ConnType>)
    requires Count(types, Server) <= 1000 || Count(types, Client) == 0
    ensures Distinct(Issued(types))
  {
    hide Count, Issued, NextFd;
    var fds := Issued(types);
    forall i, j | 0 <= i < j < |fds| ensures fds[i] != fds[j] {
      FdsDiffer(types, i, j);
    }
  }

  /** No two descriptors are the same exactly as long as the server range does not run into used client numbers. */
  lemma IssuedDistinct(types: seq<ConnType>)
    ensures Distinct(Issued(types)) <==> Count(types, Server) <= 1000 || Count(types, Client) == 0
  {
    hide Count;
    if Count(types, Server) <= 1000 || Count(types, Client) == 0 {
      SmallRunsDistinct(types);
    } else {
      var i := CountReached(types, Server, 1000);
      var j := CountReached(types, Client, 0);
      assert Issued(types)[i] == Issued(types)[j] == 2000;
    }
  }

  lemma {:induction false} CountBounded(types: seq<ConnType>, t: ConnType)
    ensures Count(types, t) <= |types|
  {
    if types != [] {
      CountBounded(types[..|types| - 1], t);
    }
  }

  lemma IssuedRange(types: seq<ConnType>)
    ensures forall fd | fd in Issued(types) :: SERVER_FD_START <= fd < CLIENT_FD_START + |types|
  {
    var fds := Issued(types);
    forall fd | fd in fds ensures SERVER_FD_START <= fd < CLIENT_FD_START + |types| {
      var i :| 0 <= i < |fds| && fds[i] == fd;
      CountBounded(types[..i], types[i]);
    }
  }

  /** The connection ids of all connections ever allocated, each with its link type. */
  function IssuedIds(types: seq<ConnType>, links: seq<i32>): (ids: seq<u64>)
    requires |links| == |types|
    ensures |ids| == |types|
    ensures forall i | 0 <= i < |types| :: ids[i] == ConnIds.GenConnId(links[i], ToI32(Issued(types)[i]))
  {
    var fds := Issued(types);
    seq(|types|, i requires 0 <= i < |types| => ConnIds.GenConnId(links[i], ToI32(fds[i])))
  }

  /**
  Connection ids inherit that uniqueness, whatever the link types, until the counters have gone once
  around 32 bits; and with one link type for all they need it.
  */
  lemma ConnIdsDistinct(types: seq<ConnType>, links: seq<i32>)
    requires |links| == |types| <= TWO_32 - 1000
    ensures Distinct(Issued(types)) ==> Distinct(IssuedIds(types, links))
    ensures (forall i, j | 0 <= i < j < |links| :: links[i] == links[j]) ==>
              (Distinct(IssuedIds(types, links)) <==> Count(types, Server) <= 1000 || Count(types, Client) == 0)
  {
    var fds, ids := Issued(types), IssuedIds(types, links);
    IssuedRange(types);
    IssuedDistinct(types);
    hide Count, Issued, NextFd, ConnIds.GenConnId, ToI32;
    forall i, j | 0 <= i < j < |types|
      ensures ids[i] == ids[j] <==> links[i] == links[j] && fds[i] == fds[j]
    {
      assert fds[i] in fds && fds[j] in fds;
      CloseIds(links[i], fds[i], links[j], fds[j]);
    }
  }

  lemma CloseIds(t: i32, f: int, u: i32, g: int)
    requires -TWO_32 < f - g < TWO_32
    ensures ConnIds.GenConnId(t, ToI32(f)) == ConnIds.GenConnId(u, ToI32(g)) <==> t == u && f == g
  {
    ConnIds.SameConnId(t, f, u, g);
    SmallDifference(f - g);
    hide ConnIds.GenConnId, ToI32;
  }

  lemma SmallDifference(d: int)
    requires -TWO_32 < d < TWO_32
    ensures d % TWO_32 == 0 <==> d == 0
  {}

  /** A descriptor is 1000 or 2000 plus the number of connections of its kind before it. */
  lemma IssuedNumbers(types: seq<ConnType>, i: nat)
    requires i < |types|
    ensures Issued(types)[i] == (if types[i] == Server then 1000 else 2000) + Count(types[..i], types[i])
    ensures Count(types[..i + 1], Server) == Count(types[..i], Server) + if types[i] == Server then 1 else 0
    ensures Count(types[..i + 1], Client) == Count(types[..i], Client) + if types[i] == Client then 1 else 0
    ensures Count([], Server) == Count([], Client) == 0
  {
    assert types[..i + 1][..i] == types[..i];
  }

  class ConnectionManager<Conn> {
    var connMap: map<int, Conn>
    var connTypeMap: map<int, ConnType>
    var serverNextFd: int
    var clientNextFd: int
    ghost var history: seq<ConnType>

    ghost predicate Valid()
      reads this
    {
      && connMap.Keys == connTypeMap.Keys
      && serverNextFd == NextFd(history, Server) && clientNextFd == NextFd(history, Client)
      && forall fd | fd in connMap :: fd in Issued(history)
    }

    constructor ()
      ensures Valid() && history == [] && connMap == map[] && connTypeMap == map[]
    {
      connMap, connTypeMap, serverNextFd, clientNextFd, history := map[], map[], SERVER_FD_START, CLIENT_FD_START, [];
    }

    method AllocateFd(t: ConnType) returns (fd: int)
      requires Valid()
      modifies this`serverNextFd, this`clientNextFd, this`history
      ensures Valid() && history == old(history) + [t]
      ensures Issued(history) == Issued(old(history)) + [fd]
    {
      if t == Server {
        fd := serverNextFd;
        serverNextFd := serverNextFd + 1;
      } else {
        fd := clientNextFd;
        clientNextFd := clientNextFd + 1;
      }
      ghost var before := history;
      history := history + [t];
      assert history[..|before|] == before;
    }

    /** As long as descriptors are distinct, a new connection never takes the place of a live one. */
    method RegisterConn(conn: Conn, t: ConnType) returns (fd: int)
      requires Valid()
      modifies this
      ensures Valid() && Issued(history) == Issued(old(history)) + [fd]
      ensures connMap == old(connMap)[fd := conn] && connTypeMap == old(connTypeMap)[fd := t]
      ensures Count(history, Server) <= 1000 || Count(history, Client) == 0 ==> fd !in old(connMap)
    {
      fd := AllocateFd(t);
      IssuedDistinct(history);
      connMap := connMap[fd := conn];
      connTypeMap := connTypeMap[fd := t];
    }

    method UnregisterConn(fd: int)
      requires Valid()
      modifies this`connMap, this`connTypeMap
      ensures Valid()
      ensures connMap == old(connMap) - {fd} && connTypeMap == old(connTypeMap) - {fd}
    {
      if fd in connMap {
        connMap := connMap - {fd};
        connTypeMap := connTypeMap - {fd};
      }
    }
  }
}
