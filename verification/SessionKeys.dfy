/**
The session key manager: a list of keys for each authentication id, in which a
new key takes the next index, and ciphertexts that carry the index of their key.
*/
module SessionKeys {
  import opened Bytes
  import opened Wrappers

  datatype Key = Key(index: i32, bytes: seq<byte>)

  type AuthId = i64
  type Store = map<AuthId, seq<Key>>

  const MAX_INDEX := 0x7FFF_FFFF
  const KEY_LEN := 16
  const NONCE_LEN := 12
  const TAG_LEN := 16

  // -------------------------------------------------------------- key lists

  /** Index arithmetic is that of int32: it wraps. */
  function NextIndex(ks: seq<Key>): i32 {
    if ks == [] then 0 else ToI32(ks[|ks| - 1].index + 1)
  }

  function KeysOf(s: Store, id: AuthId): seq<Key> {
    if id in s then s[id] else []
  }

  /** The first key with the given index. */
  function Find(ks: seq<Key>, index: i32): Maybe<Key> {
    if ks == [] then Nothing
    else if ks[0].index == index then Just(ks[0])
    else Find(ks[1..], index)
  }

  function WithoutFirst(ks: seq<Key>, index: i32): seq<Key> {
    if ks == [] then []
    else if ks[0].index == index then ks[1..]
    else [ks[0]] + WithoutFirst(ks[1..], index)
  }

  predicate Increasing(ks: seq<Key>) {
    forall i, j | 0 <= i < j < |ks| :: ks[i].index < ks[j].index
  }

  predicate AllIncreasing(s: Store) {
    forall id | id in s :: Increasing(s[id])
  }

  predicate KeysSized(s: Store) {
    forall id | id in s :: forall k | k in s[id] :: |k.bytes| == KEY_LEN
  }

  // ------------------------------------------------------------- operations

  datatype Op =
    | Set(id: AuthId, key: seq<byte>)
    | Remove(id: AuthId, index: i32)
    | RemoveAll(id: AuthId)

  function Apply(s: Store, op: Op): Store {
    match op
    case Set(id, key) =>
      if |key| != KEY_LEN then s
      else s[id := KeysOf(s, id) + [Key(NextIndex(KeysOf(s, id)), key)]]
    case Remove(id, index) =>
      if id in s then s[id := WithoutFirst(s[id], index)] else s
    case RemoveAll(id) => s - {id}
  }

  function Run(s: Store, ops: seq<Op>): Store
    decreases ops
  {
    if ops == [] then s else Run(Apply(s, ops[0]), ops[1..])
  }

  class SessionKeyManager {
    var keys: Store

    constructor ()
      ensures keys == map[]
    {
      keys := map[];
    }

    method SetSessionKey(id: AuthId, sessionKey: seq<byte>) returns (index: i32, ok: bool)
      modifies this
      ensures ok <==> |sessionKey| == 16
      ensures index == if ok then NextIndex(KeysOf(old(keys), id)) else -1
      ensures keys == Apply(old(keys), Set(id, sessionKey))
    {
      if |sessionKey| != KEY_LEN { return -1, false; }
      var keyList := if id in keys then keys[id] else [];
      index := 0;
      if |keyList| > 0 {
        index := ToI32(keyList[|keyList| - 1].index + 1);
      }
      keyList := keyList + [Key(index, sessionKey)];
      keys := keys[id := keyList];
      return index, true;
    }

    method GetSessionKey(id: AuthId, index: i32) returns (r: Maybe<Key>)
      ensures r == Find(KeysOf(keys, id), index)
    {
      if id !in keys { return Nothing; }
      var keyList := keys[id];
      assert keyList[0..] == keyList;
      for i := 0 to |keyList|
        invariant Find(keyList, index) == Find(keyList[i..], index)
      {
        assert keyList[i..][1..] == keyList[i + 1..];
        if keyList[i].index == index { return Just(keyList[i]); }
      }
      return Nothing;
    }

    method GetLatestSessionKey(id: AuthId) returns (r: Maybe<Key>)
      ensures r == Latest(KeysOf(keys, id))
    {
      if id !in keys || |keys[id]| == 0 { return Nothing; }
      return Just(keys[id][|keys[id]| - 1]);
    }

    method RemoveSessionKey(id: AuthId, index: i32)
      modifies this
      ensures keys == Apply(old(keys), Remove(id, index))
    {
      if id !in keys { return; }
      var keyList := keys[id];
      for i := 0 to |keyList|
        invariant keys == old(keys)
        invariant forall j | 0 <= j < i :: keyList[j].index != index
      {
        if keyList[i].index == index {
          WithoutAt(keyList, i, index);
          keys := keys[id := keyList[..i] + keyList[i + 1..]];
          return;
        }
      }
      WithoutNone(keyList, index);
      assert keys[id := keyList] == keys;
    }

    method RemoveAllSessionKeys(id: AuthId)
      modifies this
      ensures keys == Apply(old(keys), RemoveAll(id))
    {
      keys := keys - {id};
    }

    method Encrypt(a: Aead, id: AuthId, iv: seq<byte>, plaintext: seq<byte>) returns (r: Maybe<seq<byte>>)
      requires |iv| == NONCE_LEN
      ensures r == EncryptWith(a, keys, id, iv, plaintext)
    {
      var latest := GetLatestSessionKey(id);
      if latest.Nothing? { return Nothing; }
      var encrypted := EncryptAesGcm(a, latest.value.bytes, iv, plaintext);
      if encrypted.Nothing? { return Nothing; }
      return Just(IndexPrefix(latest.value.index) + encrypted.value);
    }

    method Decrypt(a: Aead, id: AuthId, ciphertext: seq<byte>) returns (r: Maybe<seq<byte>>)
      ensures r == DecryptWith(a, keys, id, ciphertext)
    {
      if |ciphertext| < 4 { return Nothing; }
      var keyIndex := ReadIndex(ciphertext[..4]);
      var key := GetSessionKey(id, keyIndex);
      if key.Nothing? { return Nothing; }
      return DecryptAesGcm(a, key.value.bytes, ciphertext[4..]);
    }
  }

  function Latest(ks: seq<Key>): Maybe<Key> {
    if ks == [] then Nothing else Just(ks[|ks| - 1])
  }

  // -------------------------------------------------------------- ciphertexts

  /** An authenticated cipher: key, nonce, text. */
  datatype Aead = Aead(seal: (seq<byte>, seq<byte>, seq<byte>) -> seq<byte>,
                       open: (seq<byte>, seq<byte>, seq<byte>) -> Maybe<seq<byte>>)

  /** What is sealed opens again under the same key and nonce, and is longer by the tag. */
  ghost predicate Lawful(a: Aead) {
    && (forall k, n, m :: a.open(k, n, a.seal(k, n, m)) == Just(m))
    && (forall k, n, m :: |a.seal(k, n, m)| == |m| + TAG_LEN)
  }

  predicate AesKey(k: seq<byte>) {
    |k| == 16 || |k| == 24 || |k| == 32
  }

  function EncryptAesGcm(a: Aead, key: seq<byte>, iv: seq<byte>, plaintext: seq<byte>): Maybe<seq<byte>> {
    if AesKey(key) then Just(iv + a.seal(key, iv, plaintext)) else Nothing
  }

  function DecryptAesGcm(a: Aead, key: seq<byte>, data: seq<byte>): Maybe<seq<byte>> {
    if |data| < NONCE_LEN + TAG_LEN || !AesKey(key) then Nothing
    else a.open(key, data[..NONCE_LEN], data[NONCE_LEN..])
  }

  /** Four bytes, most significant first, of an int32 shifted right arithmetically. */
  function IndexPrefix(index: i32): (s: seq<byte>)
    ensures |s| == 4
  {
    [index / 0x100_0000 % 0x100, index / 0x1_0000 % 0x100, index / 0x100 % 0x100, index % 0x100]
  }

  /** Each byte is shifted left in int32 and the four are combined. */
  function ReadIndex(s: seq<byte>): i32
    requires |s| == 4
  {
    var b0: int, b1: int, b2: int := s[0], s[1], s[2];
    ToI32(b0 * 0x100_0000 + b1 * 0x1_0000 + b2 * 0x100 + s[3])
  }

  function EncryptWith(a: Aead, s: Store, id: AuthId, iv: seq<byte>, plaintext: seq<byte>): Maybe<seq<byte>> {
    match Latest(KeysOf(s, id))
    case Nothing => Nothing
    case Just(k) =>
      match EncryptAesGcm(a, k.bytes, iv, plaintext)
      case Nothing => Nothing
      case Just(c) => Just(IndexPrefix(k.index) + c)
  }

  function DecryptWith(a: Aead, s: Store, id: AuthId, ciphertext: seq<byte>): Maybe<seq<byte>> {
    if |ciphertext| < 4 then Nothing
    else
      match Find(KeysOf(s, id), ReadIndex(ciphertext[..4]))
      case Nothing => Nothing
      case Just(k) => DecryptAesGcm(a, k.bytes, ciphertext[4..])
  }

  /** The four bytes of an index, most significant first; a negative one counts from 2^32. */
  predicate IsIndex(s: seq<byte>, index: i32)
    requires |s| >= 4
  {
    var sum := 0x100_0000 * s[0] as int + 0x1_0000 * s[1] as int + 0x100 * s[2] as int + s[3] as int;
    sum == if index >= 0 then index else index + 0x1_0000_0000
  }

  lemma PrefixIsIndex(index: i32)
    ensures IsIndex(IndexPrefix(index), index)
  {
    BytesAddUp(index);
    SignedRemainder(index);
    var s := IndexPrefix(index);
    var sum := 0x100_0000 * s[0] as int + 0x1_0000 * s[1] as int + 0x100 * s[2] as int + s[3] as int;
    assert sum == index % TWO_32;
    hide IndexPrefix;
  }

  lemma SignedRemainder(index: i32)
    ensures index % TWO_32 == if index >= 0 then index else index + TWO_32
  {}

  lemma ReadIsIndex(s: seq<byte>)
    requires |s| == 4
    ensures IsIndex(s, ReadIndex(s))
  {}

  /** A ciphertext byte for byte: the index of the latest key, twelve bytes of iv, and the sealed text. */
  lemma EncryptLayout(a: Aead, s: Store, id: AuthId, iv: seq<byte>, plaintext: seq<byte>)
    requires |iv| == 12
    ensures var c := EncryptWith(a, s, id, iv, plaintext);
            var latest := Latest(KeysOf(s, id));
            && (c.Just? <==> latest.Just? && |latest.value.bytes| in {16, 24, 32})
            && (c.Just? ==>
                && |c.value| >= 16 && IsIndex(c.value, latest.value.index) && c.value[4..16] == iv
                && c.value[16..] == a.seal(latest.value.bytes, iv, plaintext))
  {
    var c := EncryptWith(a, s, id, iv, plaintext);
    if c.Just? {
      var k := Latest(KeysOf(s, id)).value;
      PrefixIsIndex(k.index);
      assert c.value == IndexPrefix(k.index) + (iv + a.seal(k.bytes, iv, plaintext));
      hide IndexPrefix;
      assert c.value[..4] == IndexPrefix(k.index);
    }
  }

  /** And what is opened: the text behind byte 16 under the iv before it, with the first key of the index in front. */
  lemma DecryptLayout(a: Aead, s: Store, id: AuthId, c: seq<byte>, index: i32)
    requires |c| >= 4 && IsIndex(c, index)
    ensures var k := Find(KeysOf(s, id), index);
            DecryptWith(a, s, id, c) ==
            if k.Nothing? || |c| < 32 || |k.value.bytes| !in {16, 24, 32} then Nothing
            else a.open(k.value.bytes, c[4..16], c[16..])
  {
    ReadIsIndex(c[..4]);
    assert ReadIndex(c[..4]) == index;
    hide ReadIndex;
    if |c| >= 32 {
      assert c[4..][..12] == c[4..16] && c[4..][12..] == c[16..];
    }
  }

  /** Four bytes, signed or not, add up to the number modulo 2^32. */
  lemma BytesAddUp(n: int)
    ensures n / 0x100_0000 % 0x100 * 0x100_0000 + n / 0x1_0000 % 0x100 * 0x1_0000
            + n / 0x100 % 0x100 * 0x100 + n % 0x100
         == n % TWO_32
  {
    var n1 := n / 0x100;
    var n2 := n1 / 0x100;
    var n3 := n2 / 0x100;
    assert n2 == n / 0x1_0000 && n3 == n / 0x100_0000;
    var n4 := n3 / 0x100;
    var rest := n3 % 0x100 * 0x100_0000 + n2 % 0x100 * 0x1_0000 + n1 % 0x100 * 0x100 + n % 0x100;
    assert n == n4 * TWO_32 + rest && 0 <= rest < TWO_32;
  }

  lemma IndexRoundTrip(index: i32)
    ensures ReadIndex(IndexPrefix(index)) == index
  {
    BytesAddUp(index);
    WordRoundTrip(index);
    hide ToI32;
    assert ReadIndex(IndexPrefix(index)) == ToI32(index % TWO_32);
  }

  lemma WordRoundTrip(index: i32)
    ensures ToI32(index % TWO_32) == index
  {}

  // ---------------------------------------------------------- invariants of runs

  lemma HeadIsSmallest(ks: seq<Key>)
    requires Increasing(ks) && ks != []
    ensures ks == [ks[0]] + ks[1..] && Increasing(ks[1..])
    ensures forall k | k in ks[1..] :: ks[0].index < k.index
  {
    var rest := ks[1..];
    forall k | k in rest ensures ks[0].index < k.index {
      var j :| 0 <= j < |rest| && rest[j] == k;
      assert ks[0].index < ks[j + 1].index;
    }
  }

  lemma IncreasingCons(k: Key, ks: seq<Key>)
    requires Increasing(ks) && forall k' | k' in ks :: k.index < k'.index
    ensures Increasing([k] + ks)
  {
    var w := [k] + ks;
    forall i, j | 0 <= i < j < |w| ensures w[i].index < w[j].index {
      assert w[j] == ks[j - 1] && ks[j - 1] in ks;
    }
  }

  /** Removal takes out exactly the keys of that index, of which there is at most one. */
  lemma {:induction false} WithoutFirstKeeps(ks: seq<Key>, index: i32)
    requires Increasing(ks)
    ensures Increasing(WithoutFirst(ks, index))
    ensures forall k :: k in WithoutFirst(ks, index) <==> k in ks && k.index != index
  {
    if ks != [] {
      HeadIsSmallest(ks);
      if ks[0].index != index {
        hide Increasing;
        WithoutFirstKeeps(ks[1..], index);
        IncreasingCons(ks[0], WithoutFirst(ks[1..], index));
      }
    }
  }

  lemma {:induction false} WithoutAt(ks: seq<Key>, i: nat, index: i32)
    requires i < |ks| && ks[i].index == index
    requires forall j | 0 <= j < i :: ks[j].index != index
    ensures WithoutFirst(ks, index) == ks[..i] + ks[i + 1..]
  {
    if i > 0 {
      WithoutAt(ks[1..], i - 1, index);
      assert ks[..i] == [ks[0]] + ks[1..][..i - 1];
      assert ks[1..][i..] == ks[i + 1..];
    }
  }

  lemma {:induction false} WithoutNone(ks: seq<Key>, index: i32)
    requires forall j | 0 <= j < |ks| :: ks[j].index != index
    ensures WithoutFirst(ks, index) == ks
  {
    if ks != [] {
      WithoutNone(ks[1..], index);
      assert ks == [ks[0]] + ks[1..];
    }
  }

  /** The newest key of this id already has the largest index there is. */
  predicate Exhausted(s: Store, id: AuthId) {
    KeysOf(s, id) != [] && KeysOf(s, id)[|KeysOf(s, id)| - 1].index == MAX_INDEX
  }

  /** A step keeps every list strictly increasing, unless it sets a key after the largest int32 index. */
  lemma StepKeepsOrder(s: Store, op: Op)
    requires AllIncreasing(s)
    ensures AllIncreasing(Apply(s, op)) <==> !(op.Set? && |op.key| == KEY_LEN && Exhausted(s, op.id))
  {
    var t := Apply(s, op);
    match op
    case Set(id, key) =>
      if |key| == KEY_LEN {
        var ks := KeysOf(s, id);
        var ks' := ks + [Key(NextIndex(ks), key)];
        assert t[id] == ks';
        if Exhausted(s, id) {
          assert ks'[|ks| - 1].index > ks'[|ks|].index;
        } else {
          forall i | 0 <= i < |ks| ensures ks[i].index < NextIndex(ks) {
            assert i == |ks| - 1 || ks[i].index < ks[|ks| - 1].index;
          }
          assert Increasing(ks');
        }
      }
    case Remove(id, index) =>
      if id in s {
        WithoutFirstKeeps(s[id], index);
      }
    case RemoveAll(id) =>
  }

  /** A run in which no id ever sets a key after the largest index. */
  predicate NeverExhausted(s: Store, ops: seq<Op>)
    decreases ops
  {
    ops != [] ==>
      && !(ops[0].Set? && |ops[0].key| == KEY_LEN && Exhausted(s, ops[0].id))
      && NeverExhausted(Apply(s, ops[0]), ops[1..])
  }

  lemma {:induction false} RunKeepsOrder(s: Store, ops: seq<Op>)
    requires AllIncreasing(s) && NeverExhausted(s, ops)
    ensures AllIncreasing(Run(s, ops))
    decreases ops
  {
    if ops != [] {
      StepKeepsOrder(s, ops[0]);
      RunKeepsOrder(Apply(s, ops[0]), ops[1..]);
    }
  }

  lemma {:induction false} RunThen(s: Store, ops: seq<Op>, op: Op)
    ensures Run(s, ops + [op]) == Apply(Run(s, ops), op)
    decreases ops
  {
    hide Apply;
    if ops == [] {
      assert [op][1..] == [];
    } else {
      assert (ops + [op])[1..] == ops[1..] + [op];
      RunThen(Apply(s, ops[0]), ops[1..], op);
    }
  }

  /** The same key set n times. */
  function Sets(id: AuthId, key: seq<byte>, n: nat): seq<Op> {
    if n == 0 then [] else Sets(id, key, n - 1) + [Set(id, key)]
  }

  lemma {:induction false} AfterSets(id: AuthId, key: seq<byte>, n: nat)
    requires |key| == KEY_LEN && n <= MAX_INDEX + 1
    ensures var ks := KeysOf(Run(map[], Sets(id, key, n)), id);
            |ks| == n && (n > 0 ==> ks[n - 1] == Key(n - 1, key))
  {
    if n > 0 {
      AfterSets(id, key, n - 1);
      RunThen(map[], Sets(id, key, n - 1), Set(id, key));
    }
  }

  /** Setting 2^31 keys uses up the indices; the next key takes the lowest one, and its list is out of order. */
  lemma IndicesRunOut(id: AuthId, key: seq<byte>)
    requires |key| == KEY_LEN
    ensures var full, more := Run(map[], Sets(id, key, MAX_INDEX + 1)), Run(map[], Sets(id, key, MAX_INDEX + 2));
            && Exhausted(full, id)
            && Latest(KeysOf(more, id)) == Just(Key(-MAX_INDEX - 1, key)) && !AllIncreasing(more)
  {
    hide Run, Sets;
    AfterSets(id, key, MAX_INDEX + 1);
    var full := Run(map[], Sets(id, key, MAX_INDEX + 1));
    NextSet(id, key, MAX_INDEX + 1);
    var more := Apply(full, Set(id, key));
    var ks := KeysOf(more, id);
    assert ks[MAX_INDEX].index > ks[MAX_INDEX + 1].index;
    assert id in more && more[id] == ks;
  }

  lemma NextSet(id: AuthId, key: seq<byte>, n: nat)
    ensures Run(map[], Sets(id, key, n + 1)) == Apply(Run(map[], Sets(id, key, n)), Set(id, key))
  {
    RunThen(map[], Sets(id, key, n), Set(id, key));
  }

  /** In an increasing list the linear search is a lookup in the map from indices to keys. */
  lemma {:induction false} FindIsLookup(ks: seq<Key>, index: i32)
    requires Increasing(ks)
    ensures forall k :: Find(ks, index) == Just(k) <==> k in ks && k.index == index
  {
    if ks != [] {
      HeadIsSmallest(ks);
      FindIsLookup(ks[1..], index);
    }
  }

  lemma LatestIsMaximum(ks: seq<Key>)
    requires Increasing(ks) && ks != []
    ensures Latest(ks).value in ks && forall k | k in ks :: k.index <= Latest(ks).value.index
    ensures Find(ks, Latest(ks).value.index) == Latest(ks)
  {
    forall k | k in ks ensures k.index <= Latest(ks).value.index {
      var j :| 0 <= j < |ks| && ks[j] == k;
    }
    FindIsLookup(ks, Latest(ks).value.index);
  }

  /** After any run from an empty manager: search is lookup, and the latest key has the largest live index. */
  lemma RunLookups(ops: seq<Op>, id: AuthId, index: i32)
    requires NeverExhausted(map[], ops)
    ensures var ks := KeysOf(Run(map[], ops), id);
            && Increasing(ks)
            && (forall k :: Find(ks, index) == Just(k) <==> k in ks && k.index == index)
            && (ks != [] ==> forall k | k in ks :: k.index <= Latest(ks).value.index)
  {
    RunKeepsOrder(map[], ops);
    var ks := KeysOf(Run(map[], ops), id);
    FindIsLookup(ks, index);
    if ks != [] {
      LatestIsMaximum(ks);
    }
  }

  // ------------------------------------------------------------- key rotation

  /** An operation that takes the keys of this index out of this list. */
  predicate Drops(op: Op, id: AuthId, index: i32) {
    op.id == id && ((op.Remove? && op.index == index) || op.RemoveAll?)
  }

  predicate NeverDropped(ops: seq<Op>, id: AuthId, index: i32) {
    forall op | op in ops :: !Drops(op, id, index)
  }

  /** At every moment of a run the index of k leads to k. */
  predicate AlwaysNames(s: Store, ops: seq<Op>, id: AuthId, k: Key)
    decreases ops
  {
    && Find(KeysOf(s, id), k.index) == Just(k)
    && (ops != [] ==> AlwaysNames(Apply(s, ops[0]), ops[1..], id, k))
  }

  lemma {:induction false} FindInPrefix(ks: seq<Key>, more: seq<Key>, index: i32)
    requires Find(ks, index).Just?
    ensures Find(ks + more, index) == Find(ks, index)
  {
    if ks[0].index != index {
      FindInPrefix(ks[1..], more, index);
      assert (ks + more)[1..] == ks[1..] + more;
    }
  }

  /** Removing another index does not change what is found under this one, in whatever order the list is. */
  lemma {:induction false} FindAfterOther(ks: seq<Key>, other: i32, index: i32)
    requires other != index
    ensures Find(WithoutFirst(ks, other), index) == Find(ks, index)
  {
    if ks != [] && ks[0].index != other {
      FindAfterOther(ks[1..], other, index);
    }
  }

  lemma StepKeepsName(s: Store, op: Op, id: AuthId, k: Key)
    requires Find(KeysOf(s, id), k.index) == Just(k) && !Drops(op, id, k.index)
    ensures Find(KeysOf(Apply(s, op), id), k.index) == Just(k)
  {
    if op.id == id {
      var ks := KeysOf(s, id);
      match op
      case Set(_, key) =>
        if |key| == KEY_LEN {
          FindInPrefix(ks, [Key(NextIndex(ks), key)], k.index);
        }
      case Remove(_, other) =>
        FindAfterOther(ks, other, k.index);
      case RemoveAll(_) =>
    }
  }

  /** A key that is found stays found while its own index is not removed, even when indices wrap around. */
  lemma {:induction false} NamesUntilDropped(s: Store, ops: seq<Op>, id: AuthId, k: Key)
    requires Find(KeysOf(s, id), k.index) == Just(k) && NeverDropped(ops, id, k.index)
    ensures AlwaysNames(s, ops, id, k)
    ensures Find(KeysOf(Run(s, ops), id), k.index) == Just(k)
    decreases ops
  {
    if ops != [] {
      assert ops[0] in ops && forall op | op in ops[1..] :: op in ops;
      StepKeepsName(s, ops[0], id, k);
      hide Apply, Find;
      NamesUntilDropped(Apply(s, ops[0]), ops[1..], id, k);
    }
  }

  /** In an increasing list nothing is left under an index that is removed. */
  lemma DropForgets(s: Store, op: Op, id: AuthId, index: i32)
    requires AllIncreasing(s) && Drops(op, id, index)
    ensures Find(KeysOf(Apply(s, op), id), index) == Nothing
  {
    if op.Remove? && id in s {
      var left := WithoutFirst(s[id], index);
      WithoutFirstKeeps(s[id], index);
      FindIsLookup(left, index);
      assert forall k :: Find(left, index) != Just(k);
    }
  }

  /** An index names one key at every moment of a run exactly if no operation removes that index or its list. */
  lemma {:induction false} NamesExactly(s: Store, ops: seq<Op>, id: AuthId, k: Key)
    requires AllIncreasing(s) && NeverExhausted(s, ops) && k in KeysOf(s, id)
    ensures AlwaysNames(s, ops, id, k) <==> NeverDropped(ops, id, k.index)
    decreases ops
  {
    FindIsLookup(KeysOf(s, id), k.index);
    if NeverDropped(ops, id, k.index) {
      NamesUntilDropped(s, ops, id, k);
    } else {
      NotAlways(s, ops, id, k);
    }
  }

  lemma {:induction false} NotAlways(s: Store, ops: seq<Op>, id: AuthId, k: Key)
    requires AllIncreasing(s) && NeverExhausted(s, ops) && !NeverDropped(ops, id, k.index)
    ensures !AlwaysNames(s, ops, id, k)
    decreases ops
  {
    var t := Apply(s, ops[0]);
    if Drops(ops[0], id, k.index) {
      DropForgets(s, ops[0], id, k.index);
      assert !AlwaysNames(t, ops[1..], id, k);
    } else {
      StepKeepsOrder(s, ops[0]);
      assert forall op | op in ops :: op == ops[0] || op in ops[1..];
      hide Apply, Find, AllIncreasing;
      NotAlways(t, ops[1..], id, k);
    }
  }

  // -------------------------------------------------- ciphertexts over time

  /** A ciphertext made with k opens exactly while the index of k leads to a key that opens it; k does. */
  lemma OpensWithItsKey(a: Aead, s: Store, t: Store, id: AuthId, iv: seq<byte>, plaintext: seq<byte>)
    requires Lawful(a) && |iv| == NONCE_LEN && EncryptWith(a, s, id, iv, plaintext).Just?
    ensures var k, c := Latest(KeysOf(s, id)).value, EncryptWith(a, s, id, iv, plaintext).value;
            && (Find(KeysOf(t, id), k.index) == Just(k) ==> DecryptWith(a, t, id, c) == Just(plaintext))
            && (Find(KeysOf(t, id), k.index) == Nothing ==> DecryptWith(a, t, id, c) == Nothing)
  {
    var k := Latest(KeysOf(s, id)).value;
    var c := EncryptAesGcm(a, k.bytes, iv, plaintext).value;
    var ciphertext := IndexPrefix(k.index) + c;
    assert ciphertext[..4] == IndexPrefix(k.index) && ciphertext[4..] == c;
    IndexRoundTrip(k.index);
    assert c[..NONCE_LEN] == iv && c[NONCE_LEN..] == a.seal(k.bytes, iv, plaintext);
    hide IndexPrefix, ReadIndex;
  }

  /**
  A ciphertext opens to its plaintext after any operations that do not remove the index of its key,
  provided that key was the first of its index; in an increasing list it always is.
  */
  lemma DecryptAfterRotation(a: Aead, s: Store, id: AuthId, iv: seq<byte>, plaintext: seq<byte>, ops: seq<Op>)
    requires Lawful(a) && |iv| == NONCE_LEN
    requires EncryptWith(a, s, id, iv, plaintext).Just?
    requires Find(KeysOf(s, id), Latest(KeysOf(s, id)).value.index) == Latest(KeysOf(s, id))
    requires NeverDropped(ops, id, Latest(KeysOf(s, id)).value.index)
    ensures DecryptWith(a, Run(s, ops), id, EncryptWith(a, s, id, iv, plaintext).value) == Just(plaintext)
  {
    hide DecryptWith, Run;
    NamesUntilDropped(s, ops, id, Latest(KeysOf(s, id)).value);
    OpensWithItsKey(a, s, Run(s, ops), id, iv, plaintext);
  }

  /** At every moment of a run the ciphertext opens to the plaintext. */
  predicate AlwaysOpens(a: Aead, s: Store, ops: seq<Op>, id: AuthId, ciphertext: seq<byte>, plaintext: seq<byte>)
    decreases ops
  {
    && DecryptWith(a, s, id, ciphertext) == Just(plaintext)
    && (ops != [] ==> AlwaysOpens(a, Apply(s, ops[0]), ops[1..], id, ciphertext, plaintext))
  }

  /** From any later store t, with the key still there or not: it opens as long as its key is named. */
  lemma {:induction false} OpensWhileNamed(a: Aead, s: Store, t: Store, ops: seq<Op>, id: AuthId, iv: seq<byte>,
                                           plaintext: seq<byte>)
    requires Lawful(a) && |iv| == NONCE_LEN && EncryptWith(a, s, id, iv, plaintext).Just?
    requires AllIncreasing(t) && NeverExhausted(t, ops)
    requires Find(KeysOf(t, id), Latest(KeysOf(s, id)).value.index) == Latest(KeysOf(s, id))
    ensures var c := EncryptWith(a, s, id, iv, plaintext).value;
            AlwaysOpens(a, t, ops, id, c, plaintext) <==> NeverDropped(ops, id, Latest(KeysOf(s, id)).value.index)
    decreases ops
  {
    var k := Latest(KeysOf(s, id)).value;
    OpensWithItsKey(a, s, t, id, iv, plaintext);
    if ops != [] {
      var u := Apply(t, ops[0]);
      assert ops == [ops[0]] + ops[1..];
      if Drops(ops[0], id, k.index) {
        DropForgets(t, ops[0], id, k.index);
        OpensWithItsKey(a, s, u, id, iv, plaintext);
      } else {
        StepKeepsOrder(t, ops[0]);
        StepKeepsName(t, ops[0], id, k);
        hide Apply, Find, EncryptWith, DecryptWith;
        OpensWhileNamed(a, s, u, ops[1..], id, iv, plaintext);
      }
    }
  }

  /**
  Over a whole life of a manager: any run, then an encryption, which succeeds if there is a key. The
  ciphertext opens after any operations that do not remove the key's own index; and it opens all the
  time exactly if none does.
  */
  lemma DecryptOverRun(a: Aead, before: seq<Op>, id: AuthId, iv: seq<byte>, plaintext: seq<byte>, after: seq<Op>)
    requires Lawful(a) && |iv| == NONCE_LEN
    requires NeverExhausted(map[], before) && KeysOf(Run(map[], before), id) != []
    ensures var s := Run(map[], before);
            var index, sealed := Latest(KeysOf(s, id)).value.index, EncryptWith(a, s, id, iv, plaintext);
            && sealed.Just?
            && (NeverDropped(after, id, index) ==> DecryptWith(a, Run(s, after), id, sealed.value) == Just(plaintext))
            && (NeverExhausted(s, after) ==>
                (AlwaysOpens(a, s, after, id, sealed.value, plaintext) <==> NeverDropped(after, id, index)))
  {
    var s := Run(map[], before);
    RunKeepsOrder(map[], before);
    RunKeepsSizes(map[], before);
    LatestIsMaximum(KeysOf(s, id));
    hide Run, AlwaysOpens, NeverExhausted, NeverDropped, DecryptWith, Find, AllIncreasing;
    if NeverDropped(after, id, Latest(KeysOf(s, id)).value.index) {
      DecryptAfterRotation(a, s, id, iv, plaintext, after);
    }
    if NeverExhausted(s, after) {
      OpensWhileNamed(a, s, s, after, id, iv, plaintext);
    }
  }

  lemma {:induction false} WithoutFirstSubset(ks: seq<Key>, index: i32)
    ensures forall k | k in WithoutFirst(ks, index) :: k in ks
  {
    if ks != [] {
      WithoutFirstSubset(ks[1..], index);
      assert forall k | k in ks[1..] :: k in ks;
    }
  }

  lemma {:induction false} RunKeepsSizes(s: Store, ops: seq<Op>)
    requires KeysSized(s)
    ensures KeysSized(Run(s, ops))
    decreases ops
  {
    if ops != [] {
      if ops[0].Remove? && ops[0].id in s {
        WithoutFirstSubset(s[ops[0].id], ops[0].index);
      }
      assert KeysSized(Apply(s, ops[0]));
      RunKeepsSizes(Apply(s, ops[0]), ops[1..]);
    }
  }

  /** Removing the newest key frees its index: the next key takes it, and an old ciphertext names the new key. */
  lemma RemovalReusesIndex(k1: seq<byte>, k2: seq<byte>, id: AuthId)
    requires |k1| == |k2| == KEY_LEN
    ensures var s := Run(map[], [Set(id, k1), Remove(id, 0), Set(id, k2)]);
            Find(KeysOf(s, id), 0) == Just(Key(0, k2))
  {
    var ops := [Set(id, k1), Remove(id, 0), Set(id, k2)];
    var s1 := Apply(map[], ops[0]);
    var s2 := Apply(s1, ops[1]);
    var s3 := Apply(s2, ops[2]);
    assert KeysOf(s1, id) == [Key(0, k1)];
    assert KeysOf(s2, id) == [];
    assert KeysOf(s3, id) == [Key(0, k2)];
    assert ops[1..] == [ops[1], ops[2]] && ops[1..][1..] == [ops[2]] && ops[1..][1..][1..] == [];
    assert Run(map[], ops) == Run(s1, ops[1..]) == Run(s2, ops[1..][1..]) == Run(s3, []);
  }
}
