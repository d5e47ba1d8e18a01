/**
 The open-addressing hash table of hashmap.c.  A deleted entry stays behind as a tombstone, so
 that searches for keys stored past it still find them; a table that fills up is rehashed.  The
 table is shown to be a finite map.
 */
module HashMaps {
  import opened Arith
  import opened Bits

  type Key = seq<Byte>
  type Ptr = nat                  // 0 is NULL

  /** A C int of the host: the arithmetic below must not leave it. */
  type CInt = x: int | -0x8000_0000 <= x < 0x8000_0000

  const INIT_SIZE: CInt := 16
  const HIGH_WATERMARK: CInt := 70
  const LOW_WATERMARK: CInt := 50

  /** With fewer keys than this no `int` computation of the table overflows. */
  const MAX_KEYS: nat := 0x80_0000

  datatype KeyRef = NoKey | Tombstone | Name(key: Key)
  datatype Entry = Entry(key: KeyRef, val: Ptr)

  // ----- hashing and probing -----

  function FnvFrom(hash: nat, s: Key): (h: nat)
    requires hash < Pow2(64)
    ensures h < Pow2(64)
    decreases |s|
  {
    if s == [] then hash
    else FnvFrom(Bitwise(BitXor, hash * 0x100000001b3 % Pow2(64), s[0], 64), s[1..])
  }

  lemma OffsetBasis()
    ensures 0xcbf29ce484222325 < Pow2(64)
  {
    Pow2Values();
  }

  function Hash(s: Key): (h: nat)
    ensures h < Pow2(64)
  {
    OffsetBasis();
    FnvFrom(0xcbf29ce484222325, s)
  }

  /** The hash of the empty key, and of a key one byte longer: the product changed in the low digits that the byte has. */
  lemma HashOfNone()
    ensures Hash([]) == 0xcbf29ce484222325
  {
  }

  lemma {:induction false} FnvAppend(hash: nat, s: Key, c: Byte)
    requires hash < Pow2(64)
    ensures FnvFrom(hash, s + [c]) == Bitwise(BitXor, FnvFrom(hash, s) * 0x100000001b3 % Pow2(64), c, 64)
    decreases |s|
  {
    hide Bitwise;
    if s == [] {
      assert s + [c] == [c];
      assert [c][1..] == [];
    } else {
      var h := Bitwise(BitXor, hash * 0x100000001b3 % Pow2(64), s[0], 64);
      assert (s + [c])[1..] == s[1..] + [c];
      FnvAppend(h, s[1..], c);
    }
  }

  lemma HashAppend(s: Key, c: Byte)
    ensures var h, h' := Hash(s) * 0x100000001b3 % 0x1_0000_0000_0000_0000, Hash(s + [c]);
      h' / 256 == h / 256 && h' % 256 == Bitwise(BitXor, h, c, 8)
  {
    hide Bitwise, FnvFrom, Pow2;
    OffsetBasis();
    Pow2Values();
    FnvAppend(0xcbf29ce484222325, s, c);
    LowByteXor(Hash(s) * 0x100000001b3 % 0x1_0000_0000_0000_0000, c);
  }

  lemma LowByteXor(h: nat, c: Byte)
    requires h < Pow2(64)
    ensures Bitwise(BitXor, h, c, 64) == 256 * (h / 256) + Bitwise(BitXor, h, c, 8) && Bitwise(BitXor, h, c, 8) < 256
  {
    hide Bitwise, Pow2;
    Pow2Values();
    BitwiseSplit(BitXor, h, c, 8, 56);
    Pow2Add(8, 56);
    WithNeutral(BitXor, h / 256, 56);
    assert (c as int) / 256 == 0;
  }

  /** The published FNV-1 hash of "a". */
  lemma HashOfA()
    ensures Hash([97]) == 0xaf63bd4c8601b7be
  {
    hide Bitwise;
    HashOfNone();
    HashAppend([], 97);
    assert [] + [97] == [97];
    assert 0xcbf29ce484222325 * 0x100000001b3 % 0x1_0000_0000_0000_0000 == 0xaf63bd4c8601b7df;
    XorByte();
  }

  lemma XorByte()
    ensures Bitwise(BitXor, 0xaf63bd4c8601b7df, 97, 8) == 0xbe
  {
    assert Bitwise(BitXor, 0x2bd8ef5321806df, 1, 2) == 2;
    assert Bitwise(BitXor, 0xaf63bd4c8601b7d, 6, 4) == 11;
    assert Bitwise(BitXor, 0x2bd8ef5321806df7, 24, 6) == 47;
  }

  method FnvHash(s: Key) returns (hash: nat)
    ensures hash == Hash(s)
  {
    OffsetBasis();
    hash := 0xcbf29ce484222325;
    for i := 0 to |s|
      invariant hash < Pow2(64) && FnvFrom(hash, s[i..]) == Hash(s)
    {
      assert s[i..][1..] == s[i + 1..];
      hash := hash * 0x100000001b3 % Pow2(64);
      hash := Bitwise(BitXor, hash, s[i], 64);
    }
  }

  /** Where the `i`-th probe for a key of hash `h` looks: the sum is a uint64_t. */
  function Slot(h: nat, i: nat, capacity: nat): (e: nat)
    requires capacity > 0
    ensures e < capacity
  {
    (h + i) % Pow2(64) % capacity
  }

  /** The sum may wrap around, but capacities are powers of two, so that changes nothing. */
  lemma WrapIsHarmless(h: nat, i: nat, bits: nat)
    requires bits <= 64
    ensures Slot(h, i, Pow2(bits)) == (h + i) % Pow2(bits)
  {
    Pow2Add(64 - bits, bits);
    ModOfMod(h + i, Pow2(bits), Pow2(64 - bits));
  }

  /** The probes of a key visit every slot. */
  lemma ProbeOf(h: nat, bits: nat, e: nat) returns (j: nat)
    requires bits <= 64 && e < Pow2(bits)
    ensures j < Pow2(bits) && Slot(h, j, Pow2(bits)) == e
  {
    var c := Pow2(bits);
    j := (e - h) % c;
    WrapIsHarmless(h, j, bits);
    Cyclic(h, e, c);
  }

  lemma Cyclic(h: int, e: int, c: nat)
    requires 0 <= e < c
    ensures (h + (e - h) % c) % c == e
  {
    var q, j := (e - h) / c, (e - h) % c;
    assert e - h == q * c + j;
    DivModUnique(h + j, -q, e, c);
  }

  // ----- what a table means -----

  function Count(bs: seq<Entry>): (n: nat)
    ensures n <= |bs|
  {
    if bs == [] then 0 else (if bs[0].key.NoKey? then 0 else 1) + Count(bs[1..])
  }

  function LiveCount(bs: seq<Entry>): (n: nat)
    ensures n <= Count(bs)
  {
    if bs == [] then 0 else (if bs[0].key.Name? then 1 else 0) + LiveCount(bs[1..])
  }

  lemma {:induction false} CountUpdate(bs: seq<Entry>, i: nat, e: Entry)
    requires i < |bs| && !e.key.NoKey?
    ensures Count(bs[i := e]) == Count(bs) + if bs[i].key.NoKey? then 1 else 0
  {
    if i > 0 {
      assert bs[i := e][1..] == bs[1..][i - 1 := e];
      CountUpdate(bs[1..], i - 1, e);
    } else {
      assert bs[i := e][1..] == bs[1..];
    }
  }

  lemma {:induction false} CountSnoc(bs: seq<Entry>, i: nat)
    requires i < |bs|
    ensures LiveCount(bs[..i + 1]) == LiveCount(bs[..i]) + if bs[i].key.Name? then 1 else 0
  {
    if i > 0 {
      assert bs[..i + 1][1..] == bs[1..][..i] && bs[..i][1..] == bs[1..][..i - 1];
      CountSnoc(bs[1..], i - 1);
    }
  }

  lemma {:induction false} SomeEmpty(bs: seq<Entry>) returns (e: nat)
    requires Count(bs) < |bs|
    ensures e < |bs| && bs[e].key.NoKey?
  {
    if bs[0].key.NoKey? {
      e := 0;
    } else {
      e := SomeEmpty(bs[1..]);
      e := e + 1;
    }
  }

  /** Key `k` is where its probe number `d` says, and no probe before that is at an empty slot. */
  predicate Reached(bs: seq<Entry>, k: Key, d: nat) {
    d < |bs| && bs[Slot(Hash(k), d, |bs|)].key == Name(k) &&
    forall j :: 0 <= j < d ==> !bs[Slot(Hash(k), j, |bs|)].key.NoKey?
  }

  /** `pos` numbers the probe at which each key is found; every entry is where its key's probe leads. */
  ghost predicate Table(bs: seq<Entry>, pos: map<Key, nat>) {
    && (forall k :: k in pos ==> Reached(bs, k, pos[k]))
    && (forall i :: 0 <= i < |bs| && bs[i].key.Name? ==>
          bs[i].key.key in pos && Slot(Hash(bs[i].key.key), pos[bs[i].key.key], |bs|) == i)
  }

  function ValueAt(bs: seq<Entry>, k: Key, d: nat): Ptr {
    if bs == [] then 0 else bs[Slot(Hash(k), d, |bs|)].val
  }

  ghost function Meaning(bs: seq<Entry>, pos: map<Key, nat>): map<Key, Ptr> {
    map k | k in pos :: ValueAt(bs, k, pos[k])
  }

  /** The search for a key has made `i` probes and found neither it nor an empty slot. */
  predicate Passed(bs: seq<Entry>, k: Key, i: nat)
    requires |bs| > 0
  {
    forall j :: 0 <= j < i ==>
      !bs[Slot(Hash(k), j, |bs|)].key.NoKey? && bs[Slot(Hash(k), j, |bs|)].key != Name(k)
  }

  /** A search that comes to an empty slot has not missed the key. */
  lemma NotThere(bs: seq<Entry>, pos: map<Key, nat>, k: Key, i: nat)
    requires |bs| > 0 && Table(bs, pos) && Passed(bs, k, i) && bs[Slot(Hash(k), i, |bs|)].key.NoKey?
    ensures k !in pos
  {
    assert k in pos ==> Reached(bs, k, pos[k]);
  }

  /** A search cannot pass every slot while one is empty. */
  lemma Stops(bs: seq<Entry>, bits: nat, k: Key)
    requires bits <= 64 && |bs| == Pow2(bits) && Count(bs) < |bs|
    ensures !Passed(bs, k, |bs|)
  {
    var e := SomeEmpty(bs);
    var j := ProbeOf(Hash(k), bits, e);
  }

  /** Put a key at a free slot on its probe path. */
  lemma Inserted(bs: seq<Entry>, pos: map<Key, nat>, k: Key, d: nat, val: Ptr, e: nat, bs': seq<Entry>)
    requires |bs| > 0 && Table(bs, pos) && k !in pos && d < |bs| && Passed(bs, k, d)
    requires e == Slot(Hash(k), d, |bs|) && !bs[e].key.Name? && bs' == bs[e := Entry(Name(k), val)]
    ensures Table(bs', pos[k := d]) && Meaning(bs', pos[k := d]) == Meaning(bs, pos)[k := val]
  {
    InsertedTable(bs, pos, k, d, val, e, bs');
    InsertedMeaning(bs, pos, k, d, val, e, bs');
  }

  lemma InsertedTable(bs: seq<Entry>, pos: map<Key, nat>, k: Key, d: nat, val: Ptr, e: nat, bs': seq<Entry>)
    requires |bs| > 0 && Table(bs, pos) && k !in pos && d < |bs| && Passed(bs, k, d)
    requires e == Slot(Hash(k), d, |bs|) && !bs[e].key.Name? && bs' == bs[e := Entry(Name(k), val)]
    ensures Table(bs', pos[k := d])
  {
    var pos' := pos[k := d];
    forall k' | k' in pos'
      ensures Reached(bs', k', pos'[k'])
    {
      if k' != k {
        assert Reached(bs, k', pos[k']);
      }
    }
  }

  lemma InsertedMeaning(bs: seq<Entry>, pos: map<Key, nat>, k: Key, d: nat, val: Ptr, e: nat, bs': seq<Entry>)
    requires e < |bs| && e == Slot(Hash(k), d, |bs|) && !bs[e].key.Name? && bs' == bs[e := Entry(Name(k), val)]
    requires k !in pos && forall k' :: k' in pos ==> Reached(bs, k', pos[k'])
    ensures Meaning(bs', pos[k := d]) == Meaning(bs, pos)[k := val]
  {
    forall k' | k' in pos
      ensures ValueAt(bs', k', pos[k']) == ValueAt(bs, k', pos[k'])
    {
      assert Reached(bs, k', pos[k']);
    }
  }

  /** Overwrite the value of a key. */
  lemma Overwritten(bs: seq<Entry>, pos: map<Key, nat>, k: Key, val: Ptr, e: nat, bs': seq<Entry>)
    requires Table(bs, pos) && k in pos && e < |bs| && e == Slot(Hash(k), pos[k], |bs|)
    requires bs' == bs[e := Entry(Name(k), val)]
    ensures Table(bs', pos) && Meaning(bs', pos) == Meaning(bs, pos)[k := val]
  {
    forall k' | k' in pos
      ensures Reached(bs', k', pos[k'])
    {
      assert Reached(bs, k', pos[k']) && Reached(bs, k, pos[k]);
    }
  }

  /** Turn the entry of a key into a tombstone: paths through it stay whole. */
  lemma Buried(bs: seq<Entry>, pos: map<Key, nat>, k: Key, e: nat, bs': seq<Entry>)
    requires Table(bs, pos) && k in pos && e < |bs| && e == Slot(Hash(k), pos[k], |bs|)
    requires bs' == bs[e := bs[e].(key := Tombstone)]
    ensures Table(bs', pos - {k}) && Meaning(bs', pos - {k}) == Meaning(bs, pos) - {k}
  {
    var pos' := pos - {k};
    forall k' | k' in pos'
      ensures Reached(bs', k', pos'[k'])
    {
      assert Reached(bs, k', pos[k']) && Reached(bs, k, pos[k]);
    }
  }

  /** A slot whose key is being looked for in a loop that has passed all slots before it. */
  lemma PassedOne(bs: seq<Entry>, k: Key, i: nat)
    requires |bs| > 0 && Passed(bs, k, i)
    requires !bs[Slot(Hash(k), i, |bs|)].key.NoKey? && bs[Slot(Hash(k), i, |bs|)].key != Name(k)
    ensures Passed(bs, k, i + 1)
  {
  }

  predicate Crowded(used: int, capacity: int)
    requires capacity > 0 && 0 <= used * 100 < 0x8000_0000
  {
    used * 100 / capacity >= HIGH_WATERMARK
  }

  lemma {:induction false} AllEmpty(bs: seq<Entry>)
    requires forall i :: 0 <= i < |bs| ==> bs[i] == Entry(NoKey, 0)
    ensures Count(bs) == 0
  {
    if bs != [] {
      AllEmpty(bs[1..]);
    }
  }

  function Names(bs: seq<Entry>, n: nat): set<Key>
    requires n <= |bs|
  {
    if n == 0 then {} else Names(bs, n - 1) + if bs[n - 1].key.Name? then {bs[n - 1].key.key} else {}
  }

  lemma {:induction false} LiveNames(bs: seq<Entry>, pos: map<Key, nat>, n: nat)
    requires Table(bs, pos) && n <= |bs|
    ensures |Names(bs, n)| == LiveCount(bs[..n])
    ensures forall k :: k in Names(bs, n) ==> k in pos && Slot(Hash(k), pos[k], |bs|) < n
  {
    if n > 0 {
      LiveNames(bs, pos, n - 1);
      CountSnoc(bs, n - 1);
    }
  }

  lemma {:induction false} NamesHas(bs: seq<Entry>, n: nat, e: nat)
    requires e < n <= |bs| && bs[e].key.Name?
    ensures bs[e].key.key in Names(bs, n)
  {
    if e < n - 1 {
      NamesHas(bs, n - 1, e);
    }
  }

  /** No key has two entries: there are as many live entries as keys. */
  lemma LiveIsCardinality(bs: seq<Entry>, pos: map<Key, nat>)
    requires Table(bs, pos)
    ensures LiveCount(bs) == |Meaning(bs, pos)|
  {
    LiveNames(bs, pos, |bs|);
    assert bs[..|bs|] == bs;
    forall k | k in pos
      ensures k in Names(bs, |bs|)
    {
      assert Reached(bs, k, pos[k]);
      NamesHas(bs, |bs|, Slot(Hash(k), pos[k], |bs|));
    }
    assert Names(bs, |bs|) == Meaning(bs, pos).Keys;
  }

  /** Doubling stops before the capacity overflows. */
  lemma CapacityFits(nkeys: nat, cap: nat, b: nat)
    requires nkeys < MAX_KEYS && cap == Pow2(b) && b <= 24
    ensures nkeys * 100 / cap >= LOW_WATERMARK ==> b < 24 && cap * 2 == Pow2(b + 1) <= 0x100_0000
    ensures nkeys * 100 / cap < LOW_WATERMARK ==> nkeys * 100 < LOW_WATERMARK * cap
  {
    Quotient(nkeys * 100, cap, LOW_WATERMARK);
    Pow2Values();
    Pow2Add(16, 8);
    if b < 24 {
      Pow2Monotonic(b + 1, 24);
    }
  }

  /** A table, the number of the probe at which each key is found, and the map that the table stands for. */
  datatype State = State(entries: seq<Entry>, bits: nat, used: int, pos: map<Key, nat>, content: map<Key, Ptr>)

  /** `used` counts the tombstones and the live entries; the capacity is a power of two; a slot at least is empty. */
  ghost predicate Good(s: State) {
    && 16 <= |s.entries| == Pow2(s.bits) <= 0x100_0000 && s.bits <= 24
    && Table(s.entries, s.pos) && s.content == Meaning(s.entries, s.pos)
    && s.used == Count(s.entries) && s.used < |s.entries| && s.used * 100 <= HIGH_WATERMARK * |s.entries| + 100
  }

  type GoodState = s: State | Good(s) ghost witness NewState(4)

  /** How many entries are tombstones (see LiveIsCardinality). */
  ghost function Tombs(s: State): int { s.used - |s.content| }

  /** calloc of 2^bits entries. */
  ghost function NewState(bits: nat): (s: State)
    requires 4 <= bits <= 24
    ensures Good(s) && s.content == map[] && s.used == 0 && s.bits == bits
    ensures s.entries == seq(Pow2(bits), _ => Entry(NoKey, 0))
  {
    var bs := seq(Pow2(bits), _ => Entry(NoKey, 0));
    AllEmpty(bs);
    CapacityRange(bits);
    State(bs, bits, 0, map[], map[])
  }

  lemma CapacityRange(bits: nat)
    requires 4 <= bits <= 24
    ensures 16 <= Pow2(bits) <= 0x100_0000
  {
    Pow2Monotonic(4, bits);
    Pow2Monotonic(bits, 24);
    assert Pow2(4) == 16;
    Pow2Values();
    Pow2Add(16, 8);
  }

  lemma MapGrows(m: map<Key, Ptr>, k: Key, v: Ptr)
    ensures |m[k := v]| == |m| + if k in m then 0 else 1
  {
    assert m[k := v].Keys == m.Keys + {k};
  }

  lemma PutTwice(m: map<Key, Ptr>, k: Key, v: Ptr, v': Ptr)
    ensures m[k := v][k := v'] == m[k := v']
  {
  }

  lemma RoomForOne(used: int, capacity: int)
    requires 16 <= capacity && 0 <= used * 100 < 0x8000_0000 && !Crowded(used, capacity)
    ensures used + 1 < capacity && (used + 1) * 100 <= HIGH_WATERMARK * capacity + 100
  {
    Quotient(used * 100, capacity, HIGH_WATERMARK);
  }

  /** Where a key may be put: a free slot on its path, with no empty slot before. */
  ghost predicate Free(s: State, k: Key, d: nat) {
    k !in s.pos && d < |s.entries| && Passed(s.entries, k, d) && !s.entries[Slot(Hash(k), d, |s.entries|)].key.Name?
  }

  lemma NotMeant(bs: seq<Entry>, pos: map<Key, nat>, k: Key)
    ensures k in Meaning(bs, pos) <==> k in pos
  {
  }

  lemma ClaimKeeps(s: GoodState, k: Key, d: nat, e: nat, s': State)
    requires Free(s, k, d) && !Crowded(s.used, |s.entries|) && e == Slot(Hash(k), d, |s.entries|)
    requires s' == State(s.entries[e := Entry(Name(k), s.entries[e].val)], s.bits,
                 s.used + (if s.entries[e].key.NoKey? then 1 else 0), s.pos[k := d], s.content[k := s.entries[e].val])
    ensures Good(s') && Tombs(s') <= Tombs(s)
  {
    hide Table, Meaning, Count, Slot, Pow2;
    var bs := s.entries;
    NotMeant(bs, s.pos, k);
    Inserted(bs, s.pos, k, d, bs[e].val, e, s'.entries);
    CountUpdate(bs, e, s'.entries[e]);
    RoomForOne(s.used, |bs|);
    MapGrows(s.content, k, bs[e].val);
  }

  /** The free entry at probe `d` becomes that of key `k`; its value is what was there. */
  ghost function Claimed(s: GoodState, k: Key, d: nat): (s': GoodState)
    requires Free(s, k, d) && !Crowded(s.used, |s.entries|)
    ensures var e := Slot(Hash(k), d, |s.entries|);
      && s'.entries == s.entries[e := s.entries[e].(key := Name(k))]
      && s'.used == s.used + (if s.entries[e].key.NoKey? then 1 else 0)
      && s'.pos == s.pos[k := d] && s'.bits == s.bits
      && s'.content == s.content[k := s.entries[e].val] && Tombs(s') <= Tombs(s)
  {
    var bs, e := s.entries, Slot(Hash(k), d, |s.entries|);
    var s' := State(bs[e := Entry(Name(k), bs[e].val)], s.bits,
                 s.used + (if bs[e].key.NoKey? then 1 else 0), s.pos[k := d], s.content[k := bs[e].val]);
    ClaimKeeps(s, k, d, e, s');
    s'
  }

  /** The value of a key is replaced. */
  ghost function Valued(s: GoodState, k: Key, val: Ptr): (s': GoodState)
    requires k in s.pos
    ensures var e := Slot(Hash(k), s.pos[k], |s.entries|);
      && s'.entries == s.entries[e := s.entries[e].(val := val)]
      && s'.used == s.used && s'.bits == s.bits && s'.pos == s.pos
      && s'.content == s.content[k := val] && Tombs(s') == Tombs(s)
  {
    ValuedGood(s, k, val);
    var e := Slot(Hash(k), s.pos[k], |s.entries|);
    s.(entries := s.entries[e := s.entries[e].(val := val)], content := s.content[k := val])
  }

  lemma ValuedGood(s: GoodState, k: Key, val: Ptr)
    requires k in s.pos
    ensures var e := Slot(Hash(k), s.pos[k], |s.entries|);
      Good(s.(entries := s.entries[e := s.entries[e].(val := val)], content := s.content[k := val])) &&
      |s.content[k := val]| == |s.content|
  {
    var bs, e := s.entries, Slot(Hash(k), s.pos[k], |s.entries|);
    assert Reached(bs, k, s.pos[k]);
    var bs' := bs[e := Entry(Name(k), val)];
    Overwritten(bs, s.pos, k, val, e, bs');
    CountUpdate(bs, e, bs'[e]);
    MapGrows(s.content, k, val);
  }

  /** The entry of a key becomes a tombstone. */
  ghost function Deleted(s: GoodState, k: Key): (s': GoodState)
    requires k in s.pos
    ensures var e := Slot(Hash(k), s.pos[k], |s.entries|);
      && s'.entries == s.entries[e := s.entries[e].(key := Tombstone)]
      && s'.used == s.used && s'.bits == s.bits
      && s'.content == s.content - {k}
  {
    var bs, e := s.entries, Slot(Hash(k), s.pos[k], |s.entries|);
    assert Reached(bs, k, s.pos[k]);
    var bs' := bs[e := bs[e].(key := Tombstone)];
    Buried(bs, s.pos, k, e, bs');
    CountUpdate(bs, e, bs'[e]);
    State(bs', s.bits, s.used, s.pos - {k}, s.content - {k})
  }

  /** The keys whose entries lie below slot `n`. */
  ghost function Upto(bs: seq<Entry>, pos: map<Key, nat>, n: nat): map<Key, Ptr> {
    map k | k in pos && |bs| > 0 && Slot(Hash(k), pos[k], |bs|) < n :: ValueAt(bs, k, pos[k])
  }

  lemma UptoNext(bs: seq<Entry>, pos: map<Key, nat>, n: nat)
    requires Table(bs, pos) && n < |bs|
    ensures bs[n].key.Name? ==> bs[n].key.key !in Upto(bs, pos, n)
    ensures Upto(bs, pos, n + 1) ==
            if bs[n].key.Name? then Upto(bs, pos, n)[bs[n].key.key := bs[n].val] else Upto(bs, pos, n)
  {
    forall k | k in pos && Slot(Hash(k), pos[k], |bs|) == n
      ensures bs[n].key == Name(k)
    {
      assert Reached(bs, k, pos[k]);
    }
    UptoOne(bs, pos, n);
  }

  lemma UptoOne(bs: seq<Entry>, pos: map<Key, nat>, n: nat)
    requires n < |bs| && forall k :: k in pos && Slot(Hash(k), pos[k], |bs|) == n ==> bs[n].key == Name(k)
    requires bs[n].key.Name? ==> bs[n].key.key in pos && Slot(Hash(bs[n].key.key), pos[bs[n].key.key], |bs|) == n
    ensures Upto(bs, pos, n + 1) ==
            if bs[n].key.Name? then Upto(bs, pos, n)[bs[n].key.key := bs[n].val] else Upto(bs, pos, n)
  {
  }

  lemma UptoEnds(bs: seq<Entry>, pos: map<Key, nat>)
    requires |bs| > 0
    ensures Upto(bs, pos, 0) == map[] && Upto(bs, pos, |bs|) == Meaning(bs, pos)
  {
  }

  lemma {:induction false} SubsetSize(a: set<Key>, b: set<Key>)
    requires a <= b
    ensures |a| <= |b|
  {
    if a != {} {
      var k :| k in a;
      SubsetSize(a - {k}, b - {k});
    }
  }

  /** A table with no tombstones that holds some of the keys uses no more entries than there are keys. */
  lemma NoMoreThanKeys(s: GoodState, bs: seq<Entry>, pos: map<Key, nat>, n: nat)
    requires |bs| > 0 && s.content == Upto(bs, pos, n) && Tombs(s) <= 0
    ensures s.used == |s.content| <= |Meaning(bs, pos)|
  {
    LiveIsCardinality(s.entries, s.pos);
    SubsetSize(Upto(bs, pos, n).Keys, Meaning(bs, pos).Keys);
  }

  /** While no more than `nkeys` entries are used the new table is never crowded. */
  lemma StillRoomy(nkeys: nat, used: nat, cap: nat)
    requires used <= nkeys < MAX_KEYS && nkeys * 100 < LOW_WATERMARK * cap && cap > 0
    ensures !Crowded(used, cap)
  {
    Quotient(used * 100, cap, HIGH_WATERMARK);
  }

  class HashMap {
    var buckets: array?<Entry>
    var capacity: CInt
    var used: CInt
    ghost var state: GoodState

    ghost function Repr(): set<object>
      reads this
    {
      if buckets == null then {} else {buckets}
    }

    ghost predicate Valid()
      reads this, Repr()
    {
      if buckets == null then capacity == 0 && used == 0
      else capacity == buckets.Length && buckets[..] == state.entries && used == state.used
    }

    ghost function Contents(): map<Key, Ptr>
      reads this
    {
      if buckets == null then map[] else state.content
    }

    ghost predicate Roomy()
      reads this, Repr()
    {
      Valid() && buckets != null && !Crowded(used, capacity)
    }

    constructor ()
      ensures Valid() && Contents() == map[] && fresh(Repr())
    {
      buckets, capacity, used := null, 0, 0;
    }

    /** A table allocated with room for 2^b entries. */
    constructor Sized(cap: CInt, ghost b: nat)
      requires 4 <= b <= 24 && cap == Pow2(b)
      ensures Valid() && fresh(buckets) && capacity == cap && used == 0 && state.content == map[]
    {
      buckets := new Entry[cap](_ => Entry(NoKey, 0));
      capacity, used := cap, 0;
      state := NewState(b);
    }

    /** Find the entry of a key. */
    method GetEntry(key: Key) returns (found: bool, e: nat)
      requires Valid()
      ensures found <==> key in Contents()
      ensures found ==> buckets != null && e < buckets.Length && e == Slot(Hash(key), state.pos[key], buckets.Length)
      ensures found ==> Contents()[key] == buckets[e].val
    {
      found, e := false, 0;
      if buckets == null {
        return;
      }
      var hash := FnvHash(key);
      ghost var bs, pos := state.entries, state.pos;
      var i := 0;
      while i < capacity
        invariant 0 <= i <= capacity && Passed(bs, key, i) && !found
      {
        e := Slot(hash, i, capacity);
        if buckets[e].key == Name(key) {
          found := true;
          assert key in pos && Reached(bs, key, pos[key]);
          return;
        }
        if buckets[e].key.NoKey? {
          NotThere(bs, pos, key, i);
          return;
        }
        PassedOne(bs, key, i);
        i := i + 1;
      }
      Stops(bs, state.bits, key);
    }

    method Get(key: Key) returns (val: Ptr)
      requires Valid()
      ensures val == if key in Contents() then Contents()[key] else 0
    {
      var found, e := GetEntry(key);
      val := if found then buckets[e].val else 0;
    }

    method Delete(key: Key)
      requires Valid()
      modifies this`state, Repr()
      ensures Valid() && Contents() == old(Contents()) - {key}
    {
      var found, e := GetEntry(key);
      if found {
        state := Deleted(state, key);
        buckets[e] := buckets[e].(key := Tombstone);
      }
    }

    /** Find the entry of a key, or make one: the first tombstone on its path, or else the first empty entry. */
    method GetOrInsertEntry(key: Key) returns (e: nat)
      requires Valid() && |Contents()| < MAX_KEYS
      modifies this, Repr()
      ensures Valid() && fresh(Repr() - old(Repr()))
      ensures buckets != null && key in state.pos && e < buckets.Length && e == Slot(Hash(key), state.pos[key], buckets.Length)
      ensures Contents() == old(Contents())[key := buckets[e].val]
      ensures old(Roomy()) ==> buckets == old(buckets) && capacity == old(capacity) && Tombs(state) <= old(Tombs(state))
      decreases if Roomy() then 0 else 2, 0
    {
      hide Table;
      if buckets == null {
        buckets := new Entry[INIT_SIZE](_ => Entry(NoKey, 0));
        capacity := INIT_SIZE;
        state := NewState(4);
      } else if Crowded(used, capacity) {
        Rehash();
      }
      e := Insert(key);
    }

    method Insert(key: Key) returns (e: nat)
      requires Roomy()
      modifies this`used, this`state, buckets
      ensures Valid() && key in state.pos && e < buckets.Length && e == Slot(Hash(key), state.pos[key], buckets.Length)
      ensures Contents() == old(Contents())[key := buckets[e].val]
      ensures Tombs(state) <= old(Tombs(state))
    {
      ghost var d;
      e, d := Probe(key);
      if buckets[e].key != Name(key) {
        state := Claimed(state, key, d);
        if buckets[e].key.NoKey? {
          used := used + 1;
        }
        buckets[e] := buckets[e].(key := Name(key));
      }
    }

    /** The entry of a key; if it has none, the first tombstone before an empty entry, or that entry. */
    method Probe(key: Key) returns (e: nat, ghost d: nat)
      requires Valid() && buckets != null
      ensures e < buckets.Length
      ensures buckets[e].key == Name(key) ==>
              key in state.pos && e == Slot(Hash(key), state.pos[key], buckets.Length) && Contents()[key] == buckets[e].val
      ensures buckets[e].key != Name(key) ==> Free(state, key, d) && e == Slot(Hash(key), d, buckets.Length)
    {
      var hash := FnvHash(key);
      ghost var bs, pos := state.entries, state.pos;
      var tombstone := -1;
      d := 0;
      var i := 0;
      while i < capacity
        invariant 0 <= i <= capacity && Passed(bs, key, i)
        invariant tombstone == -1 || (0 <= d < i && tombstone == Slot(Hash(key), d, capacity) && bs[tombstone].key.Tombstone?)
      {
        e := Slot(hash, i, capacity);
        if buckets[e].key == Name(key) {
          assert key in pos && Reached(bs, key, pos[key]);
          return;
        }
        if buckets[e].key.Tombstone? {
          if tombstone == -1 {
            tombstone := e;
            d := i;
          }
        } else if buckets[e].key.NoKey? {
          NotThere(bs, pos, key, i);
          if tombstone != -1 {
            e := tombstone;
          } else {
            d := i;
          }
          return;
        }
        PassedOne(bs, key, i);
        i := i + 1;
      }
      Stops(bs, state.bits, key);
    }

    method Put(key: Key, val: Ptr)
      requires Valid() && |Contents()| < MAX_KEYS
      modifies this, Repr()
      ensures Valid() && fresh(Repr() - old(Repr())) && buckets != null
      ensures Contents() == old(Contents())[key := val]
      ensures old(Roomy()) ==> buckets == old(buckets) && capacity == old(capacity) && Tombs(state) <= old(Tombs(state))
      decreases if Roomy() then 0 else 2, 1
    {
      ghost var was := Contents();
      var e := GetOrInsertEntry(key);
      PutTwice(was, key, buckets[e].val, val);
      SetValue(key, e, val);
    }

    method SetValue(key: Key, e: nat, val: Ptr)
      requires Valid() && buckets != null && key in state.pos && e < buckets.Length && e == Slot(Hash(key), state.pos[key], buckets.Length)
      modifies this`state, buckets
      ensures Valid() && Contents() == old(Contents())[key := val] && Tombs(state) == old(Tombs(state))
    {
      hide Good, Crowded, Table;
      state := Valued(state, key, val);
      buckets[e] := buckets[e].(val := val);
    }

    /** Drop the tombstones, and make room if the table is really full. */
    method Rehash()
      requires Valid() && buckets != null && |Contents()| < MAX_KEYS
      modifies this
      ensures Roomy() && fresh(buckets) && Contents() == old(Contents())
      ensures used == |Contents()| && used * 100 < LOW_WATERMARK * capacity
      decreases 1, 2
    {
      var map2 := Rebuilt();
      buckets, capacity, used, state := map2.buckets, map2.capacity, map2.used, map2.state;
    }

    /** A new table with the same keys. */
    method Rebuilt() returns (map2: HashMap)
      requires Valid() && buckets != null && |Contents()| < MAX_KEYS
      ensures fresh(map2) && fresh(map2.Repr()) && map2.Roomy() && map2.Contents() == Contents()
      ensures map2.used == |Contents()| && map2.used * 100 < LOW_WATERMARK * map2.capacity
      decreases 1, 1
    {
      var nkeys := CountKeys();
      var cap; ghost var b;
      cap, b := NewCapacity(nkeys);
      map2 := new HashMap.Sized(cap, b);
      UptoEnds(state.entries, state.pos);
      CopyTo(map2, buckets, state);
      NoMoreThanKeys(map2.state, state.entries, state.pos, |state.entries|);
      StillRoomy(nkeys, map2.used, cap);
    }

    /** `map2` has no tombstones, room for all keys of `s`, and those whose entries lie below slot `n`. */
    static ghost predicate Copying(map2: HashMap, s: GoodState, n: nat)
      reads map2, map2.Repr()
    {
      && map2.Valid() && map2.buckets != null && Tombs(map2.state) <= 0
      && map2.state.content == Upto(s.entries, s.pos, n)
      && |s.content| < MAX_KEYS && |s.content| * 100 < LOW_WATERMARK * map2.capacity
    }

    static method CopyTo(map2: HashMap, src: array<Entry>, ghost s: GoodState)
      requires Copying(map2, s, 0) && map2.buckets != src && src[..] == s.entries
      modifies map2, map2.buckets
      ensures Copying(map2, s, |s.entries|) && map2.buckets == old(map2.buckets)
      decreases 1, 0
    {
      hide Good, Upto, Crowded;
      for i := 0 to src.Length
        invariant Copying(map2, s, i) && map2.buckets == old(map2.buckets)
      {
        CopyOne(map2, src[i], s, i);
      }
    }

    static method CopyOne(map2: HashMap, ent: Entry, ghost s: GoodState, ghost i: nat)
      requires i < |s.entries| && ent == s.entries[i] && Copying(map2, s, i)
      modifies map2, map2.buckets
      ensures Copying(map2, s, i + 1) && map2.buckets == old(map2.buckets)
      decreases 0, 2
    {
      hide Table, Upto;
      UptoNext(s.entries, s.pos, i);
      if ent.key.Name? {
        NoMoreThanKeys(map2.state, s.entries, s.pos, i);
        StillRoomy(|s.content|, map2.used, map2.capacity);
        map2.Put(ent.key.key, ent.val);
      }
    }

    method CountKeys() returns (nkeys: CInt)
      requires Valid() && buckets != null
      ensures nkeys == |Contents()|
    {
      ghost var bs := buckets[..];
      nkeys := 0;
      for i := 0 to capacity
        invariant nkeys == LiveCount(bs[..i])
      {
        CountSnoc(bs, i);
        if buckets[i].key.Name? {
          nkeys := nkeys + 1;
        }
      }
      assert bs[..capacity] == bs;
      LiveIsCardinality(bs, state.pos);
    }

    /** The capacity after a rehash: doubled until less than half of it is needed. */
    method NewCapacity(nkeys: CInt) returns (cap: CInt, ghost b: nat)
      requires Valid() && buckets != null && 0 <= nkeys < MAX_KEYS
      ensures capacity <= cap == Pow2(b) && 4 <= b <= 24 && nkeys * 100 < LOW_WATERMARK * cap
    {
      cap, b := capacity, state.bits;
      while nkeys * 100 / cap >= LOW_WATERMARK
        invariant capacity <= cap == Pow2(b) && state.bits <= b <= 24
        decreases 24 - b
      {
        CapacityFits(nkeys, cap, b);
        cap := cap * 2;
        b := b + 1;
      }
      CapacityFits(nkeys, cap, b);
    }
  }
}
