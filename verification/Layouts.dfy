/** Structures with bit-fields: struct_decl, and the static image of write_gvar_data (parse.c). */
module Layouts {
  import opened Arith
  import opened Bits
  import opened Fields

  /** A member; `offset` is in bytes, `bitOffset` counts from the least significant bit of the 16-bit unit there. */
  datatype Member = Member(isBitfield: bool, width: nat, size: nat, align: nat, offset: int, bitOffset: int)

  /** Zero-width bit-fields only end the unit before them. */
  predicate Counts(m: Member) { !(m.isBitfield && m.width == 0) }

  predicate Inside(m: Member, size: int) {
    if m.isBitfield then 0 <= m.offset && m.offset + 2 <= size && 0 <= m.bitOffset && m.bitOffset + m.width <= 16
    else 0 <= m.offset && m.offset + m.size <= size && (m.align > 1 ==> m.offset % m.align == 0)
  }

  /** The bytes of `m` end before those of `n` begin, or they are fields of one unit and the bits of `m` come first. */
  predicate Before(m: Member, n: Member) {
    m.offset + (if m.isBitfield then 2 else m.size) <= n.offset ||
    (m.isBitfield && n.isBitfield && m.offset == n.offset && m.bitOffset + m.width <= n.bitOffset)
  }

  predicate LaidOut(ms: seq<Member>, size: int) {
    && (forall i :: 0 <= i < |ms| && Counts(ms[i]) ==> Inside(ms[i], size))
    && (forall i, j :: 0 <= i < j < |ms| && Counts(ms[i]) && Counts(ms[j]) ==> Before(ms[i], ms[j]))
  }

  // ----- packing -----

  /** What the members so far take up: where they end, and how many bits are used of the unit that ends there (16 if none is open). */
  datatype Taken = Taken(end: int, used: int)

  /** A field leaves its unit open, bytes and a zero-width field leave none open. */
  function TakenBy(ms: seq<Member>): Taken
    decreases |ms|
  {
    if ms == [] then Taken(0, 16)
    else
      var m, before := ms[|ms| - 1], TakenBy(ms[..|ms| - 1]);
      if !Counts(m) then Taken(before.end, 16)
      else if m.isBitfield then Taken(m.offset + 2, m.bitOffset + m.width)
      else Taken(m.offset + m.size, 16)
  }

  /**
   A field has the next bits of the open unit if they are enough, and begins a unit otherwise; bytes have the least
   aligned offset behind what is there.
   */
  predicate LiesAt(m: Member, p: Taken) {
    if m.isBitfield then
      if p.used + m.width <= 16 then m.offset == p.end - 2 && m.bitOffset == p.used else m.offset == p.end && m.bitOffset == 0
    else if m.align > 1 then p.end <= m.offset < p.end + m.align && m.offset % m.align == 0
    else m.offset == p.end
  }

  predicate Packed(ms: seq<Member>) { forall i :: 0 <= i < |ms| && Counts(ms[i]) ==> LiesAt(ms[i], TakenBy(ms[..i])) }

  /** Of two fields in a row the second has the next bit of the same unit if there is room, else the first of the next unit. */
  lemma FieldsInARow(ms: seq<Member>, i: nat)
    requires i + 1 < |ms| && Packed(ms) && ms[i].isBitfield && ms[i + 1].isBitfield && ms[i].width > 0 && ms[i + 1].width > 0
    ensures ms[i].bitOffset + ms[i].width + ms[i + 1].width <= 16 ==>
            ms[i + 1].offset == ms[i].offset && ms[i + 1].bitOffset == ms[i].bitOffset + ms[i].width
    ensures ms[i].bitOffset + ms[i].width + ms[i + 1].width > 16 ==> ms[i + 1].offset == ms[i].offset + 2 && ms[i + 1].bitOffset == 0
  {
    hide TakenBy;
    assert LiesAt(ms[i + 1], TakenBy(ms[..i + 1]));
    TakenNext(ms, i);
  }

  /** A zero-width field between them separates them. */
  lemma FieldsSeparated(ms: seq<Member>, i: nat)
    requires i + 2 < |ms| && Packed(ms) && ms[i].isBitfield && ms[i].width > 0 && !Counts(ms[i + 1])
    requires ms[i + 2].isBitfield && ms[i + 2].width > 0
    ensures ms[i + 2].offset == ms[i].offset + 2 && ms[i + 2].bitOffset == 0
  {
    hide TakenBy;
    assert LiesAt(ms[i + 2], TakenBy(ms[..i + 2]));
    TakenNext(ms, i);
    TakenNext(ms, i + 1);
  }

  lemma TakenNext(ms: seq<Member>, k: nat)
    requires k < |ms|
    ensures TakenBy(ms[..k + 1]) ==
            if !Counts(ms[k]) then Taken(TakenBy(ms[..k]).end, 16)
            else if ms[k].isBitfield then Taken(ms[k].offset + 2, ms[k].bitOffset + ms[k].width)
            else Taken(ms[k].offset + ms[k].size, 16)
  {
    assert ms[..k + 1][..k] == ms[..k];
  }

  /** Where a member ends: a field with its unit. */
  function EndOf(m: Member): int { m.offset + if m.isBitfield then 2 else m.size }

  /** The first member begins the structure. */
  lemma FirstMember(ms: seq<Member>)
    requires |ms| > 0 && Packed(ms) && Counts(ms[0])
    ensures ms[0].offset == 0 && (ms[0].isBitfield ==> ms[0].bitOffset == 0)
  {
    assert LiesAt(ms[0], TakenBy(ms[..0]));
    if !ms[0].isBitfield && ms[0].align > 1 {
      DivModUnique(ms[0].offset, 0, ms[0].offset, ms[0].align);
    }
  }

  /** Next to bytes, a field begins a unit and bytes are as near as their alignment lets them. */
  lemma BesideBytes(ms: seq<Member>, i: nat)
    requires i + 1 < |ms| && Packed(ms) && Counts(ms[i]) && Counts(ms[i + 1])
    ensures !ms[i].isBitfield && ms[i + 1].isBitfield ==> ms[i + 1].offset == EndOf(ms[i]) && ms[i + 1].bitOffset == 0
    ensures !ms[i + 1].isBitfield && ms[i + 1].align <= 1 ==> ms[i + 1].offset == EndOf(ms[i])
    ensures !ms[i + 1].isBitfield && ms[i + 1].align > 1 ==>
            EndOf(ms[i]) <= ms[i + 1].offset < EndOf(ms[i]) + ms[i + 1].align && ms[i + 1].offset % ms[i + 1].align == 0
  {
    hide TakenBy;
    assert LiesAt(ms[i + 1], TakenBy(ms[..i + 1]));
    TakenNext(ms, i);
  }

  /** The structure ends with its last member. */
  lemma SizeIsEnd(ms: seq<Member>, i: nat)
    requires i < |ms| && Counts(ms[i]) && forall j :: i < j < |ms| ==> !Counts(ms[j])
    ensures TakenBy(ms).end == EndOf(ms[i])
    decreases |ms|
  {
    assert ms[..|ms|] == ms;
    TakenNext(ms, |ms| - 1);
    if i < |ms| - 1 {
      SizeIsEnd(ms[..|ms| - 1], i);
    }
  }

  /** The counters of the loop say the same. */
  predicate Counted(p: Taken, bits: int, remain: int) { 8 * p.end == bits + remain && p.used == 16 - remain }

  /** All that the layout leaves alone. */
  predicate SameButPlace(m: Member, n: Member) { n == m.(offset := n.offset, bitOffset := n.bitOffset) }

  // ----- the loop of struct_decl -----

  /** A member already placed ends before the current unit, or is a field below the bits that remain of it. */
  predicate Placed(m: Member, bits: int, remain: int) {
    && Inside(m, (bits + remain) / 8)
    && (8 * (m.offset + (if m.isBitfield then 2 else m.size)) <= bits + remain - (if remain > 0 then 16 else 0) ||
        (remain > 0 && m.isBitfield && 8 * m.offset == bits + remain - 16 && m.bitOffset + m.width <= 16 - remain))
  }

  /** Ending the current unit. */
  lemma PlacedWhole(m: Member, bits: int, remain: int)
    requires Placed(m, bits, remain) && 0 <= remain && (bits + remain) % 8 == 0
    ensures Placed(m, bits + remain, 0)
  {
  }

  lemma PlacedMore(m: Member, bits: int, bits2: int)
    requires Placed(m, bits, 0) && bits <= bits2
    ensures Placed(m, bits2, 0) && Placed(m, bits2, 16)
  {
  }

  lemma PlacedField(m: Member, n: Member, bits: int, remain: int)
    requires Placed(m, bits, remain) && 0 < n.width <= remain <= 16 && (bits + remain) % 8 == 0
    requires n.isBitfield && 8 * n.offset == bits + remain - 16 && n.bitOffset == 16 - remain
    ensures Placed(m, bits + n.width, remain - n.width) && Before(m, n)
  {
  }

  lemma NewField(m: Member, bits: int, remain: int)
    requires m.isBitfield && 0 < m.width <= remain <= 16 && 16 <= bits + remain && (bits + remain) % 8 == 0
    requires 8 * m.offset == bits + remain - 16 && m.bitOffset == 16 - remain
    ensures Placed(m, bits + m.width, remain - m.width)
  {
  }

  lemma NewBytes(m: Member, bits: int)
    requires !m.isBitfield && 0 <= bits && 8 * m.offset == bits && (m.align > 1 ==> m.offset % m.align == 0)
    ensures Placed(m, bits + m.size * 8, 0)
  {
    DivModUnique(bits + m.size * 8, m.offset + m.size, 0, 8);
  }

  lemma EndsBefore(m: Member, n: Member, bits: int)
    requires Placed(m, bits, 0) && 8 * n.offset == bits
    ensures Before(m, n)
  {
  }

  lemma PlacedInside(m: Member, bits: int, remain: int, size: int)
    requires Placed(m, bits, remain) && (bits + remain) % 8 == 0 && size == (bits + remain + 7) / 8
    ensures Inside(m, size)
  {
  }

  function RoundUp(offset: int, align: nat): int
    requires align > 0
  {
    ((offset + align - 1) / align) * align
  }

  /** Rounding the position up to an alignment. */
  lemma Aligned(bits: int, align: nat)
    requires align > 1 && bits >= 0 && bits % 8 == 0
    ensures bits <= RoundUp(bits / 8, align) * 8 && RoundUp(bits / 8, align) % align == 0 && RoundUp(bits / 8, align) < bits / 8 + align
  {
    var b := bits / 8 + align - 1;
    var q := b / align;
    assert b == q * align + b % align;
    DivModUnique(q * align, q, 0, align);
  }

  lemma BytesLie(m: Member, p: Taken)
    requires !m.isBitfield
    requires if m.align > 1 then p.end <= m.offset < p.end + m.align && m.offset % m.align == 0 else m.offset == p.end
    ensures LiesAt(m, p)
  {
  }

  /** The first `k` members are placed, each before the next ones. */
  predicate AllPlaced(ms: seq<Member>, k: nat, bits: int, remain: int)
    requires k <= |ms|
  {
    && (forall i :: 0 <= i < k && Counts(ms[i]) ==> Placed(ms[i], bits, remain))
    && (forall i, j :: 0 <= i < j < k && Counts(ms[i]) && Counts(ms[j]) ==> Before(ms[i], ms[j]))
  }

  lemma AllWhole(ms: seq<Member>, k: nat, bits: int, remain: int)
    requires k <= |ms| && AllPlaced(ms, k, bits, remain) && 0 <= remain && (bits + remain) % 8 == 0
    ensures AllPlaced(ms, k, bits + remain, 0)
  {
    hide Placed, Before;
    forall i | 0 <= i < k && Counts(ms[i])
      ensures Placed(ms[i], bits + remain, 0)
    {
      PlacedWhole(ms[i], bits, remain);
    }
  }

  lemma AllMore(ms: seq<Member>, k: nat, bits: int, bits2: int)
    requires k <= |ms| && AllPlaced(ms, k, bits, 0) && bits <= bits2
    ensures AllPlaced(ms, k, bits2, 0) && AllPlaced(ms, k, bits2, 16)
  {
    hide Placed, Before;
    forall i | 0 <= i < k && Counts(ms[i])
      ensures Placed(ms[i], bits2, 0) && Placed(ms[i], bits2, 16)
    {
      PlacedMore(ms[i], bits, bits2);
    }
  }

  lemma AddNothing(ms: seq<Member>, k: nat, bits: int, remain: int)
    requires k < |ms| && AllPlaced(ms, k, bits, remain) && !Counts(ms[k])
    ensures AllPlaced(ms, k + 1, bits, remain)
  {
    hide Placed, Before;
  }

  lemma AddField(ms: seq<Member>, k: nat, m: Member, bits: int, remain: int)
    requires k < |ms| && AllPlaced(ms, k, bits, remain)
    requires m.isBitfield && 0 < m.width <= remain <= 16 && 16 <= bits + remain && (bits + remain) % 8 == 0
    requires 8 * m.offset == bits + remain - 16 && m.bitOffset == 16 - remain
    ensures AllPlaced(ms[k := m], k + 1, bits + m.width, remain - m.width)
  {
    hide Placed, Before;
    var ms' := ms[k := m];
    NewField(m, bits, remain);
    forall i | 0 <= i < k && Counts(ms'[i])
      ensures Placed(ms'[i], bits + m.width, remain - m.width) && Before(ms'[i], m)
    {
      PlacedField(ms[i], m, bits, remain);
    }
  }

  lemma AddBytes(ms: seq<Member>, k: nat, m: Member, bits: int)
    requires k < |ms| && AllPlaced(ms, k, bits, 0)
    requires !m.isBitfield && 0 <= bits && 8 * m.offset == bits && (m.align > 1 ==> m.offset % m.align == 0)
    ensures AllPlaced(ms[k := m], k + 1, bits + m.size * 8, 0)
  {
    hide Placed, Before;
    var ms' := ms[k := m];
    NewBytes(m, bits);
    forall i | 0 <= i < k && Counts(ms'[i])
      ensures Placed(ms'[i], bits + m.size * 8, 0) && Before(ms'[i], m)
    {
      PlacedMore(ms[i], bits, bits + m.size * 8);
      EndsBefore(ms[i], m, bits);
    }
  }

  lemma AllInside(ms: seq<Member>, bits: int, remain: int, size: int)
    requires AllPlaced(ms, |ms|, bits, remain) && (bits + remain) % 8 == 0 && size == (bits + remain + 7) / 8
    ensures LaidOut(ms, size)
  {
    hide Placed, Before, Inside;
    forall i | 0 <= i < |ms| && Counts(ms[i])
      ensures Inside(ms[i], size)
    {
      PlacedInside(ms[i], bits, remain, size);
    }
  }

  /** Of the first `k` members at most the places have changed, of the others nothing. */
  predicate Kept(was: seq<Member>, ms: seq<Member>, k: nat) {
    && |ms| == |was| && k <= |ms|
    && (forall i :: 0 <= i < k ==> SameButPlace(was[i], ms[i]))
    && (forall i :: k <= i < |ms| ==> ms[i] == was[i])
  }

  lemma KeptNext(was: seq<Member>, ms: seq<Member>, k: nat, m: Member)
    requires k < |ms| && Kept(was, ms, k) && SameButPlace(ms[k], m)
    ensures Kept(was, ms[k := m], k + 1)
  {
  }

  /** Bits used, and bits left of the current unit. */
  predicate Position(bits: int, remain: int) {
    0 <= bits && 0 <= remain <= 16 && (bits + remain) % 8 == 0 && (remain > 0 ==> bits + remain >= 16)
  }

  method PlaceField(ms: array<Member>, k: nat, bits0: int, remain0: int) returns (bits: int, remain: int)
    requires k < ms.Length && ms[k].isBitfield && 0 < ms[k].width <= 16
    requires Position(bits0, remain0) && AllPlaced(ms[..], k, bits0, remain0)
    requires Counted(TakenBy(ms[..k]), bits0, remain0)
    modifies ms
    ensures ms[..] == old(ms[..])[k := ms[k]] && SameButPlace(old(ms[k]), ms[k])
    ensures LiesAt(ms[k], TakenBy(ms[..k])) && Counted(TakenBy(ms[..k + 1]), bits, remain)
    ensures Position(bits, remain) && AllPlaced(ms[..], k + 1, bits, remain)
  {
    hide AllPlaced, TakenBy;
    bits, remain := bits0, remain0;
    if remain < ms[k].width {
      AllWhole(ms[..], k, bits, remain);
      bits := bits + remain;
      remain := 16;
      AllMore(ms[..], k, bits, bits);
    }
    var wordStart := bits - (16 - remain);
    ghost var s0 := ms[..];
    ms[k] := ms[k].(offset := wordStart / 8, bitOffset := 16 - remain);
    AddField(s0, k, ms[k], bits, remain);
    assert ms[..] == s0[k := ms[k]];
    assert ms[..k] == s0[..k] && ms[..][..k] == ms[..k] && ms[..][..k + 1] == ms[..k + 1];
    TakenNext(ms[..], k);
    bits := bits + ms[k].width;
    remain := remain - ms[k].width;
  }

  /** Where the next bytes go: the unit is closed and the position rounded up. */
  method ByteStart(bits0: int, remain: int, align: nat) returns (bits: int)
    requires Position(bits0, remain)
    ensures bits0 + remain <= bits && bits % 8 == 0
    ensures if align > 1 then bits < bits0 + remain + 8 * align && (bits / 8) % align == 0 else bits == bits0 + remain
  {
    hide RoundUp;
    bits := bits0;
    if remain != 0 {
      bits := bits + remain;
    }
    if align > 1 && (bits / 8) % align != 0 {
      Aligned(bits, align);
      bits := RoundUp(bits / 8, align) * 8;
    }
  }

  method PlaceBytes(ms: array<Member>, k: nat, bits0: int, remain0: int) returns (bits: int, remain: int)
    requires k < ms.Length && !ms[k].isBitfield
    requires Position(bits0, remain0) && AllPlaced(ms[..], k, bits0, remain0)
    requires Counted(TakenBy(ms[..k]), bits0, remain0)
    modifies ms
    ensures ms[..] == old(ms[..])[k := ms[k]] && SameButPlace(old(ms[k]), ms[k])
    ensures LiesAt(ms[k], TakenBy(ms[..k])) && Counted(TakenBy(ms[..k + 1]), bits, remain)
    ensures Position(bits, remain) && AllPlaced(ms[..], k + 1, bits, remain)
  {
    hide AllPlaced, TakenBy, LiesAt;
    bits := ByteStart(bits0, remain0, ms[k].align);
    remain := 0;
    AllWhole(ms[..], k, bits0, remain0);
    AllMore(ms[..], k, bits0 + remain0, bits);
    ghost var s0 := ms[..];
    ms[k] := ms[k].(offset := bits / 8, bitOffset := -1);
    BytesLie(ms[k], TakenBy(s0[..k]));
    AddBytes(s0, k, ms[k], bits);
    assert ms[..] == s0[k := ms[k]];
    assert ms[..k] == s0[..k] && ms[..][..k] == ms[..k] && ms[..][..k + 1] == ms[..k + 1];
    TakenNext(ms[..], k);
    bits := bits + ms[k].size * 8;
  }

  /** The layout loop: only places are set, and the structure is laid out. */
  method StructDecl(ms: array<Member>) returns (size: nat)
    requires forall i :: 0 <= i < ms.Length ==> ms[i].width <= 16
    modifies ms
    ensures Kept(old(ms[..]), ms[..], ms.Length)
    ensures LaidOut(ms[..], size)
    ensures Packed(ms[..]) && size == TakenBy(ms[..]).end
  {
    hide AllPlaced, LaidOut, SameButPlace, TakenBy, LiesAt;
    NothingTaken();
    ghost var was := ms[..];
    var bits: int := 0;
    var remain: int := 0;
    AllPlacedNone(ms[..]);
    for k := 0 to ms.Length
      invariant Position(bits, remain)
      invariant Kept(was, ms[..], k)
      invariant AllPlaced(ms[..], k, bits, remain)
      invariant Counted(TakenBy(ms[..k]), bits, remain) && Packed(ms[..k])
    {
      ghost var s0 := ms[..];
      ghost var before := ms[..k];
      assert s0[k] == was[k];
      if ms[k].isBitfield && ms[k].width == 0 {
        AllWhole(ms[..], k, bits, remain);
        if remain != 0 {
          bits := bits + remain;
          remain := 0;
        }
        AddNothing(ms[..], k, bits, remain);
        SamePlace(ms[k]);
      } else if ms[k].isBitfield {
        bits, remain := PlaceField(ms, k, bits, remain);
      } else {
        bits, remain := PlaceBytes(ms, k, bits, remain);
      }
      KeptNext(was, s0, k, ms[k]);
      assert ms[..] == s0[k := ms[k]];
      assert ms[..k] == before && ms[..][..k] == before && ms[..][..k + 1] == ms[..k + 1];
      TakenNext(ms[..], k);
      PackedNext(before, ms[k]);
      assert ms[..k + 1] == before + [ms[k]];
    }
    assert ms[..ms.Length] == ms[..];
    ghost var b0 := bits;
    if remain != 0 {
      bits := bits + remain;
    }
    size := (bits + 7) / 8;
    AllInside(ms[..], b0, remain, size);
  }

  lemma NothingTaken()
    ensures TakenBy([]) == Taken(0, 16)
  {
  }

  lemma PackedNext(ms: seq<Member>, m: Member)
    requires Packed(ms) && (Counts(m) ==> LiesAt(m, TakenBy(ms)))
    ensures Packed(ms + [m])
  {
    hide LiesAt, TakenBy;
    var all := ms + [m];
    forall i | 0 <= i < |all| && Counts(all[i])
      ensures LiesAt(all[i], TakenBy(all[..i]))
    {
      if i < |ms| {
        assert all[..i] == ms[..i];
      } else {
        assert all[..i] == ms;
      }
    }
  }

  lemma SamePlace(m: Member)
    ensures SameButPlace(m, m)
  {
  }

  lemma AllPlacedNone(ms: seq<Member>)
    ensures AllPlaced(ms, 0, 0, 0)
  {
  }

  // ----- storing and loading -----

  type Buffer = seq<Byte>

  function Unit(buf: Buffer, at: nat): (u: int)
    requires at + 2 <= |buf|
    ensures 0 <= u < 65536
  {
    var hi: int := buf[at];
    256 * hi + buf[at + 1]
  }

  function PutUnit(buf: Buffer, at: nat, u: int): Buffer
    requires at + 2 <= |buf| && 0 <= u < 65536
  {
    buf[at := u / 256][at + 1 := u % 256]
  }

  /** The number in `n` bytes, most significant first. */
  function Number(buf: Buffer, at: nat, n: nat): nat
    requires at + n <= |buf|
  {
    if n == 0 then 0 else 256 * Number(buf, at, n - 1) + buf[at + n - 1]
  }

  function PutNumber(buf: Buffer, at: nat, n: nat, v: int): (r: Buffer)
    requires at + n <= |buf|
    ensures |r| == |buf| && forall i :: 0 <= i < |buf| && !(at <= i < at + n) ==> r[i] == buf[i]
    decreases n
  {
    if n == 0 then buf else PutNumber(buf[at + n - 1 := v % 256], at, n - 1, v / 256)
  }

  /** What a member holds: its field, or the number in its bytes. */
  function Held(buf: Buffer, m: Member): int
    requires Inside(m, |buf|)
  {
    if m.isBitfield then Field(Unit(buf, m.offset), m.bitOffset, m.width) else Number(buf, m.offset, m.size)
  }

  /** Assigning to a member. */
  function Stored(buf: Buffer, m: Member, v: int): (r: Buffer)
    requires Inside(m, |buf|)
    ensures |r| == |buf|
  {
    if m.isBitfield then
      PutFits(buf, m, v);
      PutUnit(buf, m.offset, Put(Unit(buf, m.offset), m.bitOffset, m.width, v))
    else PutNumber(buf, m.offset, m.size, v)
  }

  lemma PutFits(buf: Buffer, m: Member, v: int)
    requires Inside(m, |buf|) && m.isBitfield
    ensures 0 <= Put(Unit(buf, m.offset), m.bitOffset, m.width, v) < 65536
  {
    Pow2Values();
    PutBound(Unit(buf, m.offset), m.bitOffset, m.width, v, 16);
  }

  lemma {:induction false} NumberSame(a: Buffer, b: Buffer, at: nat, n: nat)
    requires at + n <= |a| && at + n <= |b| && forall i :: at <= i < at + n ==> a[i] == b[i]
    ensures Number(a, at, n) == Number(b, at, n)
  {
    if n > 0 {
      NumberSame(a, b, at, n - 1);
    }
  }

  lemma {:induction false} PutThenNumber(buf: Buffer, at: nat, n: nat, v: int)
    requires at + n <= |buf|
    ensures Number(PutNumber(buf, at, n, v), at, n) == v % Pow256(n)
    decreases n
  {
    if n > 0 {
      var b1 := buf[at + n - 1 := v % 256];
      PutThenNumber(b1, at, n - 1, v / 256);
      assert PutNumber(buf, at, n, v)[at + n - 1] == v % 256;
      LastDigit(v, Pow256(n - 1));
    } else {
      assert v % 1 == 0;
    }
  }

  lemma LastDigit(v: int, p: nat)
    requires p > 0
    ensures 256 * ((v / 256) % p) + v % 256 == v % (256 * p)
  {
    var h := v / 256;
    var q, r := h / p, h % p;
    assert h == q * p + r;
    assert q * (256 * p) == 256 * (q * p);
    DivModUnique(v, q, 256 * r + v % 256, 256 * p);
  }

  lemma UnitOfPut(buf: Buffer, at: nat, u: int)
    requires at + 2 <= |buf| && 0 <= u < 65536
    ensures Unit(PutUnit(buf, at, u), at) == u
  {
    HalfWord(u);
  }

  /** The value that comes back: cut to the width, or to the bytes. */
  function Cutoff(m: Member, v: int): int { if m.isBitfield then Field(v, 0, m.width) else v % Pow256(m.size) }

  /** What is assigned is read back. */
  lemma StoredHeld(buf: Buffer, m: Member, v: int)
    requires Inside(m, |buf|)
    ensures Held(Stored(buf, m, v), m) == Cutoff(m, v)
  {
    if m.isBitfield {
      PutFits(buf, m, v);
      UnitOfPut(buf, m.offset, Put(Unit(buf, m.offset), m.bitOffset, m.width, v));
      PutThenField(Unit(buf, m.offset), m.bitOffset, m.width, v);
    } else {
      PutThenNumber(buf, m.offset, m.size, v);
    }
  }

  /** And no other member is disturbed. */
  lemma StoredElsewhere(buf: Buffer, m: Member, v: int, n: Member)
    requires Inside(m, |buf|) && Inside(n, |buf|) && (Before(m, n) || Before(n, m))
    ensures Held(Stored(buf, m, v), n) == Held(buf, n)
  {
    if m.isBitfield {
      PutFits(buf, m, v);
      if n.isBitfield && n.offset == m.offset {
        UnitOfPut(buf, m.offset, Put(Unit(buf, m.offset), m.bitOffset, m.width, v));
        PutElsewhere(Unit(buf, m.offset), m.bitOffset, m.width, v, n.bitOffset, n.width);
      } else if !n.isBitfield {
        NumberSame(Stored(buf, m, v), buf, n.offset, n.size);
      }
    } else if !n.isBitfield {
      NumberSame(Stored(buf, m, v), buf, n.offset, n.size);
    }
  }

  // ----- the static image -----

  datatype Init = Value(v: int) | Absent

  /** Assigning the initializers one after the other. */
  function Assigned(ms: seq<Member>, inits: seq<Init>, k: nat, buf: Buffer): (r: Buffer)
    requires k <= |ms| == |inits| && forall i :: 0 <= i < |ms| && Counts(ms[i]) ==> Inside(ms[i], |buf|)
    ensures |r| == |buf|
  {
    if k == 0 then buf
    else
      var b := Assigned(ms, inits, k - 1, buf);
      if inits[k - 1].Value? && Counts(ms[k - 1]) then Stored(b, ms[k - 1], inits[k - 1].v) else b
  }

  /** In a laid-out structure every member then holds its own initializer, the others what they held. */
  lemma {:induction false} AssignedHeld(ms: seq<Member>, inits: seq<Init>, k: nat, buf: Buffer, i: nat)
    requires k <= |ms| == |inits| && LaidOut(ms, |buf|) && i < |ms| && Counts(ms[i])
    ensures Held(Assigned(ms, inits, k, buf), ms[i]) ==
            if i < k && inits[i].Value? then Cutoff(ms[i], inits[i].v) else Held(buf, ms[i])
    decreases k
  {
    hide Held, Cutoff, Stored, Inside, Before;
    if k > 0 {
      AssignedHeld(ms, inits, k - 1, buf, i);
      var b := Assigned(ms, inits, k - 1, buf);
      if inits[k - 1].Value? && Counts(ms[k - 1]) {
        if i == k - 1 {
          StoredHeld(b, ms[i], inits[i].v);
        } else {
          assert Before(ms[i], ms[k - 1]) || Before(ms[k - 1], ms[i]);
          StoredElsewhere(b, ms[k - 1], inits[k - 1].v, ms[i]);
        }
      }
    }
  }

  method ReadBuf(buf: array<Byte>, at: nat, sz: nat) returns (val: nat)
    requires at + sz <= buf.Length
    ensures val == Number(buf[..], at, sz)
  {
    val := 0;
    for i := 0 to sz
      invariant val == Number(buf[..], at, i)
    {
      val := 256 * val + buf[at + i];
    }
  }

  method WriteBuf(buf: array<Byte>, at: nat, v: int, sz: nat)
    requires at + sz <= buf.Length
    modifies buf
    ensures buf[..] == PutNumber(old(buf[..]), at, sz, v)
  {
    var val := v;
    var i := sz;
    while i > 0
      invariant 0 <= i <= sz
      invariant PutNumber(buf[..], at, i, val) == PutNumber(old(buf[..]), at, sz, v)
    {
      ghost var s := buf[..];
      buf[at + i - 1] := val % 256;
      assert buf[..] == s[at + i - 1 := val % 256];
      val := val / 256;
      i := i - 1;
    }
  }

  lemma UnitIsNumber(buf: Buffer, at: nat, u: int)
    requires at + 2 <= |buf| && 0 <= u < 65536
    ensures Unit(buf, at) == Number(buf, at, 2)
    ensures PutNumber(buf, at, 2, u) == PutUnit(buf, at, u)
  {
    assert Number(buf, at, 1) == buf[at];
    var b1 := buf[at + 1 := u % 256];
    assert PutNumber(buf, at, 2, u) == PutNumber(b1, at, 1, u / 256);
    assert PutNumber(b1, at, 1, u / 256) == PutNumber(b1[at := (u / 256) % 256], at, 0, u / 256 / 256);
    assert (u / 256) % 256 == u / 256;
  }

  predicate Blank(buf: Buffer) { forall i :: 0 <= i < |buf| ==> buf[i] == 0 }

  lemma {:induction false} BlankNumber(buf: Buffer, at: nat, n: nat)
    requires at + n <= |buf| && Blank(buf)
    ensures Number(buf, at, n) == 0
  {
    if n > 0 {
      BlankNumber(buf, at, n - 1);
    }
  }

  lemma {:induction false} BlankField(off: nat, w: nat)
    ensures Field(0, off, w) == 0
    decreases off + w
  {
    if off > 0 {
      BlankField(off - 1, w);
    } else if w > 0 {
      BlankField(0, w - 1);
    }
  }

  lemma BlankHeld(buf: Buffer, m: Member)
    requires Inside(m, |buf|) && Blank(buf)
    ensures Held(buf, m) == 0
  {
    if m.isBitfield {
      BlankField(m.bitOffset, m.width);
    } else {
      BlankNumber(buf, m.offset, m.size);
    }
  }

  /** One bit-field of the image is an assignment, as its digits are still 0. */
  lemma OrStores(buf: Buffer, m: Member, v: int)
    requires Inside(m, |buf|) && m.isBitfield && Held(buf, m) == 0
    ensures var at: nat := m.offset;
      var digits := Bitwise(BitAnd, v, Pow2(m.width) - 1, 64);
      PutNumber(buf, at, 2, Bitwise(BitOr, Number(buf, at, 2), digits * Pow2(m.bitOffset), 64)) == Stored(buf, m, v)
  {
    hide Bitwise, Field, Put, Pow2;
    var at: nat, u := m.offset, Unit(buf, m.offset);
    UnitIsNumber(buf, at, u);
    MaskWhole(m.width);
    AndField(v, m.width, 64);
    Pow2Values();
    OrPuts(u, m.bitOffset, m.width, v, Field(v, 0, m.width) * Pow2(m.bitOffset), 64);
    PutFits(buf, m, v);
    UnitIsNumber(buf, at, Put(u, m.bitOffset, m.width, v));
  }

  lemma MaskWhole(w: nat)
    ensures Mask(0, w) == Pow2(w) - 1
  {
    MaskIs(0, w);
    assert Pow2(0) == 1;
  }

  /** write_gvar_data on a blank buffer: the image is what assigning the initializers at run time would leave. */
  method WriteGvarData(ms: seq<Member>, inits: seq<Init>, buf: array<Byte>)
    requires |ms| == |inits| && LaidOut(ms, buf.Length) && Blank(buf[..])
    modifies buf
    ensures buf[..] == Assigned(ms, inits, |ms|, old(buf[..]))
  {
    hide Assigned, Held, Stored, PutNumber, Number, Bitwise, Pow2, Inside, Before;
    ghost var blank := buf[..];
    AssignedNone(ms, inits, blank);
    for k := 0 to |ms|
      invariant buf[..] == Assigned(ms, inits, k, blank)
    {
      AssignedNext(ms, inits, k, blank);
      if inits[k].Value? && Counts(ms[k]) {
        var m, v := ms[k], inits[k].v;
        InsideAt(m, buf.Length);
        var at: nat := m.offset;
        AssignedHeld(ms, inits, k, blank, k);
        BlankHeld(blank, m);
        if m.isBitfield {
          OrStores(buf[..], m, v);
          var oldval := ReadBuf(buf, at, 2);
          var mask := Pow2(m.width) - 1;
          var combined := Bitwise(BitOr, oldval, Bitwise(BitAnd, v, mask, 64) * Pow2(m.bitOffset), 64);
          WriteBuf(buf, at, combined, 2);
        } else {
          StoredBytes(buf[..], m, v);
          WriteBuf(buf, at, v, m.size);
        }
      }
    }
  }

  lemma InsideAt(m: Member, size: nat)
    requires Inside(m, size)
    ensures 0 <= m.offset && m.offset + (if m.isBitfield then 2 else m.size) <= size && (m.isBitfield ==> m.bitOffset >= 0)
  {
  }

  lemma StoredBytes(buf: Buffer, m: Member, v: int)
    requires Inside(m, |buf|) && !m.isBitfield
    ensures Stored(buf, m, v) == PutNumber(buf, m.offset, m.size, v)
  {
  }

  lemma AssignedNone(ms: seq<Member>, inits: seq<Init>, buf: Buffer)
    requires |ms| == |inits| && forall i :: 0 <= i < |ms| && Counts(ms[i]) ==> Inside(ms[i], |buf|)
    ensures Assigned(ms, inits, 0, buf) == buf
  {
  }

  lemma AssignedNext(ms: seq<Member>, inits: seq<Init>, k: nat, buf: Buffer)
    requires k < |ms| == |inits| && forall i :: 0 <= i < |ms| && Counts(ms[i]) ==> Inside(ms[i], |buf|)
    ensures Assigned(ms, inits, k + 1, buf) ==
            if inits[k].Value? && Counts(ms[k]) then Stored(Assigned(ms, inits, k, buf), ms[k], inits[k].v)
            else Assigned(ms, inits, k, buf)
  {
  }

  /** So every member of the image reads as its initializer, cut to its width. */
  lemma ImageReads(ms: seq<Member>, inits: seq<Init>, blank: Buffer, i: nat)
    requires |ms| == |inits| && LaidOut(ms, |blank|) && Blank(blank) && i < |ms| && Counts(ms[i])
    ensures Held(Assigned(ms, inits, |ms|, blank), ms[i]) == if inits[i].Value? then Cutoff(ms[i], inits[i].v) else 0
  {
    AssignedHeld(ms, inits, |ms|, blank, i);
    BlankHeld(blank, ms[i]);
  }
}
