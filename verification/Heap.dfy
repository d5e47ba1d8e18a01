/**
 The heap of clibs/malloc.c: a chain of blocks in raw memory, each with its size in front, the
 lowest bit of the size saying whether it is free, and a zero size ending the chain.  To a client
 it is a finite map from pointers to byte strings, and each operation is shown to act on that map.
 */
module Heap {
  import opened Machine
  import opened Arith
  import opened Bits

  /** Bytes between the end of the heap and the stack that `malloc` leaves alone. */
  const STACK_MARGIN := 1024

  /** A number that fits 16 bits, as a word. */
  function Narrow(n: int): Word { if 0 <= n < 65536 then n else 0 }

  /** One block: its total size, and for a block in use how many bytes were asked for. */
  datatype Block = Block(size: nat, free: bool, want: nat)

  predicate Even(n: nat) { if n < 2 then n == 0 else Even(n - 2) }

  lemma {:induction false} EvenIs(n: nat)
    ensures Even(n) <==> n % 2 == 0
  {
    if n >= 2 {
      EvenIs(n - 2);
    }
  }

  lemma EvenSum(x: nat, y: nat)
    requires Even(x) && Even(y)
    ensures Even(x + y)
  {
    EvenIs(x);
    EvenIs(y);
    EvenIs(x + y);
  }

  predicate GoodBlock(b: Block) {
    4 <= b.size <= 65534 && Even(b.size) && (!b.free ==> 1 <= b.want <= b.size - 2)
  }

  function Header(b: Block): Word
    requires GoodBlock(b)
  {
    b.size + Carry(b.free)
  }

  /** BLOCK_SIZE: the header without its lowest bit. */
  function Size(header: Word): Word { header - header % 2 }

  function Total(bs: seq<Block>): nat { if bs == [] then 0 else bs[0].size + Total(bs[1..]) }

  lemma TotalNone()
    ensures Total([]) == 0
  {
  }

  /** The blocks `bs` lie one after the other from address `at`. */
  ghost predicate Headers(m: Mem, at: int, bs: seq<Block>)
    ensures Headers(m, at, bs) ==> 0 <= at && at + Total(bs) + 2 <= 65536
    decreases |bs|
  {
    0 <= at <= 65534 &&
    (bs != [] ==> GoodBlock(bs[0]) && Word16At(m, at) == Header(bs[0]) && Headers(m, at + bs[0].size, bs[1..]))
  }

  /** ... and the sentinel follows the last. */
  ghost predicate Chain(m: Mem, at: int, bs: seq<Block>) {
    Headers(m, at, bs) && Word16At(m, at + Total(bs)) == 0
  }

  function Slice(m: Mem, p: int, n: nat): (s: seq<Byte>)
    ensures |s| == n
  {
    if 0 <= p && p + n <= 65536 then m[p..p + n] else seq(n, _ => 0)
  }

  /** What the client sees: every pointer in use, and the bytes it asked for there. */
  ghost function Strings(m: Mem, at: int, bs: seq<Block>): map<int, seq<Byte>>
    decreases |bs|
  {
    if bs == [] then map[]
    else
      var rest := Strings(m, at + bs[0].size, bs[1..]);
      if bs[0].free then rest else rest[at + 2 := Slice(m, at + 2, bs[0].want)]
  }

  // ----- chains taken apart -----

  lemma {:induction false} TotalAppend(xs: seq<Block>, ys: seq<Block>)
    ensures Total(xs + ys) == Total(xs) + Total(ys)
  {
    if xs == [] {
      assert xs + ys == ys;
    } else {
      assert (xs + ys)[1..] == xs[1..] + ys;
      TotalAppend(xs[1..], ys);
    }
  }

  lemma {:induction false} HeadersAppend(m: Mem, at: int, xs: seq<Block>, ys: seq<Block>)
    ensures Headers(m, at, xs + ys) <==> Headers(m, at, xs) && Headers(m, at + Total(xs), ys)
    decreases |xs|
  {
    if xs == [] {
      assert xs + ys == ys;
    } else {
      assert (xs + ys)[1..] == xs[1..] + ys;
      HeadersAppend(m, at + xs[0].size, xs[1..], ys);
    }
  }

  predicate Agree(m: Mem, m': Mem, from: int, to: int) {
    forall a :: 0 <= a < 65536 && from <= a < to ==> m'[a] == m[a]
  }

  /** Memory outside `from..to` is untouched. */
  predicate Elsewhere(m: Mem, m': Mem, from: int, to: int) {
    forall a :: 0 <= a < 65536 && !(from <= a < to) ==> m'[a] == m[a]
  }

  lemma {:induction false} HeadersFrame(m: Mem, m': Mem, at: int, bs: seq<Block>)
    requires Headers(m, at, bs) && Agree(m, m', at, at + Total(bs))
    ensures Headers(m', at, bs)
    decreases |bs|
  {
    if bs != [] {
      HeadersFrame(m, m', at + bs[0].size, bs[1..]);
    }
  }

  lemma {:induction false} StringsFrame(m: Mem, m': Mem, at: int, bs: seq<Block>)
    requires Headers(m, at, bs) && Agree(m, m', at, at + Total(bs))
    ensures Strings(m', at, bs) == Strings(m, at, bs)
    decreases |bs|
  {
    if bs != [] {
      StringsFrame(m, m', at + bs[0].size, bs[1..]);
      if !bs[0].free {
        assert Slice(m', at + 2, bs[0].want) == Slice(m, at + 2, bs[0].want);
      }
    }
  }

  lemma {:induction false} StringsKeys(m: Mem, at: int, bs: seq<Block>)
    requires Headers(m, at, bs)
    ensures forall p :: p in Strings(m, at, bs) ==> at < p < at + Total(bs)
    decreases |bs|
  {
    if bs != [] {
      StringsKeys(m, at + bs[0].size, bs[1..]);
    }
  }

  lemma {:induction false} StringsAppend(m: Mem, at: int, xs: seq<Block>, ys: seq<Block>)
    requires Headers(m, at, xs + ys)
    ensures Strings(m, at, xs + ys) == Strings(m, at, xs) + Strings(m, at + Total(xs), ys)
    decreases |xs|
  {
    hide Slice, Word16At, Header;
    if xs == [] {
      assert xs + ys == ys;
    } else {
      assert (xs + ys)[1..] == xs[1..] + ys;
      StringsAppend(m, at + xs[0].size, xs[1..], ys);
      HeadersAppend(m, at, xs, ys);
      StringsKeys(m, at + Total(xs), ys);
    }
  }

  /** One block of a chain, by itself. */
  ghost function Own(m: Mem, p: int, b: Block): map<int, seq<Byte>> {
    if b.free then map[] else map[p + 2 := Slice(m, p + 2, b.want)]
  }

  /** A chain around one of its blocks. */
  lemma Middle(m: Mem, at: int, xs: seq<Block>, b: Block, ys: seq<Block>, p: int)
    requires p == at + Total(xs)
    ensures Total(xs + [b] + ys) == Total(xs) + b.size + Total(ys)
    ensures Chain(m, at, xs + [b] + ys) <==>
            Headers(m, at, xs) && p <= 65534 && GoodBlock(b) && Word16At(m, p) == Header(b) && Chain(m, p + b.size, ys)
  {
    var bys := [b] + ys;
    assert xs + [b] + ys == xs + bys && bys[1..] == ys;
    TotalAppend(xs, bys);
    HeadersAppend(m, at, xs, bys);
  }

  lemma OwnFirst(m: Mem, p: int, b: Block, ys: seq<Block>)
    requires Headers(m, p, [b] + ys)
    ensures Strings(m, p, [b] + ys) == Own(m, p, b) + Strings(m, p + b.size, ys) && p + 2 !in Strings(m, p + b.size, ys)
  {
    hide Slice, Word16At, Header;
    assert ([b] + ys)[1..] == ys;
    StringsKeys(m, p + b.size, ys);
  }

  lemma MapsJoin<K, V>(x: map<K, V>, y: map<K, V>, z: map<K, V>)
    ensures x + (y + z) == x + y + z
  {
  }

  lemma MiddleStrings(m: Mem, at: int, xs: seq<Block>, b: Block, ys: seq<Block>, p: int)
    requires p == at + Total(xs) && Chain(m, at, xs + [b] + ys)
    ensures Strings(m, at, xs + [b] + ys) == Strings(m, at, xs) + Own(m, p, b) + Strings(m, p + b.size, ys)
    ensures p + 2 !in Strings(m, at, xs) && p + 2 !in Strings(m, p + b.size, ys)
  {
    hide Slice, Word16At, Header, Strings, Own;
    var bys := [b] + ys;
    assert xs + [b] + ys == xs + bys;
    HeadersAppend(m, at, xs, bys);
    StringsAppend(m, at, xs, bys);
    StringsKeys(m, at, xs);
    OwnFirst(m, p, b, ys);
    MapsJoin(Strings(m, at, xs), Own(m, p, b), Strings(m, p + b.size, ys));
  }

  /** Put one block between two stretches of chain, changing only its own bytes. */
  lemma Placed(m: Mem, m': Mem, at: int, xs: seq<Block>, d: Block, ys: seq<Block>, p: int)
    requires Headers(m, at, xs) && p == at + Total(xs) && Chain(m, p + d.size, ys)
    requires p <= 65534 && GoodBlock(d) && Word16At(m', p) == Header(d) && Elsewhere(m, m', p, p + d.size)
    ensures Chain(m', at, xs + [d] + ys)
    ensures Strings(m', at, xs + [d] + ys) == Strings(m, at, xs) + Own(m', p, d) + Strings(m, p + d.size, ys)
  {
    HeadersFrame(m, m', at, xs);
    HeadersFrame(m, m', p + d.size, ys);
    StringsFrame(m, m', at, xs);
    StringsFrame(m, m', p + d.size, ys);
    Middle(m', at, xs, d, ys, p);
    MiddleStrings(m', at, xs, d, ys, p);
  }

  /** A block that keeps its size changes: all other strings stay. */
  lemma Rewrite(m: Mem, m': Mem, at: int, xs: seq<Block>, b: Block, b': Block, ys: seq<Block>, p: int)
    requires Chain(m, at, xs + [b] + ys) && p == at + Total(xs)
    requires GoodBlock(b') && b'.size == b.size && p <= 65534 && Word16At(m', p) == Header(b')
    requires Elsewhere(m, m', p, p + b.size)
    ensures Chain(m', at, xs + [b'] + ys)
    ensures Strings(m', at, xs + [b'] + ys) == (Strings(m, at, xs + [b] + ys) - {p + 2}) + Own(m', p, b')
  {
    hide Chain, Headers, Strings, Put16, Word16At, Slice, Total;
    Middle(m, at, xs, b, ys, p);
    MiddleStrings(m, at, xs, b, ys, p);
    Placed(m, m', at, xs, b', ys, p);
    Replace(Strings(m, at, xs), Own(m, p, b), Own(m', p, b'), Strings(m, p + b.size, ys), p + 2);
  }

  lemma Replace(x: map<int, seq<Byte>>, o: map<int, seq<Byte>>, o': map<int, seq<Byte>>, y: map<int, seq<Byte>>, q: int)
    requires q !in x && q !in y && o.Keys <= {q} && o'.Keys <= {q}
    ensures x + o' + y == ((x + o + y) - {q}) + o'
  {
  }

  /** A free block takes in the free block behind it: the strings stay. */
  lemma Join(m: Mem, m': Mem, at: int, xs: seq<Block>, b: Block, cys: seq<Block>, d: Block, p: int)
    requires Chain(m, at, xs + [b] + cys) && p == at + Total(xs) && b.free && cys != [] && cys[0].free
    requires d == Block(b.size + cys[0].size, true, 0)
    requires 0 <= p <= 65534 && d.size < 65535 && m' == Put16(m, p, d.size + 1)
    ensures Chain(m', at, xs + [d] + cys[1..])
    ensures Strings(m', at, xs + [d] + cys[1..]) == Strings(m, at, xs + [b] + cys)
  {
    hide Chain, Headers, Strings, Total, Put16, Word16At;
    Middle(m, at, xs, b, cys, p);
    MiddleStrings(m, at, xs, b, cys, p);
    Behind(m, p + b.size, cys);
    JoinHeader(m, m', p, d.size);
    EvenSum(b.size, cys[0].size);
    Placed(m, m', at, xs, d, cys[1..], p);
  }

  lemma Behind(m: Mem, at: int, bs: seq<Block>)
    requires Chain(m, at, bs) && bs != [] && bs[0].free
    ensures GoodBlock(bs[0]) && Chain(m, at + bs[0].size, bs[1..])
    ensures Strings(m, at, bs) == Strings(m, at + bs[0].size, bs[1..])
  {
  }

  lemma JoinHeader(m: Mem, m': Mem, p: int, size: nat)
    requires 0 <= p <= 65534 && size < 65535 && m' == Put16(m, p, size + 1)
    ensures Word16At(m', p) == size + 1 && Elsewhere(m, m', p, p + 2)
  {
    hide Word16At, Put16;
    PutHeader(m, m', p, size + 1);
  }

  lemma PutHeader(m: Mem, m': Mem, p: int, w: Word)
    requires 0 <= p <= 65534 && m' == Put16(m, p, w)
    ensures Word16At(m', p) == w && Elsewhere(m, m', p, p + 2)
  {
    HalfWord(w);
  }

  /** The sentinel becomes a block in use, and a new sentinel follows it. */
  lemma Extend(m: Mem, m': Mem, at: int, xs: seq<Block>, b: Block, p: int)
    requires Chain(m, at, xs) && p == at + Total(xs) && GoodBlock(b) && !b.free && 0 <= p && p + b.size <= 65534
    requires m' == Put16(Put16(m, p, b.size), p + b.size, 0)
    ensures Chain(m', at, xs + [b])
    ensures p + 2 !in Strings(m, at, xs)
    ensures Strings(m', at, xs + [b]) == Strings(m, at, xs)[p + 2 := Slice(m', p + 2, b.want)]
  {
    hide Headers, Strings, Total, Put16, Word16At, Slice;
    ExtendHeaders(m, m', p, b.size);
    HeadersFrame(m, m', at, xs);
    StringsFrame(m, m', at, xs);
    EmptyChain(m', p + b.size);
    assert xs + [b] + [] == xs + [b];
    Middle(m', at, xs, b, [], p);
    MiddleStrings(m', at, xs, b, [], p);
    MapPut(Strings(m, at, xs), p + 2, Slice(m', p + 2, b.want));
  }

  lemma EmptyChain(m: Mem, p: int)
    requires 0 <= p <= 65534 && Word16At(m, p) == 0
    ensures Chain(m, p, []) && Strings(m, p, []) == map[]
  {
  }

  lemma MapPut(x: map<int, seq<Byte>>, q: int, v: seq<Byte>)
    ensures x + map[q := v] + map[] == x[q := v]
  {
  }

  lemma ExtendHeaders(m: Mem, m': Mem, p: int, size: nat)
    requires 4 <= size && 0 <= p && p + size <= 65534
    requires m' == Put16(Put16(m, p, size), p + size, 0)
    ensures Word16At(m', p) == size && Word16At(m', p + size) == 0
    ensures Elsewhere(m, m', p, p + size + 2)
  {
    hide Put16;
    PutHeader(m, Put16(m, p, size), p, size);
    PutHeader(Put16(m, p, size), m', p + size, 0);
  }

  // ----- finding blocks -----

  /** The walk along a chain has come to block `i`, at address `p`. */
  lemma Here(m: Mem, base: int, bs: seq<Block>, i: nat, p: int)
    requires i <= |bs| && p == base + Total(bs[..i]) && Chain(m, p, bs[i..])
    ensures 0 <= p <= 65534 && (Word16At(m, p) == 0 <==> i == |bs|)
    ensures i < |bs| ==> GoodBlock(bs[i]) && Word16At(m, p) == Header(bs[i]) && p + bs[i].size <= 65534
    ensures i < |bs| ==> Size(Word16At(m, p)) == bs[i].size && (Word16At(m, p) % 2 == 1 <==> bs[i].free)
    ensures i < |bs| ==> p + bs[i].size == base + Total(bs[..i + 1]) && Chain(m, p + bs[i].size, bs[i + 1..])
  {
    hide Word16At;
    if i < |bs| {
      HeaderBits(bs[i..][0]);
      assert bs[i..][1..] == bs[i + 1..];
      TotalNext(bs, i);
    }
  }

  lemma HeaderBits(b: Block)
    ensures GoodBlock(b) ==> Header(b) != 0 && Size(Header(b)) == b.size && (Header(b) % 2 == 1 <==> b.free)
  {
    EvenIs(b.size);
  }

  lemma TotalHead(bs: seq<Block>)
    requires bs != []
    ensures Total(bs) == bs[0].size + Total(bs[1..])
  {
  }

  lemma TotalNext(bs: seq<Block>, i: nat)
    requires i < |bs|
    ensures Total(bs[..i + 1]) == Total(bs[..i]) + bs[i].size
  {
    assert bs[..i + 1] == bs[..i] + [bs[i]];
    TotalAppend(bs[..i], [bs[i]]);
    assert Total([bs[i]]) == bs[i].size;
  }

  /** The walk reaches every block. */
  lemma {:induction false} Walk(m: Mem, base: int, bs: seq<Block>, i: nat)
    requires Chain(m, base, bs) && i <= |bs|
    ensures Chain(m, base + Total(bs[..i]), bs[i..])
  {
    if i == 0 {
      assert bs[0..] == bs;
    } else {
      Walk(m, base, bs, i - 1);
      Here(m, base, bs, i - 1, base + Total(bs[..i - 1]));
    }
  }

  /** The number of the block at distance `off` from the base. */
  function At(bs: seq<Block>, off: int): (k: nat)
    ensures k <= |bs|
  {
    if bs == [] || off <= 0 then 0 else 1 + At(bs[1..], off - bs[0].size)
  }

  predicate IsBlock(base: int, bs: seq<Block>, p: int) {
    var k := At(bs, p - 2 - base);
    k < |bs| && base + Total(bs[..k]) + 2 == p
  }

  /** A pointer in use is the payload of a block in use, of at least the size asked for. */
  lemma {:induction false} LiveIsBlock(m: Mem, base: int, bs: seq<Block>, p: int)
    requires Headers(m, base, bs) && p in Strings(m, base, bs)
    ensures IsBlock(base, bs, p)
    ensures var b := bs[At(bs, p - 2 - base)]; !b.free && Strings(m, base, bs)[p] == Slice(m, p, b.want)
    decreases |bs|
  {
    hide Slice, Word16At, Header;
    if p == base + 2 && !bs[0].free {
    } else {
      var rest := bs[1..];
      LiveIsBlock(m, base + bs[0].size, rest, p);
      StringsKeys(m, base + bs[0].size, rest);
      var k := At(rest, p - 2 - base - bs[0].size);
      assert bs[..k + 1][1..] == rest[..k];
    }
  }

  // ----- the operations, on what one can see of the heap -----

  /** A state of the heap: all of memory, whether `malloc` has been called, and the chain. */
  datatype View = View(mem: Mem, ready: bool, blocks: seq<Block>)

  ghost predicate Sound(base: int, v: View) {
    if v.ready then Chain(v.mem, base, v.blocks) else v.blocks == []
  }

  ghost function Live(base: int, v: View): map<int, seq<Byte>> { Strings(v.mem, base, v.blocks) }

  /** What a request needs, with its header and rounded up to even. */
  function Required(size: Word): int
    requires size <= 0xFFFB
  {
    (size + 1) / 2 * 2 + 2
  }

  predicate Fits(b: Block, need: int) { b.free && b.size >= need }

  /** The first free block that is large enough, or the number of blocks. */
  function FirstFit(bs: seq<Block>, need: int): (k: nat)
    ensures k <= |bs|
    ensures k < |bs| ==> Fits(bs[k], need)
    ensures forall i :: 0 <= i < k ==> !Fits(bs[i], need)
  {
    if bs == [] || Fits(bs[0], need) then 0 else 1 + FirstFit(bs[1..], need)
  }

  /** The stack pointer leaves room for `need` more bytes at the end of the heap. */
  predicate Room(end: int, need: int, sp: Word) { sp >= STACK_MARGIN && end <= sp - STACK_MARGIN - need }

  predicate Refused(base: int, v: View, size: int, sp: Word) {
    size <= 0 || size > 0xFFFB ||
    (FirstFit(v.blocks, Required(size)) == |v.blocks| && !Room(base + Total(v.blocks), Required(size), sp))
  }

  function AfterMalloc(bs: seq<Block>, size: Word): seq<Block>
    requires size <= 0xFFFB
  {
    var k := FirstFit(bs, Required(size));
    if k < |bs| then bs[k := bs[k].(free := false, want := size)] else bs + [Block(Required(size), false, size)]
  }

  /** `malloc` adds one string of the size asked for, at a pointer not in use, and changes no other. */
  ghost predicate MallocStep(base: int, v: View, size: Word, sp: Word, v': View, r: Word) {
    && (r == 0 <==> Refused(base, v, size, sp))
    && (r == 0 ==> v'.blocks == v.blocks && Live(base, v') == Live(base, v))
    && (r != 0 ==>
        && v'.blocks == AfterMalloc(v.blocks, size)
        && r == base + Total(v.blocks[..FirstFit(v.blocks, Required(size))]) + 2
        && r !in Live(base, v)
        && Live(base, v') == Live(base, v)[r := Slice(v'.mem, r, size)])
    && Elsewhere(v.mem, v'.mem, base, base + Total(v'.blocks) + 2)
    && (Total(v'.blocks) > Total(v.blocks) ==> base + Total(v'.blocks) <= sp - STACK_MARGIN)
  }

  /** The free bit of a block that fits is cleared. */
  lemma Reused(m: Mem, m': Mem, base: int, xs: seq<Block>, b: Block, b': Block, ys: seq<Block>, p: int, h: Word)
    requires Chain(m, base, xs + [b] + ys) && b.free && p == base + Total(xs) && h == b.size
    requires GoodBlock(b') && b'.size == b.size && !b'.free && 0 <= p <= 65534 && m' == Put16(m, p, h)
    ensures Chain(m', base, xs + [b'] + ys) && Total(xs + [b'] + ys) == Total(xs + [b] + ys)
    ensures p + 2 !in Strings(m, base, xs + [b] + ys) && Elsewhere(m, m', p, p + 2)
    ensures p + 2 <= base + Total(xs + [b] + ys)
    ensures Strings(m', base, xs + [b'] + ys) == Strings(m, base, xs + [b] + ys)[p + 2 := Slice(m', p + 2, b'.want)]
  {
    hide Chain, Headers, Strings, Put16, Word16At, Slice, Total;
    Middle(m, base, xs, b, ys, p);
    MiddleStrings(m, base, xs, b, ys, p);
    JoinHeader(m, m', p, h - 1);
    Rewrite(m, m', base, xs, b, b', ys, p);
    Middle(m', base, xs, b', ys, p);
    var live := Strings(m, base, xs + [b] + ys);
    assert p + 2 !in live && live - {p + 2} == live;
  }

  lemma ReusedStep(base: int, v: View, v': View, size: Word, sp: Word, i: nat, p: int, h: Word)
    requires v.ready && Sound(base, v) && 0 < size <= 0xFFFB && i < |v.blocks| && p == base + Total(v.blocks[..i])
    requires i == FirstFit(v.blocks, Required(size)) && 0 <= p <= 65533 && h == v.blocks[i].size
    requires v' == View(Put16(v.mem, p, h), true, AfterMalloc(v.blocks, size))
    ensures Sound(base, v') && MallocStep(base, v, size, sp, v', p + 2)
  {
    hide Chain, Headers, Strings, Put16, Word16At, Slice, Total;
    var b, xs, ys := v.blocks[i], v.blocks[..i], v.blocks[i + 1..];
    var b' := b.(free := false, want := size);
    assert v.blocks == xs + [b] + ys && v'.blocks == xs + [b'] + ys;
    Middle(v.mem, base, xs, b, ys, p);
    Reused(v.mem, v'.mem, base, xs, b, b', ys, p, h);
  }

  /** The sentinel becomes a block and a new sentinel is written. */
  lemma Appended(m: Mem, m': Mem, base: int, bs: seq<Block>, size: Word, p: int)
    requires Chain(m, base, bs) && 0 < size <= 0xFFFB && p == base + Total(bs)
    requires FirstFit(bs, Required(size)) == |bs| && 0 <= p && p + Required(size) <= 65534
    requires m' == Put16(Put16(m, p, Required(size)), p + Required(size), 0)
    ensures Chain(m', base, AfterMalloc(bs, size)) && Total(AfterMalloc(bs, size)) == Total(bs) + Required(size)
    ensures p + 2 !in Strings(m, base, bs) && Elsewhere(m, m', p, p + Required(size) + 2)
    ensures Strings(m', base, AfterMalloc(bs, size)) == Strings(m, base, bs)[p + 2 := Slice(m', p + 2, size)]
  {
    hide Chain, Headers, Strings, Put16, Word16At, Slice;
    var b := Block(Required(size), false, size);
    EvenIs(b.size);
    ExtendHeaders(m, m', p, b.size);
    Extend(m, m', base, bs, b, p);
    TotalAppend(bs, [b]);
    assert Total([b]) == b.size;
  }

  lemma AppendedStep(base: int, v: View, v': View, size: Word, sp: Word, p: int, need: Word)
    requires v.ready && Sound(base, v) && 0 < size <= 0xFFFB && p == base + Total(v.blocks) && need == Required(size)
    requires FirstFit(v.blocks, need) == |v.blocks| && 0 <= p && Room(p, need, sp)
    requires v' == View(Put16(Put16(v.mem, p, need), p + need, 0), true, AfterMalloc(v.blocks, size))
    ensures Sound(base, v') && MallocStep(base, v, size, sp, v', p + 2)
  {
    hide Chain, Headers, Strings, Put16, Word16At, Slice, Total, FirstFit, AfterMalloc;
    Appended(v.mem, v'.mem, base, v.blocks, size, p);
    assert v.blocks[..|v.blocks|] == v.blocks;
  }

  /** The first call of `malloc` writes a sentinel at the end of bss. */
  function Started(base: int, v: View): View {
    if v.ready then v else View(Put16(v.mem, Narrow(base), 0), true, v.blocks)
  }

  /** What `malloc` writes and returns. */
  function Malloced(base: int, v: View, size: Word, sp: Word): (View, Word) {
    if size == 0 || size > 0xFFFB then (v, 0)
    else
      var s, need, k := Started(base, v), Required(size), FirstFit(v.blocks, Required(size));
      var p := Narrow(base + Total(v.blocks[..k]));
      if k < |v.blocks| then
        (View(Put16(s.mem, p, Narrow(v.blocks[k].size)), true, AfterMalloc(v.blocks, size)), Narrow(p + 2))
      else if Room(p, need, sp) then
        (View(Put16(Put16(s.mem, p, need), Narrow(p + need), 0), true, AfterMalloc(v.blocks, size)), Narrow(p + 2))
      else (s, 0)
  }

  lemma StartedSound(base: int, v: View)
    requires 0 < base <= 65534 && Sound(base, v)
    ensures var s := Started(base, v);
      s.ready && Sound(base, s) && s.blocks == v.blocks && Elsewhere(v.mem, s.mem, base, base + Total(s.blocks) + 2)
      && Live(base, s) == Live(base, v)
  {
    hide Chain, Headers, Put16, Strings;
    if !v.ready {
      FirstCall(base, v, Started(base, v));
      EmptyTotal(v.mem, base);
      EmptyTotal(Started(base, v).mem, base);
    }
  }

  lemma StartedIs(base: int, v: View)
    ensures Started(base, v) == if v.ready then v else View(Put16(v.mem, Narrow(base), 0), true, v.blocks)
    ensures Started(base, Started(base, v)) == Started(base, v)
    ensures forall size, sp :: 0 < size <= 0xFFFB ==> Malloced(base, Started(base, v), size, sp) == Malloced(base, v, size, sp)
    ensures 0 <= base < 65536 ==> Narrow(base) == base
  {
    hide Total, FirstFit, AfterMalloc, Put16;
  }

  lemma MallocNothing(base: int, v: View, size: Word, sp: Word)
    requires size == 0 || size > 0xFFFB
    ensures Malloced(base, v, size, sp) == (v, 0)
  {
  }

  lemma MallocFits(base: int, v: View, size: Word, sp: Word, v': View, r: Word)
    requires r != 0 && MallocStep(base, v, size, sp, v', r) && Sound(base, v')
    ensures r + size <= 65536
  {
    hide Chain, Total, AfterMalloc, Refused, FirstFit;
    PayloadInside(base, v', r);
  }

  lemma EmptyTotal(m: Mem, base: int)
    ensures Total([]) == 0 && Strings(m, base, []) == map[]
  {
  }

  /** `malloc` keeps the chain and acts on the map. */
  lemma MallocEffect(base: int, v: View, size: Word, sp: Word)
    requires 0 < base <= 65534 && Sound(base, v)
    ensures var (v', r) := Malloced(base, v, size, sp); Sound(base, v') && MallocStep(base, v, size, sp, v', r)
    ensures 0 < size <= 0xFFFB ==> Malloced(base, v, size, sp).0.ready
  {
    hide Chain, Headers, Strings, Put16, Word16At, Slice, Total, FirstFit, AfterMalloc, Live;
    if 0 < size <= 0xFFFB {
      StartedSound(base, v);
      var s, k, need := Started(base, v), FirstFit(v.blocks, Required(size)), Required(size);
      FirstFits(v.blocks, need);
      Walk(s.mem, base, v.blocks, k);
      Here(s.mem, base, v.blocks, k, base + Total(v.blocks[..k]));
      var p := base + Total(v.blocks[..k]);
      var (v', r) := Malloced(base, v, size, sp);
      assert v.blocks[..|v.blocks|] == v.blocks;
      if k < |v.blocks| {
        ReusedStep(base, s, v', size, sp, k, p, v.blocks[k].size);
        FirstMalloc(base, v, s, size, sp, v', r);
      } else if Room(p, need, sp) {
        AppendedStep(base, s, v', size, sp, p, need);
        FirstMalloc(base, v, s, size, sp, v', r);
      }
    }
  }

  lemma FirstFits(bs: seq<Block>, need: int)
    ensures FirstFit(bs, need) <= |bs|
  {
  }

  /** The very first call makes an empty chain. */
  lemma FirstCall(base: int, v: View, v1: View)
    requires 0 < base <= 65534 && !v.ready && v.blocks == [] && v1 == View(Put16(v.mem, base, 0), true, [])
    ensures Sound(base, v1) && Elsewhere(v.mem, v1.mem, base, base + 2)
  {
    hide Chain, Headers, Strings, Put16;
    PutHeader(v.mem, v1.mem, base, 0);
    EmptyChain(v1.mem, base);
  }

  lemma FirstMalloc(base: int, v: View, v1: View, size: Word, sp: Word, v': View, r: Word)
    requires v.blocks == v1.blocks && Live(base, v) == Live(base, v1) && Elsewhere(v.mem, v1.mem, base, base + Total(v.blocks) + 2)
    requires MallocStep(base, v1, size, sp, v', r)
    ensures MallocStep(base, v, size, sp, v', r)
  {
    hide Live, Total, FirstFit, AfterMalloc;
    if size <= 0xFFFB {
      AfterMallocGrows(v.blocks, size);
    }
  }

  lemma AfterMallocGrows(bs: seq<Block>, size: Word)
    requires size <= 0xFFFB
    ensures Total(AfterMalloc(bs, size)) >= Total(bs)
  {
    var k := FirstFit(bs, Required(size));
    if k < |bs| {
      var b := AfterMalloc(bs, size)[k];
      assert bs == bs[..k] + [bs[k]] + bs[k + 1..] && AfterMalloc(bs, size) == bs[..k] + [b] + bs[k + 1..];
      ThreeTotals(bs[..k], bs[k], bs[k + 1..]);
      ThreeTotals(bs[..k], b, bs[k + 1..]);
    } else {
      TotalAppend(bs, [Block(Required(size), false, size)]);
    }
  }

  lemma ThreeTotals(xs: seq<Block>, b: Block, ys: seq<Block>)
    ensures Total(xs + [b] + ys) == Total(xs) + b.size + Total(ys)
  {
    TotalAppend(xs + [b], ys);
    TotalAppend(xs, [b]);
    assert Total([b]) == b.size;
  }

  // ----- free -----

  /** Block `k` takes in the block behind it. */
  function Joined(bs: seq<Block>, k: nat): seq<Block>
    requires k + 1 < |bs|
  {
    bs[..k] + [Block(bs[k].size + bs[k + 1].size, true, 0)] + bs[k + 2..]
  }

  /** ... and all the free blocks behind it. */
  function Absorb(bs: seq<Block>, k: nat): (r: seq<Block>)
    requires k < |bs|
    ensures k < |r|
    decreases |bs|
  {
    if k + 1 < |bs| && bs[k + 1].free then Absorb(Joined(bs, k), k) else bs
  }

  function Release(bs: seq<Block>, k: nat): (r: seq<Block>)
    requires k < |bs|
    ensures k < |r|
  {
    Absorb(bs[k := Block(bs[k].size, true, 0)], k)
  }

  /** `free` takes one string away and changes nothing but the two bytes in front of it; null and a free block are let be. */
  ghost predicate FreeStep(base: int, v: View, p: int, v': View)
    requires p == 0 || !v.ready || IsBlock(base, v.blocks, p)
  {
    var k := At(v.blocks, p - 2 - base);
    if p == 0 || !v.ready || v.blocks[k].free then v' == v
    else
      && v'.ready && v'.blocks == Release(v.blocks, k)
      && Live(base, v') == Live(base, v) - {p}
      && Elsewhere(v.mem, v'.mem, p - 2, p)
      && Total(v'.blocks) == Total(v.blocks)
  }

  /** The state while block `k`, at address `p`, is being merged with what follows. */
  ghost predicate Merging(base: int, v: View, k: nat, p: int) {
    v.ready && Sound(base, v) && k < |v.blocks| && v.blocks[k].free && 0 <= p <= 65534 && p == base + Total(v.blocks[..k])
  }

  /** What is behind the block being merged. */
  lemma Next(base: int, v: View, k: nat, p: int, next: int)
    requires Merging(base, v, k, p) && next == p + v.blocks[k].size
    ensures Size(Word16At(v.mem, p)) == v.blocks[k].size && next <= 65534
    ensures Word16At(v.mem, next) % 2 == 1 <==> k + 1 < |v.blocks| && v.blocks[k + 1].free
    ensures k + 1 < |v.blocks| ==> Size(Word16At(v.mem, next)) == v.blocks[k + 1].size && next + v.blocks[k + 1].size <= 65534
  {
    Walk(v.mem, base, v.blocks, k);
    Here(v.mem, base, v.blocks, k, p);
    Here(v.mem, base, v.blocks, k + 1, next);
  }

  /** A block in use becomes free. */
  lemma FreedStep(base: int, v: View, v': View, k: nat, p: int, h: Word)
    requires v.ready && Sound(base, v) && k < |v.blocks| && !v.blocks[k].free && 0 <= p <= 65534
    requires p == base + Total(v.blocks[..k]) && h == v.blocks[k].size + 1
    requires v' == View(Put16(v.mem, p, h), true, v.blocks[k := Block(v.blocks[k].size, true, 0)])
    ensures Merging(base, v', k, p) && Total(v'.blocks) == Total(v.blocks)
    ensures Live(base, v') == Live(base, v) - {p + 2} && Elsewhere(v.mem, v'.mem, p, p + 2)
  {
    hide Chain, Headers, Strings, Put16, Word16At, Slice, Total;
    var b, xs, ys := v.blocks[k], v.blocks[..k], v.blocks[k + 1..];
    var b' := Block(b.size, true, 0);
    assert v.blocks == xs + [b] + ys && v'.blocks == xs + [b'] + ys && v'.blocks[..k] == xs;
    Middle(v.mem, base, xs, b, ys, p);
    JoinHeader(v.mem, v'.mem, p, b.size);
    Rewrite(v.mem, v'.mem, base, xs, b, b', ys, p);
    Middle(v'.mem, base, xs, b', ys, p);
    assert (Live(base, v) - {p + 2}) + map[] == Live(base, v) - {p + 2};
  }

  /** A free block grows over the free block behind it. */
  lemma JoinedStep(base: int, v: View, v': View, k: nat, p: int, h: Word)
    requires Merging(base, v, k, p) && k + 1 < |v.blocks| && v.blocks[k + 1].free
    requires h == v.blocks[k].size + v.blocks[k + 1].size + 1
    requires v' == View(Put16(v.mem, p, h), true, Joined(v.blocks, k))
    ensures Merging(base, v', k, p) && Total(v'.blocks) == Total(v.blocks)
    ensures Live(base, v') == Live(base, v) && Elsewhere(v.mem, v'.mem, p, p + 2)
    ensures v'.blocks[k].size == h - 1
  {
    hide Chain, Headers, Strings, Put16, Word16At, Slice, Total;
    var b, xs, cys := v.blocks[k], v.blocks[..k], v.blocks[k + 1..];
    var d := Block(h - 1, true, 0);
    assert v.blocks == xs + [b] + cys && v'.blocks == xs + [d] + cys[1..] && v'.blocks[..k] == xs;
    Middle(v.mem, base, xs, b, cys, p);
    Join(v.mem, v'.mem, base, xs, b, cys, d, p);
    Middle(v'.mem, base, xs, d, cys[1..], p);
    TotalHead(cys);
    JoinHeader(v.mem, v'.mem, p, h - 1);
  }

  /** What `free` leaves: one header written, whatever was joined on the way. */
  function Freed(base: int, v: View, p: int): View {
    var k := At(v.blocks, p - 2 - base);
    if p == 0 || !v.ready || k >= |v.blocks| || v.blocks[k].free then v
    else
      var bs := Release(v.blocks, k);
      View(Put16(v.mem, Narrow(p - 2), Narrow(bs[k].size + 1)), true, bs)
  }

  lemma PutSelf(m: Mem, p: Word)
    requires p < 65535
    ensures Put16(m, p, Word16At(m, p)) == m
  {
    CatBytes(m[p], m[p + 1]);
  }

  lemma PutAgain(m: Mem, p: Word, w: Word, w': Word)
    ensures Put16(Put16(m, p, w), p, w') == Put16(m, p, w')
  {
  }

  /** The header of a free block, in place. */
  lemma MergingHeader(base: int, v: View, k: nat, p: int)
    requires Merging(base, v, k, p)
    ensures v.blocks[k].size + 1 < 65536 && Word16At(v.mem, p) == v.blocks[k].size + 1
  {
    hide Word16At;
    Walk(v.mem, base, v.blocks, k);
    Here(v.mem, base, v.blocks, k, p);
  }

  /** Joining block after block ends where `Absorb` says. */
  lemma {:induction false} MergedAll(base: int, v: View, k: nat, p: int)
    requires Merging(base, v, k, p)
    ensures var bs := Absorb(v.blocks, k);
      var v' := View(Put16(v.mem, p, Narrow(bs[k].size + 1)), true, bs);
      Merging(base, v', k, p) && Live(base, v') == Live(base, v) && Total(bs) == Total(v.blocks)
    decreases |v.blocks|
  {
    hide Sound, Chain, Live, Total, Put16, Word16At;
    MergingHeader(base, v, k, p);
    if k + 1 < |v.blocks| && v.blocks[k + 1].free {
      Next(base, v, k, p, p + v.blocks[k].size);
      var h := v.blocks[k].size + v.blocks[k + 1].size + 1;
      var v1 := View(Put16(v.mem, p, h), true, Joined(v.blocks, k));
      JoinedStep(base, v, v1, k, p, h);
      MergedAll(base, v1, k, p);
      PutAgain(v.mem, p, h, Narrow(Absorb(v.blocks, k)[k].size + 1));
    } else {
      PutSelf(v.mem, p);
    }
  }

  /** `free` keeps the chain and acts on the map. */
  lemma FreeEffect(base: int, v: View, p: int)
    requires Sound(base, v) && (p == 0 || !v.ready || IsBlock(base, v.blocks, p))
    ensures Sound(base, Freed(base, v, p)) && FreeStep(base, v, p, Freed(base, v, p))
  {
    hide Chain, Headers, Strings, Live, Total, Put16, Word16At, Slice, Release, Absorb;
    var k := At(v.blocks, p - 2 - base);
    if p != 0 && v.ready && !v.blocks[k].free {
      Walk(v.mem, base, v.blocks, k);
      Here(v.mem, base, v.blocks, k, p - 2);
      var h := v.blocks[k].size + 1;
      var v1 := View(Put16(v.mem, p - 2, h), true, v.blocks[k := Block(v.blocks[k].size, true, 0)]);
      FreedStep(base, v, v1, k, p - 2, h);
      MergedAll(base, v1, k, p - 2);
      var bs := Absorb(v1.blocks, k);
      var w: Word := Narrow(bs[k].size + 1);
      assert bs == Release(v.blocks, k) by { ReleaseIs(v.blocks, k); }
      PutAgain(v.mem, p - 2, h, w);
      PutHeader(v.mem, Put16(v.mem, p - 2, w), p - 2, w);
    }
  }

  lemma ReleaseIs(bs: seq<Block>, k: nat)
    requires k < |bs|
    ensures Release(bs, k) == Absorb(bs[k := Block(bs[k].size, true, 0)], k)
  {
    hide Absorb;
  }

  /** A heap with the blocks that `free` leaves, and only that header rewritten, is what `free` leaves. */
  lemma FreedOnly(base: int, v: View, p: int, v': View)
    requires p == 0 || !v.ready || IsBlock(base, v.blocks, p)
    requires Sound(base, v) && Sound(base, v') && FreeStep(base, v, p, v')
    ensures v' == Freed(base, v, p)
  {
    hide Chain, Headers, Strings, Live, Put16, Word16At, Slice, Release, Absorb;
    var k := At(v.blocks, p - 2 - base);
    if p != 0 && v.ready && !v.blocks[k].free {
      Walk(v.mem, base, v.blocks, k);
      Here(v.mem, base, v.blocks, k, p - 2);
      var j := ReleaseRun(v.blocks, k);
      assert v'.blocks[..k] == v.blocks[..k] && v'.blocks[k].free;
      MergingHeader(base, v', k, p - 2);
      var w := v'.blocks[k].size + 1;
      OneWord(v.mem, v'.mem, p - 2, w);
    }
  }

  lemma OneWord(m: Mem, m': Mem, p: int, w: Word)
    requires 0 <= p <= 65534 && Word16At(m', p) == w && Elsewhere(m, m', p, p + 2)
    ensures m' == Put16(m, p, w)
  {
    CatBytes(m'[p], m'[p + 1]);
  }

  // ----- what free does to the blocks -----

  function SizeIf(bs: seq<Block>, free: bool): nat {
    if bs == [] then 0 else (if bs[0].free == free then bs[0].size else 0) + SizeIf(bs[1..], free)
  }

  lemma {:induction false} SizeIfAppend(xs: seq<Block>, ys: seq<Block>, free: bool)
    ensures SizeIf(xs + ys, free) == SizeIf(xs, free) + SizeIf(ys, free)
  {
    if xs == [] {
      assert xs + ys == ys;
    } else {
      assert (xs + ys)[1..] == xs[1..] + ys;
      SizeIfAppend(xs[1..], ys, free);
    }
  }

  predicate AllFree(bs: seq<Block>) { forall i :: 0 <= i < |bs| ==> bs[i].free }

  lemma {:induction false} SizeOfFree(bs: seq<Block>)
    requires AllFree(bs)
    ensures SizeIf(bs, true) == Total(bs) && SizeIf(bs, false) == 0
  {
    if bs != [] {
      SizeOfFree(bs[1..]);
    }
  }

  /** Merging takes exactly the run of free blocks behind block `k`, up to `j`. */
  lemma {:induction false} AbsorbRun(bs: seq<Block>, k: nat) returns (j: nat)
    requires k < |bs| && bs[k] == Block(bs[k].size, true, 0)
    ensures k < j <= |bs| && AllFree(bs[k + 1..j]) && (j < |bs| ==> !bs[j].free)
    ensures Absorb(bs, k) == bs[..k] + [Block(bs[k].size + Total(bs[k + 1..j]), true, 0)] + bs[j..]
    decreases |bs|
  {
    j := k + 1;
    if j < |bs| && bs[j].free {
      var js := Joined(bs, k);
      var i := AbsorbRun(js, k);
      JoinedParts(bs, k, i);
      j := i + 1;
      assert bs[k + 1..j][1..] == bs[k + 2..j];
    } else {
      assert bs == bs[..k] + [bs[k]] + bs[j..];
    }
  }

  lemma JoinedParts(bs: seq<Block>, k: nat, i: nat)
    requires k + 1 < |bs| && k < i < |bs|
    ensures var js := Joined(bs, k);
      |js| == |bs| - 1 && js[..k] == bs[..k] && js[i..] == bs[i + 1..] && js[k + 1..i] == bs[k + 2..i + 1]
      && (i < |js| ==> js[i] == bs[i + 1])
  {
  }

  /**
   Coalescing conserves bytes: the freed block and the free run behind it become one free block,
   the bytes in use drop by the block's size, the free ones grow by it, and no byte is lost.
   */
  lemma ReleaseConserves(bs: seq<Block>, k: nat) returns (j: nat)
    requires k < |bs| && !bs[k].free
    ensures k < j <= |bs| && AllFree(bs[k + 1..j]) && (j < |bs| ==> !bs[j].free)
    ensures Release(bs, k) == bs[..k] + [Block(Total(bs[k..j]), true, 0)] + bs[j..]
    ensures Total(Release(bs, k)) == Total(bs)
    ensures SizeIf(Release(bs, k), false) == SizeIf(bs, false) - bs[k].size
    ensures SizeIf(Release(bs, k), true) == SizeIf(bs, true) + bs[k].size
  {
    hide Release, AllFree, Total, SizeIf;
    j := ReleaseRun(bs, k);
    var run, xs, ys := bs[k + 1..j], bs[..k], bs[j..];
    assert bs[k..j] == [bs[k]] + run;
    assert bs == xs + ([bs[k]] + (run + ys));
    var d := Block(Total(bs[k..j]), true, 0);
    assert xs + [d] + ys == xs + ([d] + ys);
    RunSizes(xs, bs[k], d, run, ys);
  }

  lemma ReleaseRun(bs: seq<Block>, k: nat) returns (j: nat)
    requires k < |bs|
    ensures k < j <= |bs| && AllFree(bs[k + 1..j]) && (j < |bs| ==> !bs[j].free)
    ensures Release(bs, k) == bs[..k] + [Block(Total(bs[k..j]), true, 0)] + bs[j..]
  {
    var fs := bs[k := Block(bs[k].size, true, 0)];
    j := AbsorbRun(fs, k);
    assert fs[..k] == bs[..k] && fs[k + 1..j] == bs[k + 1..j] && fs[j..] == bs[j..];
    assert bs[k..j] == [bs[k]] + bs[k + 1..j];
  }

  lemma RunSizes(xs: seq<Block>, b: Block, d: Block, run: seq<Block>, ys: seq<Block>)
    requires AllFree(run) && d.free && d.size == Total([b] + run) && !b.free
    ensures Total(xs + ([d] + ys)) == Total(xs + ([b] + (run + ys)))
    ensures SizeIf(xs + ([d] + ys), false) == SizeIf(xs + ([b] + (run + ys)), false) - b.size
    ensures SizeIf(xs + ([d] + ys), true) == SizeIf(xs + ([b] + (run + ys)), true) + b.size
  {
    SizeOfFree(run);
    Sizes(xs, [b] + (run + ys));
    Sizes([b], run + ys);
    Sizes(run, ys);
    Sizes(xs, [d] + ys);
    Sizes([d], ys);
    Sizes([b], run);
    assert Total([b]) == b.size && Total([d]) == d.size;
  }

  lemma Sizes(xs: seq<Block>, ys: seq<Block>)
    ensures Total(xs + ys) == Total(xs) + Total(ys)
    ensures SizeIf(xs + ys, true) == SizeIf(xs, true) + SizeIf(ys, true)
    ensures SizeIf(xs + ys, false) == SizeIf(xs, false) + SizeIf(ys, false)
  {
    TotalAppend(xs, ys);
    SizeIfAppend(xs, ys, true);
    SizeIfAppend(xs, ys, false);
  }

  // ----- writing into payloads -----

  function Updated(s: seq<Byte>, i: nat, x: Byte): seq<Byte>
    requires i < |s|
  {
    s[i := x]
  }

  lemma {:induction false} TotalMonotonic(bs: seq<Block>, i: nat, j: nat)
    requires i < j <= |bs|
    ensures Total(bs[..i]) + bs[i].size <= Total(bs[..j])
  {
    assert bs[..j] == bs[..j - 1] + [bs[j - 1]];
    TotalAppend(bs[..j - 1], [bs[j - 1]]);
    assert Total([bs[j - 1]]) == bs[j - 1].size;
    if i < j - 1 {
      TotalMonotonic(bs, i, j - 1);
    }
  }

  /** How many bytes there are behind a pointer in use; at least as many as were asked for. */
  ghost function Capacity(base: int, v: View, p: int): int
    requires IsBlock(base, v.blocks, p)
  {
    v.blocks[At(v.blocks, p - 2 - base)].size - 2
  }

  /** A payload lies inside the heap and holds what was asked for. */
  lemma PayloadInside(base: int, v: View, p: int)
    requires Sound(base, v) && p in Live(base, v)
    ensures IsBlock(base, v.blocks, p) && !v.blocks[At(v.blocks, p - 2 - base)].free
    ensures 1 <= |Live(base, v)[p]| <= Capacity(base, v, p)
    ensures Live(base, v)[p] == Slice(v.mem, p, |Live(base, v)[p]|)
    ensures 0 <= base && base + 2 <= p && p + Capacity(base, v, p) <= base + Total(v.blocks) <= 65534
    ensures Word16At(v.mem, p - 2) == Capacity(base, v, p) + 2
  {
    hide Slice, Word16At, Header, Even;
    LiveIsBlock(v.mem, base, v.blocks, p);
    var i := At(v.blocks, p - 2 - base);
    Walk(v.mem, base, v.blocks, i);
    Here(v.mem, base, v.blocks, i, p - 2);
    TotalMonotonic(v.blocks, i, |v.blocks|);
    assert v.blocks[..|v.blocks|] == v.blocks;
  }

  /** Two payloads lie apart. */
  lemma PayloadsApart(base: int, v: View, p: int, q: int)
    requires Sound(base, v) && p in Live(base, v) && q in Live(base, v) && p != q
    ensures IsBlock(base, v.blocks, p) && IsBlock(base, v.blocks, q)
    ensures p + Capacity(base, v, p) <= q - 2 || q + Capacity(base, v, q) <= p - 2
  {
    LiveIsBlock(v.mem, base, v.blocks, p);
    LiveIsBlock(v.mem, base, v.blocks, q);
    var i, j := At(v.blocks, p - 2 - base), At(v.blocks, q - 2 - base);
    if i < j {
      TotalMonotonic(v.blocks, i, j);
    } else {
      TotalMonotonic(v.blocks, j, i);
    }
  }

  /** Bytes of one payload are written: only that string changes. */
  lemma Written(base: int, v: View, m': Mem, p: int, n: nat)
    requires v.ready && Sound(base, v) && p in Live(base, v) && n <= |Live(base, v)[p]|
    requires Elsewhere(v.mem, m', p, p + n)
    ensures Sound(base, v.(mem := m'))
    ensures Live(base, v.(mem := m')) == Live(base, v)[p := Slice(m', p, |Live(base, v)[p]|)]
  {
    hide Headers, Strings, Put16, Slice, Total;
    LiveIsBlock(v.mem, base, v.blocks, p);
    var k := At(v.blocks, p - 2 - base);
    var b, xs, ys := v.blocks[k], v.blocks[..k], v.blocks[k + 1..];
    assert v.blocks == xs + [b] + ys;
    Walk(v.mem, base, v.blocks, k);
    Here(v.mem, base, v.blocks, k, p - 2);
    Rewrite(v.mem, m', base, xs, b, b, ys, p - 2);
    var live, o := Live(base, v), Own(m', p - 2, b);
    assert (live - {p}) + o == live[p := Slice(m', p, b.want)];
  }

  lemma SliceByte(m: Mem, p: int, n: nat, i: nat, x: Byte)
    requires 0 <= p && p + n <= 65536 && i < n
    ensures Slice(m[p + i := x], p, n) == Updated(Slice(m, p, n), i, x) && Elsewhere(m, m[p + i := x], p, p + n)
  {
  }

  lemma WrittenByte(base: int, v: View, m: Mem, p: int, i: nat, x: Byte)
    requires v.ready && Sound(base, v) && p in Live(base, v) && i < |Live(base, v)[p]|
    requires 0 <= p + i < 65536 && m == v.mem[p + i := x]
    ensures Sound(base, v.(mem := m))
    ensures Live(base, v.(mem := m)) == Live(base, v)[p := Updated(Live(base, v)[p], i, x)]
  {
    PayloadInside(base, v, p);
    var n := |Live(base, v)[p]|;
    SliceByte(v.mem, p, n, i, x);
    Written(base, v, m, p, n);
  }

  // ----- calloc and realloc -----

  function Zeros(n: nat): (z: seq<Byte>) { seq(n, _ => 0) }

  function Product(nmemb: Word, size: Word): nat { nmemb * size }

  /** The test `(nmemb | size) >= 256 && size > 0xFFFF / nmemb` of calloc. */
  predicate TooMany(nmemb: Word, size: Word)
    requires nmemb > 0
  {
    Bitwise(BitOr, nmemb, size, 16) >= 256 && size > 0xFFFF / nmemb
  }

  lemma {:induction false} OrAtLeast(x: nat, y: nat, n: nat, k: nat)
    requires x < Pow2(n) && y < Pow2(n) && k <= n
    ensures Bitwise(BitOr, x, y, n) >= Pow2(k) <==> x >= Pow2(k) || y >= Pow2(k)
    decreases n
  {
    if n == 0 {
    } else if k == 0 {
      OrAtLeast(x / 2, y / 2, n - 1, 0);
    } else {
      OrAtLeast(x / 2, y / 2, n - 1, k - 1);
    }
  }

  lemma OrOfWords(x: Word, y: Word)
    ensures Bitwise(BitOr, x, y, 16) >= 256 <==> x >= 256 || y >= 256
  {
    Pow2Values();
    OrAtLeast(x, y, 16, 8);
  }

  /** ... is exactly the test for a product of more than 16 bits. */
  lemma TooManyExact(nmemb: Word, size: Word)
    requires nmemb > 0
    ensures TooMany(nmemb, size) <==> Product(nmemb, size) > 0xFFFF
  {
    OrOfWords(nmemb, size);
    Quotient(0xFFFF, nmemb, size);
    if nmemb < 256 && size < 256 {
      MulMonotonic(nmemb, 255, size);
    }
  }

  /** `calloc` adds a string of `n` zeros. */
  ghost predicate CallocStep(base: int, v: View, n: nat, sp: Word, v': View, r: Word) {
    && (r == 0 <==> n > 0xFFFF || Refused(base, v, n, sp))
    && (r == 0 ==> v'.blocks == v.blocks && Live(base, v') == Live(base, v))
    && (r != 0 ==> v'.blocks == AfterMalloc(v.blocks, n) && r !in Live(base, v) && Live(base, v') == Live(base, v)[r := Zeros(n)])
    && Elsewhere(v.mem, v'.mem, base, base + Total(v'.blocks) + 2)
    && (Total(v'.blocks) > Total(v.blocks) ==> base + Total(v'.blocks) <= sp - STACK_MARGIN)
  }

  lemma Cleared(base: int, v: View, v1: View, m: Mem, n: Word, sp: Word, r: Word)
    requires v1.ready && Sound(base, v1) && MallocStep(base, v, n, sp, v1, r) && r != 0
    requires Elsewhere(v1.mem, m, r, r + n) && Slice(m, r, n) == Zeros(n)
    ensures Sound(base, v1.(mem := m)) && CallocStep(base, v, n, sp, v1.(mem := m), r)
  {
    PayloadInside(base, v1, r);
    Written(base, v1, m, r, n);
  }

  function Fill(m: Mem, p: int, bs: seq<Byte>): Mem {
    seq(65536, i requires 0 <= i < 65536 => if p <= i < p + |bs| then bs[i - p] else m[i])
  }

  lemma FillZeros(m: Mem, p: int, n: nat)
    requires 0 <= p && p + n <= 65536
    ensures Elsewhere(m, Fill(m, p, Zeros(n)), p, p + n) && Slice(Fill(m, p, Zeros(n)), p, n) == Zeros(n)
  {
    forall i | 0 <= i < n
      ensures Slice(Fill(m, p, Zeros(n)), p, n)[i] == 0
    {
    }
  }

  /** What `calloc` writes and returns. */
  function Calloced(base: int, v: View, nmemb: Word, size: Word, sp: Word): (View, Word) {
    if nmemb == 0 || size == 0 || TooMany(nmemb, size) then (v, 0)
    else
      TooManyExact(nmemb, size);
      var n := Product(nmemb, size);
      var (v1, r) := Malloced(base, v, n, sp);
      if r == 0 then (v1, 0) else (v1.(mem := Fill(v1.mem, r, Zeros(n))), r)
  }

  /** `calloc` keeps the chain and acts on the map. */
  lemma CallocEffect(base: int, v: View, nmemb: Word, size: Word, sp: Word)
    requires 0 < base <= 65534 && Sound(base, v)
    ensures var (v', r) := Calloced(base, v, nmemb, size, sp); Sound(base, v') && CallocStep(base, v, Product(nmemb, size), sp, v', r)
  {
    hide Sound, Chain, Live, Total, Malloced, Fill, Slice, TooMany, Refused, AfterMalloc;
    if nmemb == 0 || size == 0 {
      NoProduct(nmemb, size);
      AlwaysRefused(base, v, 0, sp);
      CallocNothing(base, v, 0, sp);
    } else {
      TooManyExact(nmemb, size);
      if TooMany(nmemb, size) {
        CallocNothing(base, v, Product(nmemb, size), sp);
      } else {
        var n := Product(nmemb, size);
        MallocEffect(base, v, n, sp);
        var (v1, r) := Malloced(base, v, n, sp);
        if r != 0 {
          AlwaysRefused(base, v, n, sp);
          PayloadInside(base, v1, r);
          FillZeros(v1.mem, r, n);
          Cleared(base, v, v1, Fill(v1.mem, r, Zeros(n)), n, sp, r);
        }
      }
    }
  }

  lemma NoProduct(nmemb: Word, size: Word)
    requires nmemb == 0 || size == 0
    ensures Product(nmemb, size) == 0
  {
  }

  lemma AlwaysRefused(base: int, v: View, size: int, sp: Word)
    ensures size <= 0 || size > 0xFFFB ==> Refused(base, v, size, sp)
  {
  }

  lemma CallocNothing(base: int, v: View, n: nat, sp: Word)
    requires n > 0xFFFF || Refused(base, v, n, sp)
    ensures CallocStep(base, v, n, sp, v, 0)
  {
  }

  /** A pointer in use stays so, with the same capacity, when another block is allocated. */
  lemma {:induction false} StillBlock(base: int, bs: seq<Block>, size: Word, p: int)
    requires size <= 0xFFFB && IsBlock(base, bs, p) && !bs[At(bs, p - 2 - base)].free
    requires forall i :: 0 <= i < |bs| ==> GoodBlock(bs[i])
    ensures IsBlock(base, AfterMalloc(bs, size), p)
    ensures At(AfterMalloc(bs, size), p - 2 - base) == At(bs, p - 2 - base)
    ensures AfterMalloc(bs, size)[At(bs, p - 2 - base)] == bs[At(bs, p - 2 - base)]
  {
    SameSizes(bs, AfterMalloc(bs, size), p - 2 - base);
  }

  lemma {:induction false} SameSizes(bs: seq<Block>, bs': seq<Block>, off: int)
    requires |bs| <= |bs'| && forall i :: 0 <= i < |bs| ==> bs'[i].size == bs[i].size
    requires At(bs, off) < |bs|
    ensures At(bs', off) == At(bs, off) && Total(bs'[..At(bs, off)]) == Total(bs[..At(bs, off)])
    decreases |bs|
  {
    if off > 0 {
      SameSizes(bs[1..], bs'[1..], off - bs[0].size);
      var k := At(bs[1..], off - bs[0].size);
      assert bs[..k + 1][1..] == bs[1..][..k] && bs'[..k + 1][1..] == bs'[1..][..k];
    }
  }

  predicate SamePrefix(s: seq<Byte>, t: seq<Byte>) { forall i :: 0 <= i < |s| && i < |t| ==> s[i] == t[i] }

  /**
   `realloc` of a pointer in use: refused, everything stays; else the string moves to a pointer not
   in use, its first bytes kept as far as both reach, all other strings unchanged.
   */
  ghost predicate MoveStep(base: int, v: View, p: int, size: Word, sp: Word, v': View, r: Word)
    requires p in Live(base, v) && IsBlock(base, v.blocks, p)
  {
    && (r == 0 <==> Refused(base, v, size, sp))
    && (r == 0 ==> v'.blocks == v.blocks && Live(base, v') == Live(base, v))
    && (r != 0 ==>
        && At(v.blocks, p - 2 - base) < |AfterMalloc(v.blocks, size)|
        && v'.blocks == Release(AfterMalloc(v.blocks, size), At(v.blocks, p - 2 - base))
        && r !in Live(base, v)
        && Live(base, v') == (Live(base, v) - {p})[r := Slice(v'.mem, r, size)]
        && SamePrefix(Slice(v'.mem, r, size), Live(base, v)[p]))
    && Elsewhere(v.mem, v'.mem, base, base + Total(v'.blocks) + 2)
    && (Total(v'.blocks) > Total(v.blocks) ==> base + Total(v'.blocks) <= sp - STACK_MARGIN)
  }

  ghost predicate ReallocStep(base: int, v: View, p: int, size: Word, sp: Word, v': View, r: Word)
    requires p == 0 || p in Live(base, v)
    requires p != 0 ==> IsBlock(base, v.blocks, p)
  {
    if size == 0 then r == 0 && FreeStep(base, v, p, v')
    else if p == 0 then MallocStep(base, v, size, sp, v', r)
    else MoveStep(base, v, p, size, sp, v', r)
  }

  predicate Copied(m: Mem, m': Mem, to: Word, from: Word, n: nat)
    requires to + n <= 65536 && from + n <= 65536
  {
    Elsewhere(m, m', to, to + n) && forall a :: to <= a < to + n ==> m'[a] == m[a - to + from]
  }

  /** The old block of a `realloc`, after its `malloc`. */
  lemma OldBlock(base: int, v: View, v1: View, p: Word, size: Word, sp: Word, r: Word)
    requires Sound(base, v) && p in Live(base, v) && Sound(base, v1) && r != 0
    requires MallocStep(base, v, size, sp, v1, r)
    ensures 2 <= p && IsBlock(base, v.blocks, p) && IsBlock(base, v1.blocks, p) && p != r
    ensures At(v1.blocks, p - 2 - base) == At(v.blocks, p - 2 - base) && !v1.blocks[At(v.blocks, p - 2 - base)].free
  {
    PayloadInside(base, v, p);
    Goods(v.mem, base, v.blocks);
    StillBlock(base, v.blocks, size, p);
  }

  lemma {:induction false} Goods(m: Mem, at: int, bs: seq<Block>)
    requires Headers(m, at, bs)
    ensures forall i :: 0 <= i < |bs| ==> GoodBlock(bs[i])
    decreases |bs|
  {
    if bs != [] {
      Goods(m, at + bs[0].size, bs[1..]);
    }
  }

  /** Both blocks of a `realloc` lie apart. */
  lemma BothBlocks(base: int, v: View, p: Word, r: Word, size: Word)
    requires Sound(base, v) && p in Live(base, v) && r in Live(base, v) && p != r && |Live(base, v)[r]| == size
    ensures IsBlock(base, v.blocks, p) && 2 <= p
    ensures Size(Word16At(v.mem, p - 2)) - 2 == Capacity(base, v, p) >= |Live(base, v)[p]|
    ensures p + Capacity(base, v, p) <= 65536 && r + size <= 65536
    ensures p + Capacity(base, v, p) <= r || r + size <= p
  {
    hide Chain, Headers, Strings, Put16, Word16At, Slice, Total;
    PayloadInside(base, v, p);
    PayloadInside(base, v, r);
    PayloadsApart(base, v, p, r);
    EvenBlock(base, v, p);
    EvenIs(Capacity(base, v, p) + 2);
  }

  lemma EvenBlock(base: int, v: View, p: int)
    requires Sound(base, v) && IsBlock(base, v.blocks, p)
    ensures Even(Capacity(base, v, p) + 2)
  {
    Goods(v.mem, base, v.blocks);
  }

  lemma CopiedPrefix(m: Mem, m': Mem, to: Word, from: Word, n: nat, size: nat, want: nat)
    requires to + n <= 65536 && from + n <= 65536 && Copied(m, m', to, from, n)
    requires n <= size && (n < size ==> n >= want) && to + size <= 65536 && from + want <= 65536
    ensures SamePrefix(Slice(m', to, size), Slice(m, from, want))
  {
    forall i | 0 <= i < size && i < want
      ensures Slice(m', to, size)[i] == Slice(m, from, want)[i]
    {
      assert m'[to + i] == m[to + i - to + from];
    }
  }

  /** A `realloc` that has copied the string and not yet freed the old block. */
  ghost predicate Halfway(base: int, v: View, v2: View, p: int, size: Word, sp: Word, r: Word) {
    && p in Live(base, v) && IsBlock(base, v.blocks, p) && IsBlock(base, v2.blocks, p) && p != r
    && !Refused(base, v, size, sp) && r != 0
    && v2.ready && v2.blocks == AfterMalloc(v.blocks, size) && r !in Live(base, v)
    && At(v2.blocks, p - 2 - base) == At(v.blocks, p - 2 - base) && !v2.blocks[At(v.blocks, p - 2 - base)].free
    && Live(base, v2) == Live(base, v)[r := Slice(v2.mem, r, size)]
    && SamePrefix(Slice(v2.mem, r, size), Live(base, v)[p])
    && Elsewhere(v.mem, v2.mem, base, base + Total(v2.blocks) + 2) && base + 2 <= p <= base + Total(v2.blocks)
    && (Total(v2.blocks) > Total(v.blocks) ==> base + Total(v2.blocks) <= sp - STACK_MARGIN)
  }

  lemma Half(base: int, v: View, v1: View, m: Mem, p: Word, size: Word, sp: Word, r: Word)
    requires Sound(base, v) && p in Live(base, v) && Sound(base, v1) && v1.ready && MallocStep(base, v, size, sp, v1, r) && r != 0
    requires Elsewhere(v1.mem, m, r, r + size) && SamePrefix(Slice(m, r, size), Live(base, v)[p])
    ensures Sound(base, v1.(mem := m)) && Halfway(base, v, v1.(mem := m), p, size, sp, r)
  {
    OldBlock(base, v, v1, p, size, sp, r);
    PayloadInside(base, v1, p);
    PayloadInside(base, v1, r);
    Written(base, v1, m, r, size);
  }

  lemma Moved(base: int, v: View, v2: View, v3: View, p: Word, size: Word, sp: Word, r: Word)
    requires Halfway(base, v, v2, p, size, sp, r) && Sound(base, v3) && FreeStep(base, v2, p, v3)
    ensures MoveStep(base, v, p, size, sp, v3, r)
  {
    PayloadInside(base, v3, r);
    var s := Slice(v2.mem, r, size);
    assert Live(base, v)[r := s] - {p} == (Live(base, v) - {p})[r := s];
  }

  /** How many bytes `realloc` copies: what the old block holds, or what was asked for if that is less. */
  function CopySize(m: Mem, p: int, size: Word): nat {
    var oldSize := Size(Word16At(m, Narrow(p - 2))) - 2;
    if oldSize < 0 then 0 else if oldSize < size then oldSize else size
  }

  function CopiedTo(m: Mem, r: int, p: int, n: nat): Mem { Fill(m, r, Slice(m, p, n)) }

  lemma CopiedToIs(m: Mem, r: Word, p: Word, n: nat)
    requires r + n <= 65536 && p + n <= 65536
    ensures Copied(m, CopiedTo(m, r, p, n), r, p, n)
  {
    forall a | r <= a < r + n
      ensures CopiedTo(m, r, p, n)[a] == m[a - r + p]
    {
    }
  }

  /** What `realloc` writes and returns. */
  function Realloced(base: int, v: View, p: Word, size: Word, sp: Word): (View, Word) {
    if size == 0 then (Freed(base, v, p), 0)
    else if p == 0 then Malloced(base, v, size, sp)
    else
      var (v1, r) := Malloced(base, v, size, sp);
      if r == 0 then (v1, 0)
      else (Freed(base, v1.(mem := CopiedTo(v1.mem, r, p, CopySize(v1.mem, p, size))), p), r)
  }

  /** The copy in the middle of a `realloc`. */
  lemma CopyEffect(base: int, v: View, p: Word, size: Word, sp: Word, v1: View, r: Word, m: Mem)
    requires 0 < base <= 65534 && Sound(base, v) && p in Live(base, v) && (v1, r) == Malloced(base, v, size, sp) && r != 0
    requires m == CopiedTo(v1.mem, r, p, CopySize(v1.mem, p, size))
    ensures Sound(base, v1.(mem := m)) && Halfway(base, v, v1.(mem := m), p, size, sp, r)
  {
    hide Chain, Malloced, Fill, CopiedTo, Slice, Word16At, Total, AfterMalloc, Strings, Halfway;
    MallocEffect(base, v, size, sp);
    MallocSize(base, v, size, sp);
    CopyRoom(base, v, v1, p, size, sp, r);
    var n := CopySize(v1.mem, p, size);
    CopiedToIs(v1.mem, r, p, n);
    CopiedPrefix(v1.mem, m, r, p, n, size, |Live(base, v)[p]|);
    CopiedInside(v1.mem, m, r, p, n, size);
    Half(base, v, v1, m, p, size, sp, r);
  }

  lemma CopiedInside(m: Mem, m': Mem, r: Word, p: Word, n: nat, size: Word)
    requires r + n <= 65536 && p + n <= 65536 && Copied(m, m', r, p, n) && n <= size
    ensures Elsewhere(m, m', r, r + size)
  {
  }

  lemma MallocSize(base: int, v: View, size: Word, sp: Word)
    ensures Malloced(base, v, size, sp).1 != 0 ==> 0 < size <= 0xFFFB
  {
  }

  /** The old string is still there after the `malloc`, and the copy fits both blocks. */
  lemma CopyRoom(base: int, v: View, v1: View, p: Word, size: Word, sp: Word, r: Word)
    requires Sound(base, v) && p in Live(base, v) && Sound(base, v1) && r != 0 && MallocStep(base, v, size, sp, v1, r)
    ensures var n := CopySize(v1.mem, p, size);
      p + n <= 65536 && r + n <= 65536 && n <= size && (n < size ==> n >= |Live(base, v)[p]|)
      && (p + n <= r || r + n <= p) && r + size <= 65536 && p + |Live(base, v)[p]| <= 65536 && Live(base, v)[p] == Slice(v1.mem, p, |Live(base, v)[p]|)
      && 2 <= p && Narrow(p - 2) == p - 2 && Size(Word16At(v1.mem, p - 2)) >= 2
  {
    hide Chain, Headers, Strings, Put16, Word16At, Total, Live, AfterMalloc;
    BothBlocks(base, v1, p, r, size);
    PayloadInside(base, v1, p);
  }

  /** `realloc` keeps the chain and acts on the map. */
  lemma ReallocEffect(base: int, v: View, p: Word, size: Word, sp: Word)
    requires 0 < base <= 65534 && Sound(base, v) && (p == 0 || (p in Live(base, v) && IsBlock(base, v.blocks, p)))
    ensures var (v', r) := Realloced(base, v, p, size, sp); Sound(base, v') && ReallocStep(base, v, p, size, sp, v', r)
  {
    hide Sound, Chain, Live, Malloced, Freed, CopiedTo, FreeStep, MallocStep, MoveStep, Halfway, CopySize;
    if size == 0 {
      FreeEffect(base, v, p);
    } else {
      MallocEffect(base, v, size, sp);
      var (v1, r) := Malloced(base, v, size, sp);
      if p == 0 {
      } else if r == 0 {
        MoveRefused(base, v, p, size, sp, v1);
      } else {
        var v2 := v1.(mem := CopiedTo(v1.mem, r, p, CopySize(v1.mem, p, size)));
        CopyEffect(base, v, p, size, sp, v1, r, v2.mem);
        HalfwayBlock(base, v, v2, p, size, sp, r);
        FreeEffect(base, v2, p);
        Moved(base, v, v2, Freed(base, v2, p), p, size, sp, r);
      }
    }
  }

  lemma HalfwayBlock(base: int, v: View, v2: View, p: int, size: Word, sp: Word, r: Word)
    requires Halfway(base, v, v2, p, size, sp, r)
    ensures IsBlock(base, v2.blocks, p)
  {
  }

  lemma MoveRefused(base: int, v: View, p: int, size: Word, sp: Word, v1: View)
    requires p in Live(base, v) && IsBlock(base, v.blocks, p) && MallocStep(base, v, size, sp, v1, 0)
    ensures MoveStep(base, v, p, size, sp, v1, 0)
  {
  }

  // ----- every run -----

  datatype Call =
    | CallMalloc(size: Word, sp: Word)
    | CallCalloc(nmemb: Word, size: Word, sp: Word)
    | CallRealloc(p: Word, size: Word, sp: Word)
    | CallFree(p: Word)
    | CallStore(p: Word, i: nat, x: Byte)      // the client writes a byte of a string

  /** What a call leaves in memory, and the pointer it returns. */
  function After(base: int, v: View, c: Call): (View, Word) {
    match c
    case CallMalloc(size, sp) => Malloced(base, v, size, sp)
    case CallCalloc(nmemb, size, sp) => Calloced(base, v, nmemb, size, sp)
    case CallRealloc(p, size, sp) => Realloced(base, v, p, size, sp)
    case CallFree(p) => (Freed(base, v, p), 0)
    case CallStore(p, i, x) => (v.(mem := v.mem[Narrow(p + i) := x]), 0)
  }

  /** The client passes null or a pointer in use, and writes inside its strings. */
  ghost predicate Allowed(base: int, v: View, c: Call) {
    match c
    case CallMalloc(_, _) => true
    case CallCalloc(_, _, _) => true
    case CallRealloc(p, _, _) => p == 0 || p in Live(base, v)
    case CallFree(p) => p == 0 || p in Live(base, v)
    case CallStore(p, i, _) => p in Live(base, v) && i < |Live(base, v)[p]|
  }

  /** The views of a heap along a run: each is what the call before it has written. */
  ghost predicate Trace(base: int, vs: seq<View>, cs: seq<Call>) {
    |vs| == |cs| + 1 && forall i :: 0 <= i < |cs| ==> Allowed(base, vs[i], cs[i]) && vs[i + 1] == After(base, vs[i], cs[i]).0
  }

  /** What a call does to the map. */
  ghost predicate Effect(base: int, v: View, c: Call, v': View, r: Word)
    requires Sound(base, v) && Allowed(base, v, c)
  {
    match c
    case CallMalloc(size, sp) => MallocStep(base, v, size, sp, v', r)
    case CallCalloc(nmemb, size, sp) => CallocStep(base, v, Product(nmemb, size), sp, v', r)
    case CallRealloc(p, size, sp) => LiveOrNull(base, v, p); ReallocStep(base, v, p, size, sp, v', r)
    case CallFree(p) => LiveOrNull(base, v, p); FreeStep(base, v, p, v')
    case CallStore(p, i, x) => v'.blocks == v.blocks && Live(base, v') == Live(base, v)[p := Updated(Live(base, v)[p], i, x)]
  }

  lemma LiveOrNull(base: int, v: View, p: int)
    requires Sound(base, v)
    ensures p in Live(base, v) ==> v.ready && IsBlock(base, v.blocks, p)
  {
    if p in Live(base, v) {
      PayloadInside(base, v, p);
    }
  }

  /** From a sound chain every allowed call, writing what it writes, leads to a sound chain. */
  lemma CallEffect(base: int, v: View, c: Call)
    requires 0 < base <= 65534 && Sound(base, v) && Allowed(base, v, c)
    ensures var (v', r) := After(base, v, c); Sound(base, v') && Effect(base, v, c, v', r)
  {
    hide Sound, Live, Malloced, Calloced, Realloced, Freed, MallocStep, CallocStep, ReallocStep, FreeStep;
    match c {
      case CallMalloc(size, sp) => MallocEffect(base, v, size, sp);
      case CallCalloc(nmemb, size, sp) => CallocEffect(base, v, nmemb, size, sp);
      case CallRealloc(p, size, sp) =>
        LiveOrNull(base, v, p);
        ReallocEffect(base, v, p, size, sp);
      case CallFree(p) =>
        LiveOrNull(base, v, p);
        FreeEffect(base, v, p);
      case CallStore(p, i, x) =>
        LiveOrNull(base, v, p);
        PayloadInside(base, v, p);
        WrittenByte(base, v, v.mem[p + i := x], p, i, x);
    }
  }

  /** The call is about the string at `q`. */
  predicate About(c: Call, q: int) {
    match c
    case CallMalloc(_, _) => false
    case CallCalloc(_, _, _) => false
    case CallRealloc(p, _, _) => p == q
    case CallFree(p) => p == q
    case CallStore(p, _, _) => p == q
  }

  predicate StackAtMost(c: Call, top: int) {
    match c
    case CallMalloc(_, sp) => sp <= top
    case CallCalloc(_, _, sp) => sp <= top
    case CallRealloc(_, _, sp) => sp <= top
    case _ => true
  }

  /** No call changes a string it is not about. */
  lemma OneCall(base: int, v: View, c: Call, q: int)
    requires 0 < base <= 65534 && Sound(base, v) && Allowed(base, v, c) && q in Live(base, v) && !About(c, q)
    ensures var v' := After(base, v, c).0; q in Live(base, v') && Live(base, v')[q] == Live(base, v)[q]
  {
    hide Sound, Live, After, Refused, AfterMalloc, Release, Total, Elsewhere;
    CallEffect(base, v, c);
  }

  lemma OneCallGrows(base: int, v: View, c: Call, top: int)
    requires 0 < base <= 65534 && Sound(base, v) && Allowed(base, v, c) && StackAtMost(c, top)
    ensures var v' := After(base, v, c).0;
      Total(v'.blocks) <= Total(v.blocks) || base + Total(v'.blocks) <= top - STACK_MARGIN
  {
    hide Sound, Live, After, Refused, AfterMalloc, Release, Total, Elsewhere;
    CallEffect(base, v, c);
  }

  /**
   Over every run of allowed calls from a sound heap, the heap stays a sound chain, no call changes a string
   it is not about, and the sentinel never comes closer to the highest stack pointer seen than the margin.
   */
  lemma {:induction false} EveryRunIsSafe(base: int, vs: seq<View>, cs: seq<Call>, n: nat, q: int, top: int)
    requires 0 < base <= 65534 && |vs| > 0 && Sound(base, vs[0]) && Trace(base, vs, cs) && n <= |cs|
    requires forall i :: 0 <= i < n ==> !About(cs[i], q) && StackAtMost(cs[i], top)
    ensures Sound(base, vs[n])
    ensures q in Live(base, vs[0]) ==> q in Live(base, vs[n]) && Live(base, vs[n])[q] == Live(base, vs[0])[q]
    ensures Total(vs[n].blocks) <= Total(vs[0].blocks) || base + Total(vs[n].blocks) <= top - STACK_MARGIN
  {
    hide Sound, Live, After, Total;
    if n > 0 {
      EveryRunIsSafe(base, vs, cs, n - 1, q, top);
      assert vs[n - 1 + 1] == After(base, vs[n - 1], cs[n - 1]).0;
      CallEffect(base, vs[n - 1], cs[n - 1]);
      OneCallGrows(base, vs[n - 1], cs[n - 1], top);
      if q in Live(base, vs[0]) {
        OneCall(base, vs[n - 1], cs[n - 1], q);
      }
    }
  }

  class Allocator {
    const mem: array<Byte>
    const base: Word           // the end of bss
    var heap: Word             // 0 before the first malloc
    ghost var blocks: seq<Block>

    ghost predicate Laid()
      reads this, mem
    {
      mem.Length == 65536 && 0 < base <= 65534 && (heap == 0 || heap == base)
    }

    ghost function Now(): View
      requires Laid()
      reads this, mem
    {
      View(mem[..], heap != 0, blocks)
    }

    ghost predicate Valid()
      reads this, mem
    {
      Laid() && Sound(base, Now())
    }

    constructor (mem: array<Byte>, base: Word)
      requires mem.Length == 65536 && 0 < base <= 65534
      ensures Valid() && this.mem == mem && this.base == base && Now() == View(mem[..], false, [])
    {
      this.mem, this.base, heap, blocks := mem, base, 0, [];
    }

    function Peek(a: Word): (w: Word)
      requires mem.Length == 65536 && a < 65535
      reads this, mem
      ensures w == Word16At(mem[..], a)
    {
      256 * (mem[a] as int) + mem[a + 1]
    }

    method Poke(a: Word, w: Word)
      requires mem.Length == 65536 && a < 65535
      modifies mem
      ensures mem[..] == Put16(old(mem[..]), a, w)
    {
      mem[a] := w / 256;
      mem[a + 1] := w % 256;
    }

    method Malloc(size: Word, sp: Word) returns (p: Word)
      requires Valid()
      modifies this`heap, this`blocks, mem
      ensures Valid() && MallocStep(base, old(Now()), size, sp, Now(), p)
      ensures (Now(), p) == Malloced(base, old(Now()), size, sp)
    {
      hide Sound, MallocStep, Malloced, Started;
      ghost var v := Now();
      MallocEffect(base, v, size, sp);
      if size == 0 || size > 0xFFFB {
        MallocNothing(base, v, size, sp);
        return 0;
      }
      StartedSound(base, v);
      StartedIs(base, v);
      if heap == 0 {
        heap := base;
        Poke(heap, 0);
      }
      assert Now() == Started(base, v);
      var required := Size(size + 1) + 2;
      p := Allocate(size, required, sp);
    }

    method Allocate(size: Word, required: Word, sp: Word) returns (p: Word)
      requires Valid() && heap != 0 && 0 < size <= 0xFFFB && required == Required(size)
      modifies this`blocks, mem
      ensures (Now(), p) == Malloced(base, old(Now()), size, sp)
    {
      var bp, found; ghost var i;
      bp, found, i := FindFree(required);
      if found {
        Poke(bp, Size(Peek(bp)));     // used flag
        blocks := AfterMalloc(blocks, size);
        p := bp + 2;
      } else {
        assert blocks[..|blocks|] == blocks;
        p := Append(bp, size, required, sp);
      }
    }

    /** Walk to the first free block that is large enough, or to the sentinel. */
    method FindFree(required: Word) returns (bp: Word, found: bool, ghost i: nat)
      requires Valid() && heap != 0 && required >= 4
      ensures i == FirstFit(blocks, required) && bp == base + Total(blocks[..i]) && bp <= 65534
      ensures found <==> i < |blocks|
      ensures found ==> GoodBlock(blocks[i]) && Size(Peek(bp)) == blocks[i].size && bp + blocks[i].size <= 65534
    {
      hide Total, Chain, GoodBlock;
      bp, found, i := heap, false, 0;
      ghost var m := mem[..];
      TotalNone();
      assert blocks[..0] == [] && blocks[0..] == blocks;
      while Peek(bp) != 0
        invariant 0 <= i <= |blocks| && bp == base + Total(blocks[..i]) && bp <= 65534
        invariant Chain(m, bp, blocks[i..])
        invariant forall j :: 0 <= j < i ==> !Fits(blocks[j], required)
        decreases |blocks| - i
      {
        Here(m, base, blocks, i, bp);
        var header := Peek(bp);
        if header % 2 == 1 && Size(header) >= required {
          found := true;
          return;
        }
        bp := bp + Size(header);
        i := i + 1;
      }
      Here(m, base, blocks, i, bp);
    }

    /** Make the sentinel a block and write a new sentinel, unless that comes too close to the stack. */
    method Append(bp: Word, size: Word, required: Word, sp: Word) returns (p: Word)
      requires Valid() && heap != 0 && 0 < size <= 0xFFFB && bp == base + Total(blocks) && required == Required(size)
      requires FirstFit(blocks, required) == |blocks| && bp <= 65534
      modifies this`blocks, mem
      ensures (Now(), p) == Malloced(base, old(Now()), size, sp)
    {
      hide Sound, Total, AfterMalloc, FirstFit, Put16;
      assert blocks[..|blocks|] == blocks;
      if sp < STACK_MARGIN {
        return 0;
      }
      var limit := sp - STACK_MARGIN;
      if limit < bp || limit - bp < required {
        return 0;
      }
      Poke(bp, required);
      var sentinel := bp + required;
      Poke(sentinel, 0);
      blocks := AfterMalloc(blocks, size);
      p := bp + 2;
    }

    method Free(p: Word)
      requires Valid() && (p == 0 || heap == 0 || IsBlock(base, blocks, p))
      modifies this`blocks, mem
      ensures Valid() && FreeStep(base, old(Now()), p, Now()) && Now() == Freed(base, old(Now()), p)
    {
      if p == 0 || heap == 0 {
        return;
      }
      ghost var v, k := Now(), At(blocks, p - 2 - base);
      var bp := p - 2;
      Walk(mem[..], base, blocks, k);
      Here(mem[..], base, blocks, k, bp);
      if Peek(bp) % 2 == 1 {     // already free
        return;
      }
      Release1(bp, k);
      Merge(bp, k);
      assert bp + 2 == p;
      FreedOnly(base, v, p, Now());
    }

    method Release1(bp: Word, ghost k: nat)
      requires Valid() && heap != 0 && k < |blocks| && !blocks[k].free && bp <= 65534
      requires bp == base + Total(blocks[..k]) && Peek(bp) == blocks[k].size && Peek(bp) % 2 == 0
      modifies this`blocks, mem
      ensures Valid() && Merging(base, Now(), k, bp) && Total(blocks) == old(Total(blocks))
      ensures blocks == old(blocks)[k := Block(old(blocks)[k].size, true, 0)]
      ensures Live(base, Now()) == old(Live(base, Now())) - {bp + 2} && Elsewhere(old(mem[..]), mem[..], bp, bp + 2)
    {
      ghost var v, h := Now(), Peek(bp) + 1;
      ghost var v' := View(Put16(v.mem, bp, h), true, blocks[k := Block(blocks[k].size, true, 0)]);
      FreedStep(base, v, v', k, bp, h);
      Poke(bp, Peek(bp) + 1);     // set flag free
      blocks := v'.blocks;
      assert Now() == v';
    }

    /** Append the free blocks that follow. */
    method Merge(bp: Word, ghost k: nat)
      requires Laid() && heap != 0 && Merging(base, Now(), k, bp)
      modifies this`blocks, mem
      ensures Valid() && blocks == Absorb(old(blocks), k) && Total(blocks) == old(Total(blocks))
      ensures Live(base, Now()) == old(Live(base, Now())) && Elsewhere(old(mem[..]), mem[..], bp, bp + 2)
    {
      ghost var v := Now();
      Next(base, v, k, bp, bp + blocks[k].size);
      var next := bp + Size(Peek(bp));
      while Peek(next) % 2 == 1
        invariant Laid() && heap != 0 && Merging(base, Now(), k, bp) && next == bp + blocks[k].size && next <= 65534
        invariant Absorb(blocks, k) == Absorb(v.blocks, k) && Total(blocks) == Total(v.blocks)
        invariant Live(base, Now()) == Live(base, v) && Elsewhere(v.mem, mem[..], bp, bp + 2)
        decreases |blocks|
      {
        Next(base, Now(), k, bp, next);
        MergeNext(bp, next, k);
        Next(base, Now(), k, bp, bp + blocks[k].size);
        next := bp + Size(Peek(bp));
      }
      Next(base, Now(), k, bp, next);
    }

    method MergeNext(bp: Word, next: Word, ghost k: nat)
      requires Laid() && heap != 0 && Merging(base, Now(), k, bp) && next == bp + blocks[k].size && next <= 65534
      requires k + 1 < |blocks| && blocks[k + 1].free
      modifies this`blocks, mem
      ensures Laid() && Merging(base, Now(), k, bp) && blocks == Joined(old(blocks), k)
      ensures Total(blocks) == old(Total(blocks))
      ensures Live(base, Now()) == old(Live(base, Now())) && Elsewhere(old(mem[..]), mem[..], bp, bp + 2)
    {
      ghost var v := Now();
      Next(base, v, k, bp, next);
      var h := Size(Peek(bp)) + Size(Peek(next)) + 1;
      ghost var v' := View(Put16(v.mem, bp, h), true, Joined(blocks, k));
      JoinedStep(base, v, v', k, bp, h);
      Poke(bp, h);
      blocks := v'.blocks;
      assert Now() == v';
    }

    method MemSet(p: Word, n: nat)
      requires mem.Length == 65536 && p + n <= 65536
      modifies mem
      ensures mem[..] == Fill(old(mem[..]), p, Zeros(n))
    {
      var i := 0;
      while i < n
        invariant 0 <= i <= n && Elsewhere(old(mem[..]), mem[..], p, p + n)
        invariant forall j :: p <= j < p + i ==> mem[j] == 0
      {
        mem[p + i] := 0;
        i := i + 1;
      }
    }

    method Calloc(nmemb: Word, size: Word, sp: Word) returns (p: Word)
      requires Valid()
      modifies this`heap, this`blocks, mem
      ensures Valid() && CallocStep(base, old(Now()), Product(nmemb, size), sp, Now(), p)
      ensures (Now(), p) == Calloced(base, old(Now()), nmemb, size, sp)
    {
      hide Sound, CallocStep, MallocStep, Malloced, TooMany, Fill, Chain;
      ghost var v := Now();
      CallocEffect(base, v, nmemb, size, sp);
      if nmemb == 0 || size == 0 {
        return 0;
      }
      if TooMany(nmemb, size) {
        return 0;
      }
      TooManyExact(nmemb, size);
      p := Malloc(Product(nmemb, size), sp);
      if p != 0 {
        MallocFits(base, v, Product(nmemb, size), sp, Now(), p);
        MemSet(p, Product(nmemb, size));
      }
    }

    method MemCpy(to: Word, from: Word, n: nat)
      requires mem.Length == 65536 && to + n <= 65536 && from + n <= 65536
      requires from + n <= to || to + n <= from
      modifies mem
      ensures mem[..] == CopiedTo(old(mem[..]), to, from, n)
    {
      ghost var m := mem[..];
      var i := 0;
      while i < n
        invariant 0 <= i <= n && Elsewhere(m, mem[..], to, to + n)
        invariant forall a :: to <= a < to + i ==> mem[a] == m[a - to + from]
      {
        mem[to + i] := mem[from + i];
        i := i + 1;
      }
      CopiedToIs(m, to, from, n);
    }

    method Realloc(p: Word, size: Word, sp: Word) returns (r: Word)
      requires Valid() && (p == 0 || (p in Live(base, Now()) && IsBlock(base, blocks, p)))
      modifies this`heap, this`blocks, mem
      ensures Valid() && ReallocStep(base, old(Now()), p, size, sp, Now(), r)
      ensures (Now(), r) == Realloced(base, old(Now()), p, size, sp)
    {
      hide Sound, ReallocStep, MallocStep, Malloced, CopiedTo, CopySize, Freed, FreeStep, Halfway, Live;
      ghost var v := Now();
      ReallocEffect(base, v, p, size, sp);
      if size == 0 {
        Free(p);
        return 0;
      }
      r := Malloc(size, sp);
      if p != 0 && r != 0 {
        ghost var v1 := Now();
        CopyOver(p, r, size, v, sp);
        CopyEffect(base, v, p, size, sp, v1, r, mem[..]);
        HalfwayBlock(base, v, Now(), p, size, sp, r);
        Free(p);
      }
    }

    method CopyOver(p: Word, r: Word, size: Word, ghost v: View, ghost sp: Word)
      requires Valid() && Sound(base, v) && p in Live(base, v)
      requires r != 0 && MallocStep(base, v, size, sp, Now(), r)
      modifies mem
      ensures mem[..] == CopiedTo(old(mem[..]), r, p, CopySize(old(mem[..]), p, size))
    {
      hide Sound, MallocStep, CopiedTo, Live;
      ghost var v1 := Now();
      CopyRoom(base, v, v1, p, size, sp, r);
      var oldSize := Size(Peek(p - 2)) - 2;
      MemCpy(r, p, if oldSize < size then oldSize else size);
    }

    /** A client writes one byte of a string of its own. */
    method Store(p: Word, i: nat, x: Byte)
      requires Valid() && heap != 0 && p in Live(base, Now()) && i < |Live(base, Now())[p]|
      requires p + i < 65536
      modifies mem
      ensures Valid() && Now() == old(Now()).(mem := mem[..])
      ensures Live(base, Now()) == old(Live(base, Now()))[p := Updated(old(Live(base, Now()))[p], i, x)]
      ensures mem[..] == old(mem[..])[p + i := x]
    {
      ghost var v := Now();
      PayloadInside(base, v, p);
      mem[p + i] := x;
      WrittenByte(base, v, mem[..], p, i, x);
    }

    /** One call of a client. */
    method Perform(c: Call) returns (r: Word)
      requires Valid() && Allowed(base, Now(), c)
      modifies this`heap, this`blocks, mem
      ensures Valid() && (Now(), r) == After(base, old(Now()), c)
    {
      hide Sound, Live, Malloced, Calloced, Realloced, Freed, MallocStep, CallocStep, ReallocStep, FreeStep;
      r := 0;
      match c {
        case CallMalloc(size, sp) => r := Malloc(size, sp);
        case CallCalloc(nmemb, size, sp) => r := Calloc(nmemb, size, sp);
        case CallRealloc(p, size, sp) =>
          LiveOrNull(base, Now(), p);
          r := Realloc(p, size, sp);
        case CallFree(p) =>
          LiveOrNull(base, Now(), p);
          Free(p);
        case CallStore(p, i, x) =>
          LiveOrNull(base, Now(), p);
          PayloadInside(base, Now(), p);
          Store(p, i, x);
      }
    }

    /** A whole run: the allocator goes through exactly the views of the trace, and stays valid. */
    method PerformAll(cs: seq<Call>, ghost vs: seq<View>) returns (rs: seq<Word>)
      requires Valid() && Trace(base, vs, cs) && vs[0] == Now()
      modifies this`heap, this`blocks, mem
      ensures Valid() && Now() == vs[|cs|]
      ensures |rs| == |cs| && forall i :: 0 <= i < |cs| ==> rs[i] == After(base, vs[i], cs[i]).1
    {
      hide Sound, After, Allowed;
      rs := [];
      for n := 0 to |cs|
        invariant Valid() && Now() == vs[n] && |rs| == n
        invariant forall i :: 0 <= i < n ==> rs[i] == After(base, vs[i], cs[i]).1
      {
        assert Allowed(base, vs[n], cs[n]) && vs[n + 1] == After(base, vs[n], cs[n]).0;
        var r := Perform(cs[n]);
        rs := rs + [r];
      }
    }
  }
}
