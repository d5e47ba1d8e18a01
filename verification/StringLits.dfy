/** Quoting a string (quote_string, preprocess.c) and reading a string literal (tokenize.c). */
module StringLits {
  import opened Arith
  import opened Options

  const NUL: Byte := 0
  const NEWLINE: Byte := 10
  const QUOTE: Byte := 34
  const BACKSLASH: Byte := 92

  // ----- quote_string -----

  function Escaped(b: Byte): seq<Byte> { if b == BACKSLASH || b == QUOTE then [BACKSLASH, b] else [b] }

  function Inside(str: seq<Byte>): seq<Byte> { if str == [] then [] else Escaped(str[0]) + Inside(str[1..]) }

  /** The literal that denotes `str`. */
  function Quoted(str: seq<Byte>): seq<Byte> { [QUOTE] + Inside(str) + [QUOTE] }

  lemma {:induction false} InsideGrows(str: seq<Byte>, i: nat)
    requires i < |str|
    ensures Inside(str[..i + 1]) == Inside(str[..i]) + Escaped(str[i])
  {
    if i == 0 {
      assert str[..1][1..] == [];
    } else {
      InsideGrows(str[1..], i - 1);
      assert str[..i + 1][1..] == str[1..][..i];
      assert str[..i][1..] == str[1..][..i - 1];
    }
  }

  lemma {:induction false} InsideLonger(str: seq<Byte>, i: nat)
    requires i <= |str|
    ensures |Inside(str[..i])| <= |Inside(str)|
    decreases |str| - i
  {
    if i == |str| {
      assert str[..i] == str;
    } else {
      InsideGrows(str, i);
      InsideLonger(str, i + 1);
    }
  }

  lemma InsideNone()
    ensures Inside([]) == []
  {
  }

  /** The buffer is counted out in a first pass and filled, to its last byte, in a second. */
  method QuoteString(str: seq<Byte>) returns (buf: array<Byte>)
    ensures fresh(buf) && buf[..] == Quoted(str) + [NUL]
  {
    hide Inside;
    InsideNone();
    var bufsize := 3;
    var i := 0;
    while i < |str|
      invariant 0 <= i <= |str|
      invariant bufsize == 3 + |Inside(str[..i])|
    {
      InsideGrows(str, i);
      if str[i] == BACKSLASH || str[i] == QUOTE { bufsize := bufsize + 1; }
      bufsize := bufsize + 1;
      i := i + 1;
    }
    assert str[..i] == str;
    buf := new Byte[bufsize];
    var p := 0;
    buf[p] := QUOTE;
    p := p + 1;
    i := 0;
    while i < |str|
      invariant 0 <= i <= |str|
      invariant p == 1 + |Inside(str[..i])| <= buf.Length
      invariant buf[..p] == [QUOTE] + Inside(str[..i])
    {
      InsideGrows(str, i);
      InsideLonger(str, i + 1);
      ghost var was := buf[..p];
      if str[i] == BACKSLASH || str[i] == QUOTE {
        buf[p] := BACKSLASH;
        p := p + 1;
      }
      buf[p] := str[i];
      p := p + 1;
      assert buf[..p] == was + Escaped(str[i]);
      assert [QUOTE] + Inside(str[..i]) + Escaped(str[i]) == [QUOTE] + (Inside(str[..i]) + Escaped(str[i]));
      i := i + 1;
    }
    assert str[..i] == str;
    buf[p] := QUOTE;
    buf[p + 1] := NUL;
    assert buf[..] == buf[..p] + [QUOTE] + [NUL];
  }

  // ----- string_literal_end -----

  /** A source text as the earlier passes leave it: it ends in a newline and NUL, and no backslash stands before either. */
  predicate Source(text: seq<Byte>) {
    && |text| >= 2 && text[|text| - 1] == NUL && text[|text| - 2] == NEWLINE
    && forall i :: 0 <= i < |text| - 1 && text[i] == BACKSLASH ==> text[i + 1] != NEWLINE && text[i + 1] != NUL
  }

  /** Where the literal whose inside begins at `p` ends. */
  function EndOf(text: seq<Byte>, p: nat): (r: Option<nat>)
    ensures r.Some? ==> p <= r.value < |text| && text[r.value] == QUOTE
    decreases |text| - p
  {
    if p >= |text| || text[p] == NEWLINE || text[p] == NUL then None
    else if text[p] == QUOTE then Some(p)
    else if text[p] == BACKSLASH then EndOf(text, p + 2)
    else EndOf(text, p + 1)
  }

  method StringLiteralEnd(text: seq<Byte>, start: nat) returns (end: Option<nat>)
    requires Source(text) && start < |text|
    ensures end == EndOf(text, start)
  {
    var p := start;
    while text[p] != QUOTE
      invariant p < |text| && EndOf(text, p) == EndOf(text, start)
      decreases |text| - p
    {
      if text[p] == NEWLINE || text[p] == NUL { return None; }
      if text[p] == BACKSLASH {
        p := p + 1;
      }
      p := p + 1;
    }
    end := Some(p);
  }

  // ----- read_escaped_char -----

  predicate IsOctal(b: Byte) { 48 <= b <= 55 }
  predicate IsHex(b: Byte) { 48 <= b <= 57 || 65 <= b <= 70 || 97 <= b <= 102 }

  function FromHex(b: Byte): int {
    if 48 <= b <= 57 then b - 48 else if 97 <= b <= 102 then b - 97 + 10 else b - 65 + 10
  }

  datatype Escape = Escape(code: int, next: nat) | BadHex

  /** An int of the host, 32 bits, wrapping around. */
  function HostInt(n: int): int {
    var r := n % 0x1_0000_0000;
    if r < 0x8000_0000 then r else r - 0x1_0000_0000
  }

  /** The value of a run of hexadecimal digits, `c` read so far. */
  function HexRun(text: seq<Byte>, p: nat, c: int): (r: Escape)
    requires p <= |text|
    ensures r.Escape? && p <= r.next <= |text|
    decreases |text| - p
  {
    if p < |text| && IsHex(text[p]) then HexRun(text, p + 1, HostInt(16 * c + FromHex(text[p]))) else Escape(c, p)
  }

  /** Up to three octal digits. */
  function OctalRun(text: seq<Byte>, p: nat, c: int, left: nat): (r: Escape)
    requires p <= |text|
    ensures r.Escape? && p <= r.next <= |text|
    decreases left
  {
    if left > 0 && p < |text| && IsOctal(text[p]) then OctalRun(text, p + 1, 8 * c + (text[p] - 48), left - 1) else Escape(c, p)
  }

  /** The letters with a meaning of their own. */
  function Letter(b: Byte): Byte {
    match b
    case 97 => 7
    case 98 => 8
    case 116 => 9
    case 110 => 10
    case 118 => 11
    case 102 => 12
    case 114 => 13
    case 101 => 27
    case _ => b
  }

  /** What follows a backslash, from `p` on. */
  function EscapeAt(text: seq<Byte>, p: nat): Escape
    requires p < |text|
  {
    if IsOctal(text[p]) then OctalRun(text, p, 0, 3)
    else if text[p] == 120 then (if p + 1 < |text| && IsHex(text[p + 1]) then HexRun(text, p + 1, 0) else BadHex)
    else Escape(Letter(text[p]), p + 1)
  }

  const LOWER_DIGITS: seq<Byte> := [48, 49, 50, 51, 52, 53, 54, 55, 56, 57, 97, 98, 99, 100, 101, 102]
  const UPPER_DIGITS: seq<Byte> := [48, 49, 50, 51, 52, 53, 54, 55, 56, 57, 65, 66, 67, 68, 69, 70]

  /** A hexadecimal digit is one of 0123456789abcdef or 0123456789ABCDEF, and counts as its place there; octal ones are the first eight. */
  lemma DigitsMean(b: Byte)
    ensures IsHex(b) <==> b in LOWER_DIGITS || b in UPPER_DIGITS
    ensures IsHex(b) ==> 0 <= FromHex(b) < 16 && (b == LOWER_DIGITS[FromHex(b)] || b == UPPER_DIGITS[FromHex(b)])
    ensures IsOctal(b) <==> b in LOWER_DIGITS[..8]
    ensures IsOctal(b) ==> FromHex(b) == b - 48
  {
    assert IsHex(b) ==> b == LOWER_DIGITS[FromHex(b)] || b == UPPER_DIGITS[FromHex(b)];
    assert IsOctal(b) ==> b == LOWER_DIGITS[..8][b - 48];
  }

  /** The number that digits spell, the last one counting once. */
  function Spelled(digits: seq<Byte>, base: nat): int {
    if digits == [] then 0 else base * Spelled(digits[..|digits| - 1], base) + FromHex(digits[|digits| - 1])
  }

  lemma SpelledNext(text: seq<Byte>, from: nat, p: nat, base: nat)
    requires from <= p < |text|
    ensures Spelled(text[from..p + 1], base) == base * Spelled(text[from..p], base) + FromHex(text[p])
  {
    assert text[from..p + 1][..p - from] == text[from..p];
  }

  /** The host's int keeps a number modulo 2^32 and lies in its range. */
  lemma HostIntMeans(c: int)
    ensures -0x8000_0000 <= HostInt(c) < 0x8000_0000 && (HostInt(c) - c) % 0x1_0000_0000 == 0
  {
    var w := 0x1_0000_0000;
    assert c == w * (c / w) + c % w;
    DivModUnique(HostInt(c) - c, if c % w < 0x8000_0000 then -(c / w) else -(c / w) - 1, 0, w);
  }

  lemma HostIntNext(c: int, d: int)
    ensures HostInt(16 * HostInt(c) + d) == HostInt(16 * c + d)
  {
    var w := 0x1_0000_0000;
    var k := (c - HostInt(c)) / w;
    assert c - HostInt(c) == w * k by {
      assert c == w * (c / w) + c % w;
      if c % w < 0x8000_0000 {
        DivModUnique(c - HostInt(c), c / w, 0, w);
      } else {
        DivModUnique(c - HostInt(c), c / w + 1, 0, w);
      }
    }
    ModShift(16 * HostInt(c) + d, 16 * k, w);
    assert 16 * c + d == 16 * HostInt(c) + d + w * (16 * k);
  }

  /** The run of hexadecimal digits goes as far as it can and is the number it spells, in an int of the host. */
  lemma {:induction false} HexRunMeans(text: seq<Byte>, from: nat, p: nat, c: int)
    requires from <= p <= |text| && c == HostInt(Spelled(text[from..p], 16))
    ensures var r := HexRun(text, p, c);
      && (forall i :: p <= i < r.next ==> IsHex(text[i])) && (r.next < |text| ==> !IsHex(text[r.next]))
      && r.code == HostInt(Spelled(text[from..r.next], 16))
    decreases |text| - p
  {
    hide HostInt, Spelled;
    if p < |text| && IsHex(text[p]) {
      SpelledNext(text, from, p, 16);
      HostIntNext(Spelled(text[from..p], 16), FromHex(text[p]));
      HexRunMeans(text, from, p + 1, HostInt(16 * c + FromHex(text[p])));
    }
  }

  /** Up to three octal digits, as many as there are, and the number they spell. */
  lemma {:induction false} OctalRunMeans(text: seq<Byte>, from: nat, p: nat, c: int, left: nat)
    requires from <= p <= |text| && c == Spelled(text[from..p], 8)
    ensures var r := OctalRun(text, p, c, left);
      && r.next <= p + left && (forall i :: p <= i < r.next ==> IsOctal(text[i]))
      && (r.next < |text| && r.next < p + left ==> !IsOctal(text[r.next]))
      && r.code == Spelled(text[from..r.next], 8)
    decreases left
  {
    hide Spelled;
    if left > 0 && p < |text| && IsOctal(text[p]) {
      SpelledNext(text, from, p, 8);
      OctalRunMeans(text, from, p + 1, 8 * c + (text[p] - 48), left - 1);
    }
  }

  /**
   What an escape stands for: up to three octal digits, all hexadecimal digits after an x, the control codes BEL, BS,
   HT, LF, VT, FF and CR for a, b, t, n, v, f and r, ESC for e, and otherwise the byte itself.
   */
  lemma EscapeMeans(text: seq<Byte>, p: nat)
    requires p < |text|
    ensures var r, b := EscapeAt(text, p), text[p];
      if IsOctal(b) then
        && r.Escape? && p < r.next <= p + 3 && r.code == Spelled(text[p..r.next], 8)
        && (forall i :: p <= i < r.next ==> IsOctal(text[i])) && (r.next < |text| && r.next < p + 3 ==> !IsOctal(text[r.next]))
      else if b == 'x' as int then
        if p + 1 < |text| && IsHex(text[p + 1]) then
          && r.Escape? && p + 1 < r.next && r.code == HostInt(Spelled(text[p + 1..r.next], 16))
          && (forall i :: p < i < r.next ==> IsHex(text[i])) && (r.next < |text| ==> !IsHex(text[r.next]))
        else r.BadHex?
      else r.Escape? && r.next == p + 1 && IsControl(b, r.code)
  {
    hide Letter, HostInt, Spelled;
    SpelledNone(text, p);
    if IsOctal(text[p]) {
      OctalRunMeans(text, p, p, 0, 3);
    } else if text[p] == 'x' as int {
      if p + 1 < |text| {
        SpelledNone(text, p + 1);
        HexRunMeans(text, p + 1, p + 1, 0);
      }
    } else {
      LetterMeans(text[p]);
    }
  }

  lemma SpelledNone(text: seq<Byte>, p: nat)
    requires p <= |text|
    ensures Spelled(text[p..p], 16) == 0 == Spelled(text[p..p], 8) && HostInt(0) == 0
  {
  }

  const CONTROLS: seq<(char, Byte)> := [('a', 7), ('b', 8), ('t', 9), ('n', 10), ('v', 11), ('f', 12), ('r', 13), ('e', 27)]

  /** `code` is the control code that `b` names, or `b` itself if it names none. */
  predicate IsControl(b: Byte, code: int) {
    && (forall c :: c in CONTROLS && b == c.0 as int ==> code == c.1)
    && ((forall c :: c in CONTROLS ==> b != c.0 as int) ==> code == b)
  }

  lemma LetterMeans(b: Byte)
    ensures IsControl(b, Letter(b))
  {
    assert forall i :: 0 <= i < |CONTROLS| && b == CONTROLS[i].0 as int ==> Letter(b) == CONTROLS[i].1;
    if forall c :: c in CONTROLS ==> b != c.0 as int {
      assert forall i :: 0 <= i < |CONTROLS| ==> CONTROLS[i] in CONTROLS;
    }
  }

  method ReadEscapedChar(text: seq<Byte>, start: nat) returns (r: Escape)
    requires Source(text) && start < |text| - 1
    ensures r == EscapeAt(text, start)
  {
    var p := start;
    if IsOctal(text[p]) {
      var c: int := text[p] - 48;
      p := p + 1;
      if IsOctal(text[p]) {
        c := 8 * c + (text[p] - 48);
        p := p + 1;
        if IsOctal(text[p]) {
          c := 8 * c + (text[p] - 48);
          p := p + 1;
        }
      }
      return Escape(c, p);
    }
    if text[p] == 120 {
      p := p + 1;
      if !IsHex(text[p]) { return BadHex; }
      var c := 0;
      while IsHex(text[p])
        invariant start < p < |text| && HexRun(text, p, c) == HexRun(text, start + 1, 0)
        decreases |text| - p
      {
        c := HostInt(16 * c + FromHex(text[p]));
        p := p + 1;
      }
      return Escape(c, p);
    }
    r := Escape(Letter(text[p]), p + 1);
  }

  // ----- read_string_literal -----

  /** The bytes between `p` and `end`; None for a malformed escape. */
  function Bytes(text: seq<Byte>, p: nat, end: nat): Option<seq<Byte>>
    requires end < |text|
    decreases |text| - p
  {
    if p >= end then Some([])
    else if text[p] != BACKSLASH then
      var rest := Bytes(text, p + 1, end);
      if rest.None? then None else Some([text[p]] + rest.value)
    else if p + 1 >= |text| || EscapeAt(text, p + 1).BadHex? then None
    else
      var e := EscapeAt(text, p + 1);
      if e.next <= p then None
      else
        var rest := Bytes(text, e.next, end);
        if rest.None? then None else Some([e.code % 256] + rest.value)
  }

  lemma {:induction false} HexSkips(text: seq<Byte>, p: nat, c: int, end: nat)
    requires p <= |text| && EndOf(text, p) == Some(end)
    ensures EndOf(text, HexRun(text, p, c).next) == Some(end)
    decreases |text| - p
  {
    hide HostInt;
    if p < |text| && IsHex(text[p]) {
      HexSkips(text, p + 1, HostInt(16 * c + FromHex(text[p])), end);
    }
  }

  lemma {:induction false} OctalSkips(text: seq<Byte>, p: nat, c: int, left: nat, end: nat)
    requires p <= |text| && EndOf(text, p) == Some(end)
    ensures EndOf(text, OctalRun(text, p, c, left).next) == Some(end)
    decreases left
  {
    if left > 0 && p < |text| && IsOctal(text[p]) {
      OctalSkips(text, p + 1, 8 * c + (text[p] - 48), left - 1, end);
    }
  }

  /** An escape that the scanner skipped as two characters is read without passing the end it found. */
  lemma EscapeStaysInside(text: seq<Byte>, p: nat, end: nat)
    requires EndOf(text, p) == Some(end) && p < end && text[p] == BACKSLASH
    ensures p + 1 < end && EndOf(text, p + 2) == Some(end)
    ensures EscapeAt(text, p + 1).Escape? ==> p + 1 < EscapeAt(text, p + 1).next <= end && EndOf(text, EscapeAt(text, p + 1).next) == Some(end)
  {
    var b := text[p + 1];
    if IsOctal(b) {
      OctalSkips(text, p + 2, b - 48, 2, end);
      assert OctalRun(text, p + 1, 0, 3) == OctalRun(text, p + 2, b - 48, 2);
    } else if b == 120 {
      HexSkips(text, p + 2, 0, end);
    }
  }

  /** Reads the literal at `quote`: the bytes fit the buffer made for them, and reading stops at the closing quote. */
  method ReadStringLiteral(text: seq<Byte>, quote: nat) returns (r: Option<seq<Byte>>, end: nat)
    requires Source(text) && quote < |text| - 1 && text[quote] == QUOTE
    ensures EndOf(text, quote + 1).None? ==> r.None?
    ensures EndOf(text, quote + 1).Some? ==> end == EndOf(text, quote + 1).value && r == Bytes(text, quote + 1, end)
    ensures r.Some? ==> |r.value| < end - quote
  {
    var e := StringLiteralEnd(text, quote + 1);
    if e.None? { return None, 0; }
    end := e.value;
    var buf := new Byte[end - quote](_ => 0);
    var len := 0;
    var p := quote + 1;
    PrependNone(Bytes(text, p, end));
    assert buf[..len] == [];
    while p < end
      invariant quote < p <= end && 0 <= len && len + 1 <= p - quote
      invariant EndOf(text, p) == Some(end)
      invariant Bytes(text, quote + 1, end) == Prepend(buf[..len], Bytes(text, p, end))
    {
      ghost var before := buf[..len];
      if text[p] == BACKSLASH {
        EscapeStaysInside(text, p, end);
        var c := ReadEscapedChar(text, p + 1);
        if c.BadHex? {
          assert Bytes(text, p, end).None?;
          return None, end;
        }
        buf[len] := c.code % 256;
        len := len + 1;
        p := c.next;
      } else {
        buf[len] := text[p];
        len := len + 1;
        p := p + 1;
      }
      assert buf[..len] == before + [buf[len - 1]];
      PrependMore(before, buf[len - 1], Bytes(text, p, end));
    }
    assert buf[..len] + [] == buf[..len];
    r := Some(buf[..len]);
  }

  function Prepend(s: seq<Byte>, r: Option<seq<Byte>>): Option<seq<Byte>> { if r.None? then None else Some(s + r.value) }

  lemma PrependMore(s: seq<Byte>, b: Byte, r: Option<seq<Byte>>)
    ensures Prepend(s + [b], r) == Prepend(s, if r.None? then None else Some([b] + r.value))
  {
    if r.Some? {
      assert s + [b] + r.value == s + ([b] + r.value);
    }
  }

  lemma PrependNone(r: Option<seq<Byte>>)
    ensures Prepend([], r) == r
  {
    if r.Some? {
      assert [] + r.value == r.value;
    }
  }

  // ----- there and back -----

  predicate OneLine(str: seq<Byte>) { NEWLINE !in str && NUL !in str }

  predicate At(text: seq<Byte>, p: nat, s: seq<Byte>) { p + |s| <= |text| && text[p..p + |s|] == s }

  lemma AtSplit(text: seq<Byte>, p: nat, a: seq<Byte>, b: seq<Byte>)
    requires At(text, p, a + b)
    ensures At(text, p, a) && At(text, p + |a|, b)
  {
    var all := text[p..p + |a + b|];
    assert text[p..p + |a|] == all[..|a|] == a;
    assert text[p + |a|..p + |a| + |b|] == all[|a|..] == b;
  }

  lemma EscapedReads(text: seq<Byte>, p: nat, b: Byte, end: nat)
    requires At(text, p, Escaped(b)) && b != NEWLINE && b != NUL && p + |Escaped(b)| <= end < |text|
    ensures EndOf(text, p) == EndOf(text, p + |Escaped(b)|)
    ensures Bytes(text, p, end) == Prepend([b], Bytes(text, p + |Escaped(b)|, end))
  {
    var n := |Escaped(b)|;
    assert text[p] == text[p..p + n][0];
    if n == 2 {
      assert text[p + 1] == text[p..p + n][1];
      assert EscapeAt(text, p + 1) == Escape(b, p + 2);
    }
  }

  /** Inside a quoted string the scanner stops at the quote that closes it, and reading gives the string back. */
  lemma {:induction false} InsideReads(text: seq<Byte>, p: nat, str: seq<Byte>)
    requires OneLine(str) && At(text, p, Inside(str) + [QUOTE])
    ensures EndOf(text, p) == Some(p + |Inside(str)|)
    ensures Bytes(text, p, p + |Inside(str)|) == Some(str)
    decreases |str|
  {
    hide Bytes, At;
    AtSplit(text, p, Inside(str), [QUOTE]);
    AtQuote(text, p + |Inside(str)|);
    if str == [] {
      NoBytes(text, p);
    } else {
      var b, q := str[0], p + |Escaped(str[0])|;
      var rest := Inside(str[1..]) + [QUOTE];
      assert Inside(str) + [QUOTE] == Escaped(b) + rest;
      AtSplit(text, p, Escaped(b), rest);
      InsideReads(text, q, str[1..]);
      EscapedReads(text, p, b, q + |Inside(str[1..])|);
      assert str == [b] + str[1..];
    }
  }

  lemma AtQuote(text: seq<Byte>, p: nat)
    requires At(text, p, [QUOTE])
    ensures p < |text| && text[p] == QUOTE
  {
    assert text[p] == text[p..p + 1][0];
  }

  lemma NoBytes(text: seq<Byte>, p: nat)
    requires p < |text|
    ensures Bytes(text, p, p) == Some([])
  {
  }

  /** Whatever stands before and after it, a quoted string reads as the string. */
  lemma QuotedReads(before: seq<Byte>, str: seq<Byte>, after: seq<Byte>)
    requires OneLine(str)
    ensures var text, p, end := before + Quoted(str) + after, |before| + 1, |before| + |Quoted(str)| - 1;
      EndOf(text, p) == Some(end) && Bytes(text, p, end) == Some(str)
  {
    var text, p := before + Quoted(str) + after, |before| + 1;
    assert At(text, p, Inside(str) + [QUOTE]);
    InsideReads(text, p, str);
  }
}
