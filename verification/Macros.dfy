/** Object-like macros and the hidesets that stop their expansion (preprocess.c). */
module Macros {
  import opened Options

  /** A token; `bol` says that it is the first on its line, `hidden` lists the macros it may not expand to again. */
  datatype Token = Token(ident: bool, text: string, bol: bool, space: bool, hidden: seq<string>)

  /** The bodies of the object-like macros. */
  type Table = map<string, seq<Token>>

  function Names(hs: seq<string>): set<string> { set n | n in hs }

  predicate IsHash(t: Token) { t.bol && t.text == "#" }

  /** What expand_macro asks before it acts. */
  predicate Expandable(m: Table, t: Token) { t.ident && t.text in m && t.text !in t.hidden }

  // ----- expand_macro -----

  /** add_hideset, as a value. */
  function Hidden(toks: seq<Token>, hs: seq<string>): (r: seq<Token>)
    ensures |r| == |toks|
  {
    seq(|toks|, i requires 0 <= i < |toks| => toks[i].(hidden := toks[i].hidden + hs))
  }

  method AddHideset(toks: seq<Token>, hs: seq<string>) returns (r: seq<Token>)
    ensures r == Hidden(toks, hs)
  {
    r := [];
    var i := 0;
    while i < |toks|
      invariant 0 <= i <= |toks|
      invariant r == Hidden(toks, hs)[..i]
    {
      r := r + [toks[i].(hidden := toks[i].hidden + hs)];
      i := i + 1;
    }
  }

  /** The first of the new tokens takes the place of the macro's name on the line. */
  function Aligned(toks: seq<Token>, t: Token): seq<Token> {
    if toks == [] then [] else [toks[0].(bol := t.bol, space := t.space)] + toks[1..]
  }

  function Body(m: Table, t: Token): seq<Token>
    requires t.text in m
  {
    Hidden(m[t.text], t.hidden + [t.text])
  }

  /** The tokens to go on with after the first has been expanded. */
  function Expanded(m: Table, toks: seq<Token>): seq<Token>
    requires toks != [] && Expandable(m, toks[0])
  {
    Aligned(Body(m, toks[0]) + toks[1..], toks[0])
  }

  method ExpandMacro(m: Table, toks: seq<Token>) returns (expanded: bool, rest: seq<Token>)
    requires toks != []
    ensures expanded == Expandable(m, toks[0])
    ensures rest == if expanded then Expanded(m, toks) else toks
  {
    var t := toks[0];
    if t.text in t.hidden { return false, toks; }
    if !t.ident || t.text !in m { return false, toks; }
    var body := AddHideset(m[t.text], t.hidden + [t.text]);
    rest := body + toks[1..];
    if rest != [] {
      rest := [rest[0].(bol := t.bol, space := t.space)] + rest[1..];
    }
    expanded := true;
  }

  // ----- termination -----

  /** How often a token can be expanded or passed on before nothing is left of it, when the names `h` are out. */
  function Weight(m: Table, h: set<string>, t: Token): (w: nat)
    ensures w > 0
    decreases m.Keys - h, 0
  {
    var h' := h + Names(t.hidden);
    if t.ident && t.text in m && t.text !in h' then
      assert t.text in m.Keys - h && t.text !in m.Keys - (h' + {t.text});
      1 + Total(m, h' + {t.text}, m[t.text])
    else 1
  }

  function Total(m: Table, h: set<string>, toks: seq<Token>): nat
    decreases m.Keys - h, |toks|
  {
    if toks == [] then 0 else Weight(m, h, toks[0]) + Total(m, h, toks[1..])
  }

  /** What the standard means: every name is replaced by its body, in which it stays as it is. */
  function Meaning(m: Table, h: set<string>, t: Token): seq<string>
    decreases m.Keys - h, 0
  {
    var h' := h + Names(t.hidden);
    if t.ident && t.text in m && t.text !in h' then
      assert t.text in m.Keys - h && t.text !in m.Keys - (h' + {t.text});
      Meanings(m, h' + {t.text}, m[t.text])
    else [t.text]
  }

  function Meanings(m: Table, h: set<string>, toks: seq<Token>): seq<string>
    decreases m.Keys - h, |toks|
  {
    if toks == [] then [] else Meaning(m, h, toks[0]) + Meanings(m, h, toks[1..])
  }

  lemma {:induction false} Concatenated(m: Table, h: set<string>, a: seq<Token>, b: seq<Token>)
    ensures Total(m, h, a + b) == Total(m, h, a) + Total(m, h, b)
    ensures Meanings(m, h, a + b) == Meanings(m, h, a) + Meanings(m, h, b)
  {
    if a == [] {
      assert a + b == b;
    } else {
      assert (a + b)[1..] == a[1..] + b;
      Concatenated(m, h, a[1..], b);
    }
  }

  /** Names out for a whole list may as well be written on each of its tokens. */
  lemma {:induction false} HiddenApart(m: Table, hs: seq<string>, toks: seq<Token>)
    ensures Total(m, {}, Hidden(toks, hs)) == Total(m, Names(hs), toks)
    ensures Meanings(m, {}, Hidden(toks, hs)) == Meanings(m, Names(hs), toks)
  {
    if toks != [] {
      var r := Hidden(toks, hs);
      assert r[1..] == Hidden(toks[1..], hs);
      HiddenApart(m, hs, toks[1..]);
      assert {} + Names(toks[0].hidden + hs) == Names(hs) + Names(toks[0].hidden);
    }
  }

  lemma AlignedSame(m: Table, toks: seq<Token>, t: Token)
    ensures Total(m, {}, Aligned(toks, t)) == Total(m, {}, toks)
    ensures Meanings(m, {}, Aligned(toks, t)) == Meanings(m, {}, toks)
  {
    if toks != [] {
      assert Aligned(toks, t)[1..] == toks[1..];
    }
  }

  /** Every expansion brings the end one step nearer and keeps the meaning. */
  lemma ExpandedOnce(m: Table, toks: seq<Token>)
    requires toks != [] && Expandable(m, toks[0])
    ensures Total(m, {}, Expanded(m, toks)) == Total(m, {}, toks) - 1
    ensures Meanings(m, {}, Expanded(m, toks)) == Meanings(m, {}, toks)
  {
    var t := toks[0];
    var hs := t.hidden + [t.text];
    AlignedSame(m, Body(m, t) + toks[1..], t);
    Concatenated(m, {}, Body(m, t), toks[1..]);
    HiddenApart(m, hs, m[t.text]);
    assert Names(hs) == ({} + Names(t.hidden)) + {t.text};
  }

  // ----- the output, token by token -----

  /** The marks of the next token: its own, or a line mark and a space taken over from a macro's name. */
  datatype Marks = Own | Taken(bol: bool, space: bool)

  function Marked(t: Token, marks: Marks): Token { if marks.Own? then t else t.(bol := marks.bol, space := marks.space) }

  /** What has come out, and the marks that are still to be taken. */
  datatype Emitted = Emitted(out: seq<Token>, marks: Marks)

  lemma BodyIsLess(m: Table, toks: seq<Token>, marks: Marks)
    requires toks != [] && Expandable(m, Marked(toks[0], marks))
    ensures Total(m, {}, Body(m, Marked(toks[0], marks))) < Total(m, {}, toks)
  {
    var t := Marked(toks[0], marks);
    HiddenApart(m, t.hidden + [t.text], m[t.text]);
    assert Names(t.hidden + [t.text]) == ({} + Names(t.hidden)) + {t.text};
  }

  /**
   Each token by itself: a macro's name becomes what its body becomes, the first token of which takes the marks of
   the name; if nothing comes of it the token after it does. Any other token comes out as it is.
   */
  function Emit(m: Table, toks: seq<Token>, marks: Marks): Emitted
    decreases Total(m, {}, toks)
  {
    if toks == [] then Emitted([], marks)
    else
      var t := Marked(toks[0], marks);
      var e :=
        if Expandable(m, t) then
          BodyIsLess(m, toks, marks);
          Emit(m, Body(m, t), Taken(t.bol, t.space))
        else Emitted([t], Own);
      var r := Emit(m, toks[1..], e.marks);
      Emitted(e.out + r.out, r.marks)
  }

  lemma {:induction false} EmitAppend(m: Table, a: seq<Token>, b: seq<Token>, marks: Marks)
    ensures var e := Emit(m, a, marks); var r := Emit(m, b, e.marks); Emit(m, a + b, marks) == Emitted(e.out + r.out, r.marks)
    decreases |a|
  {
    hide Total, Body, Marked;
    if a == [] {
      assert a + b == b;
    } else {
      assert (a + b)[1..] == a[1..] + b;
      var t := Marked(a[0], marks);
      var e := if Expandable(m, t) then Emit(m, Body(m, t), Taken(t.bol, t.space)) else Emitted([t], Own);
      EmitAppend(m, a[1..], b, e.marks);
      var f := Emit(m, a[1..], e.marks);
      var r := Emit(m, b, f.marks);
      assert e.out + (f.out + r.out) == (e.out + f.out) + r.out;
    }
  }

  lemma EmitAligned(m: Table, toks: seq<Token>, t: Token)
    ensures Emit(m, Aligned(toks, t), Own).out == Emit(m, toks, Taken(t.bol, t.space)).out
  {
    if toks != [] {
      assert Aligned(toks, t)[1..] == toks[1..];
    }
  }

  /** One expansion changes nothing of what comes out. */
  lemma ExpandedEmits(m: Table, toks: seq<Token>)
    requires toks != [] && Expandable(m, toks[0])
    ensures Emit(m, Expanded(m, toks), Own).out == Emit(m, toks, Own).out
  {
    var t := toks[0];
    EmitAligned(m, Body(m, t) + toks[1..], t);
    EmitAppend(m, Body(m, t), toks[1..], Taken(t.bol, t.space));
  }

  lemma PassedEmits(m: Table, toks: seq<Token>)
    requires toks != [] && !Expandable(m, toks[0])
    ensures Emit(m, toks, Own).out == [toks[0]] + Emit(m, toks[1..], Own).out
  {
  }

  /** Where nothing is to be expanded everything comes out equal to itself. */
  lemma {:induction false} Untouched(m: Table, toks: seq<Token>)
    requires forall t :: t in toks ==> !Expandable(m, t)
    ensures Emit(m, toks, Own).out == toks
  {
    if toks != [] {
      assert toks[0] in toks && forall t :: t in toks[1..] ==> t in toks;
      Untouched(m, toks[1..]);
    }
  }

  /** The same but for the marks. */
  predicate SameToken(t: Token, u: Token) { t.ident == u.ident && t.text == u.text && t.hidden == u.hidden }

  predicate StandsIn(t: Token, toks: seq<Token>) { exists u :: u in toks && SameToken(t, u) }

  /** `chain` leads from a token of the source to `t`: each next token stands in the body of the one before. */
  predicate Origin(m: Table, toks: seq<Token>, t: Token, chain: seq<Token>)
    decreases |chain|
  {
    && chain != [] && StandsIn(chain[0], toks)
    && if |chain| == 1 then SameToken(t, chain[0])
       else Expandable(m, chain[0]) && Origin(m, Body(m, chain[0]), t, chain[1..])
  }

  /** Everything that comes out is a token of the source, or of a body under the names of all the macros it came out of. */
  lemma {:induction false} EmittedOrigin(m: Table, toks: seq<Token>, marks: Marks, t: Token) returns (chain: seq<Token>)
    requires t in Emit(m, toks, marks).out
    ensures Origin(m, toks, t, chain)
    decreases Total(m, {}, toks)
  {
    var p := Marked(toks[0], marks);
    var e := if Expandable(m, p) then Emit(m, Body(m, p), Taken(p.bol, p.space)) else Emitted([p], Own);
    assert toks[0] in toks && SameToken(p, toks[0]);
    if t in e.out {
      if Expandable(m, p) {
        BodyIsLess(m, toks, marks);
        var c := EmittedOrigin(m, Body(m, p), Taken(p.bol, p.space), t);
        chain := [p] + c;
        assert chain[1..] == c;
      } else {
        chain := [p];
      }
    } else {
      assert Emit(m, toks, marks).out == e.out + Emit(m, toks[1..], e.marks).out;
      chain := EmittedOrigin(m, toks[1..], e.marks, t);
      assert forall u :: u in toks[1..] ==> u in toks;
    }
  }

  /** A token of a body has its own names and those of the macro. */
  lemma InBody(m: Table, p: Token, t: Token)
    requires p.text in m && StandsIn(t, Body(m, p))
    ensures exists u :: u in m[p.text] && u.text == t.text && u.ident == t.ident && t.hidden == u.hidden + (p.hidden + [p.text])
  {
    var body := Body(m, p);
    var v :| v in body && SameToken(t, v);
    var i :| 0 <= i < |body| && body[i] == v;
    assert m[p.text][i] in m[p.text];
  }

  /** So what comes out carries the names of all the macros it came out of, and they will not expand it again. */
  lemma {:induction false} HidesetOf(m: Table, toks: seq<Token>, t: Token, chain: seq<Token>)
    requires Origin(m, toks, t, chain)
    ensures forall n :: n in chain[0].hidden ==> n in t.hidden
    ensures forall i :: 0 <= i < |chain| - 1 ==> chain[i].text in t.hidden
    decreases |chain|
  {
    if |chain| > 1 {
      var p, rest := chain[0], chain[1..];
      InBody(m, p, rest[0]);
      HidesetOf(m, Body(m, p), t, rest);
      assert p.text in rest[0].hidden;
      forall i | 0 <= i < |chain| - 1
        ensures chain[i].text in t.hidden
      {
        if i > 0 {
          assert chain[i] == rest[i - 1];
        }
      }
    }
  }

  /** `e` is `o` with the marks on its first token, or with the marks still to be taken. */
  predicate MarksTaken(e: Emitted, o: Emitted, bol: bool, space: bool) {
    if e.out == [] then o.out == [] && e.marks == Taken(bol, space)
    else o.out != [] && e.marks == o.marks && e.out == [o.out[0].(bol := bol, space := space)] + o.out[1..]
  }

  lemma MarksAfter(e: Emitted, o: Emitted, bol: bool, space: bool)
    requires MarksTaken(e, o, bol, space)
    ensures if e.out == [] then o.out == [] && e.marks == Taken(bol, space) else e.marks == o.marks
  {
  }

  lemma TakenThen(e: Emitted, o: Emitted, r: Emitted, bol: bool, space: bool)
    requires e.out != [] && MarksTaken(e, o, bol, space)
    ensures MarksTaken(Emitted(e.out + r.out, r.marks), Emitted(o.out + r.out, r.marks), bol, space)
  {
    assert (o.out + r.out)[1..] == o.out[1..] + r.out;
  }

  /** The first token that comes out takes the marks, and nothing else about the output depends on them. */
  lemma {:induction false} FirstTakesMarks(m: Table, toks: seq<Token>, bol: bool, space: bool, other: Marks)
    ensures MarksTaken(Emit(m, toks, Taken(bol, space)), Emit(m, toks, other), bol, space)
    decreases Total(m, {}, toks)
  {
    if toks != [] {
      var marks := Taken(bol, space);
      var t, u := Marked(toks[0], marks), Marked(toks[0], other);
      assert Expandable(m, u) == Expandable(m, t);
      if Expandable(m, t) {
        MarksOfBody(m, toks, bol, space, other);
      }
    }
  }

  lemma EmitExpands(m: Table, toks: seq<Token>, marks: Marks)
    requires toks != [] && Expandable(m, toks[0])
    ensures var t := Marked(toks[0], marks);
      var e := Emit(m, Body(m, toks[0]), Taken(t.bol, t.space));
      var r := Emit(m, toks[1..], e.marks);
      Emit(m, toks, marks) == Emitted(e.out + r.out, r.marks)
  {
    assert Body(m, Marked(toks[0], marks)) == Body(m, toks[0]);
  }

  lemma {:induction false} MarksOfBody(m: Table, toks: seq<Token>, bol: bool, space: bool, other: Marks)
    requires toks != [] && Expandable(m, toks[0])
    ensures MarksTaken(Emit(m, toks, Taken(bol, space)), Emit(m, toks, other), bol, space)
    decreases Total(m, {}, toks), 0
  {
    hide MarksTaken, Emit, Body;
    var u := Marked(toks[0], other);
    BodyIsLess(m, toks, Own);
    var body := Body(m, toks[0]);
    FirstTakesMarks(m, body, bol, space, Taken(u.bol, u.space));
    EmitExpands(m, toks, Taken(bol, space));
    EmitExpands(m, toks, other);
    var e, o := Emit(m, body, Taken(bol, space)), Emit(m, body, Taken(u.bol, u.space));
    var r := Emit(m, toks[1..], e.marks);
    MarksAfter(e, o, bol, space);
    if e.out == [] {
      FirstTakesMarks(m, toks[1..], bol, space, o.marks);
      assert e.out + r.out == r.out;
      assert o.out + Emit(m, toks[1..], o.marks).out == Emit(m, toks[1..], o.marks).out;
    } else {
      TakenThen(e, o, r, bol, space);
    }
  }

  // ----- preprocess2 -----

  /** Where the loop of preprocess2 stops: at a directive, with all that is left from there on, or at the end. */
  function Stop(m: Table, toks: seq<Token>): seq<Token>
    decreases Total(m, {}, toks)
  {
    if toks == [] then []
    else if Expandable(m, toks[0]) then
      ExpandedOnce(m, toks);
      Stop(m, Expanded(m, toks))
    else if IsHash(toks[0]) then toks
    else Stop(m, toks[1..])
  }

  function Texts(toks: seq<Token>): seq<string> { seq(|toks|, i requires 0 <= i < |toks| => toks[i].text) }

  /** Tokens that will not be expanded: whatever names a macro has that name in its hideset. */
  predicate Settled(m: Table, toks: seq<Token>) { forall t :: t in toks && t.ident && t.text in m ==> t.text in t.hidden }

  predicate NothingToDo(m: Table, toks: seq<Token>) { forall t :: t in toks ==> !Expandable(m, t) && !IsHash(t) }

  /** What the loop keeps: with what is left, the output stands for the input, and token by token it is what Emit says. */
  predicate OnTheWay(m: Table, input: seq<Token>, out: seq<Token>, toks: seq<Token>) {
    && Meanings(m, {}, input) == Texts(out) + Meanings(m, {}, toks)
    && Emit(m, input, Own).out == out + Emit(m, toks, Own).out
    && (NothingToDo(m, input) ==> out + toks == input)
    && Settled(m, out) && Stop(m, toks) == Stop(m, input)
    && |out| + Total(m, {}, toks) <= Total(m, {}, input)
  }

  lemma AfterExpansion(m: Table, input: seq<Token>, out: seq<Token>, toks: seq<Token>)
    requires OnTheWay(m, input, out, toks) && toks != [] && Expandable(m, toks[0])
    ensures OnTheWay(m, input, out, Expanded(m, toks))
  {
    hide Meaning, Weight, Emit, Settled;
    ExpandedOnce(m, toks);
    ExpandedEmits(m, toks);
    assert toks[0] in out + toks;
  }

  lemma PassedOnce(m: Table, toks: seq<Token>)
    requires toks != [] && !Expandable(m, toks[0]) && !IsHash(toks[0])
    ensures Meanings(m, {}, toks) == [toks[0].text] + Meanings(m, {}, toks[1..])
    ensures Total(m, {}, toks) == 1 + Total(m, {}, toks[1..])
    ensures Stop(m, toks) == Stop(m, toks[1..])
  {
  }

  lemma AfterPassing(m: Table, input: seq<Token>, out: seq<Token>, toks: seq<Token>)
    requires OnTheWay(m, input, out, toks) && toks != [] && !Expandable(m, toks[0]) && !IsHash(toks[0])
    ensures OnTheWay(m, input, out + [toks[0]], toks[1..])
  {
    hide Meanings, Total, Stop, Emit;
    PassedOnce(m, toks);
    PassedEmits(m, toks);
    assert Texts(out + [toks[0]]) + Meanings(m, {}, toks[1..]) == Texts(out) + ([toks[0].text] + Meanings(m, {}, toks[1..]));
    assert out + [toks[0]] + toks[1..] == out + toks;
    assert out + [toks[0]] + Emit(m, toks[1..], Own).out == out + ([toks[0]] + Emit(m, toks[1..], Own).out);
  }

  /** preprocess2 up to the first directive: it ends, keeps the meaning, and leaves nothing to expand. */
  method Preprocess(m: Table, input: seq<Token>) returns (out: seq<Token>, rest: seq<Token>)
    ensures Meanings(m, {}, input) == Texts(out) + Meanings(m, {}, rest)
    ensures Emit(m, input, Own).out == out + Emit(m, rest, Own).out
    ensures NothingToDo(m, input) ==> out == input && rest == []
    ensures Settled(m, out)
    ensures rest == [] || (IsHash(rest[0]) && !Expandable(m, rest[0]))
    ensures |out| + Total(m, {}, rest) <= Total(m, {}, input)
    ensures rest == Stop(m, input)
  {
    var toks := input;
    out := [];
    while toks != []
      invariant OnTheWay(m, input, out, toks)
      decreases Total(m, {}, toks)
    {
      var expanded, next := ExpandMacro(m, toks);
      if expanded {
        AfterExpansion(m, input, out, toks);
        ExpandedOnce(m, toks);
        toks := next;
      } else if IsHash(toks[0]) {
        assert toks[0] in out + toks;
        return out, toks;
      } else {
        AfterPassing(m, input, out, toks);
        out := out + [toks[0]];
        toks := toks[1..];
      }
    }
    rest := [];
  }

  /** Output that is read again comes out as it is. */
  lemma {:induction false} SettledMeaning(m: Table, toks: seq<Token>)
    requires Settled(m, toks)
    ensures Meanings(m, {}, toks) == Texts(toks) && Total(m, {}, toks) == |toks|
  {
    if toks != [] {
      assert toks[0] in toks;
      assert forall t :: t in toks[1..] ==> t in toks;
      SettledMeaning(m, toks[1..]);
      assert Texts(toks) == [toks[0].text] + Texts(toks[1..]);
    }
  }

  // ----- directives -----

  /**
   That is not the `#` of the source: a directive on the line after an empty macro is no longer one, and a
   `#` that a macro puts at the start of a line is.
   */
  lemma DirectivesLostAndFound()
    ensures
      var m := map["E" := [], "H" := [Token(false, "#", false, false, [])]];
      var directive := Token(false, "#", true, false, []);
      && IsHash(directive)
      && !IsHash(Expanded(m, [Token(true, "E", false, true, []), directive])[0])
      && IsHash(Expanded(m, [Token(true, "H", true, false, [])])[0])
  {
  }

  /** The code keeps the directives of the source exactly where the flags agree or a body token takes them over. */
  lemma DirectiveKept(m: Table, toks: seq<Token>)
    requires |toks| > 1 && Expandable(m, toks[0])
    ensures var n := |m[toks[0].text]|;
      Expanded(m, toks)[n..] == toks[1..] <==> n > 0 || (toks[1].bol == toks[0].bol && toks[1].space == toks[0].space)
  {
    var t, n := toks[0], |m[toks[0].text]|;
    var all := Body(m, t) + toks[1..];
    if n > 0 {
      assert Expanded(m, toks)[n..] == all[n..] == toks[1..];
    } else {
      assert all == toks[1..];
      var e := Expanded(m, toks);
      assert e[0] == toks[1].(bol := t.bol, space := t.space);
      assert e[1..] == toks[2..];
      assert e[n..] == e;
      if toks[1].bol == t.bol && toks[1].space == t.space {
        assert e == [toks[1]] + toks[2..] == toks[1..];
      }
    }
  }

  // ----- which directive a run meets -----

  /** `#` is no identifier, and within a body only the first token may be marked as beginning a line. */
  predicate Proper(m: Table) {
    forall n :: n in m ==> ProperList(m[n]) && LevelTail(m[n])
  }

  predicate ProperList(toks: seq<Token>) { forall t :: t in toks && t.text == "#" ==> !t.ident }

  predicate LevelTail(toks: seq<Token>) { forall i :: 0 < i < |toks| ==> !toks[i].bol }

  /** Fully expanded, the tokens begin with `#`. */
  predicate Leads(m: Table, toks: seq<Token>) {
    var texts := Meanings(m, {}, toks);
    texts != [] && texts[0] == "#"
  }

  /**
   The token whose line marks are copied to whatever follows `toks`: the last name of their expansion, if that
   is a macro with nothing in its body.
   */
  function Handed(m: Table, toks: seq<Token>): Option<Token>
    requires toks != []
    decreases Total(m, {}, toks)
  {
    if Expandable(m, toks[0]) then
      ExpandedOnce(m, toks);
      if Expanded(m, toks) == [] then Some(toks[0]) else Handed(m, Expanded(m, toks))
    else if |toks| == 1 then None
    else Handed(m, toks[1..])
  }

  function HandedTo(u: Option<Token>, rest: seq<Token>): seq<Token> { if u.Some? then Aligned(rest, u.value) else rest }

  lemma Split(m: Table, pre: seq<Token>, rest: seq<Token>)
    requires pre != [] && Expandable(m, pre[0])
    ensures (pre + rest)[0] == pre[0] && (pre + rest)[1..] == pre[1..] + rest
    ensures Expanded(m, pre + rest) ==
            if Expanded(m, pre) == [] then Aligned(rest, pre[0]) else Expanded(m, pre) + rest
  {
    assert (pre + rest)[0] == pre[0] && (pre + rest)[1..] == pre[1..] + rest;
    var all := Body(m, pre[0]) + pre[1..];
    assert Body(m, pre[0]) + (pre[1..] + rest) == all + rest;
    if all == [] {
      assert all + rest == rest;
    } else {
      assert (all + rest)[1..] == all[1..] + rest;
    }
  }

  lemma StaysProper(m: Table, pre: seq<Token>)
    requires pre != [] && Expandable(m, pre[0]) && Proper(m) && ProperList(pre) && LevelTail(pre)
    ensures ProperList(Expanded(m, pre)) && LevelTail(Expanded(m, pre))
    ensures Expanded(m, pre) != [] ==> Expanded(m, pre)[0].bol == pre[0].bol
  {
    var body, def := Body(m, pre[0]), m[pre[0].text];
    var all := body + pre[1..];
    assert ProperList(def) && LevelTail(def);
    forall i | 0 <= i < |all|
      ensures (all[i].text == "#" ==> !all[i].ident) && (i > 0 ==> !all[i].bol)
    {
      if i < |body| {
        assert body[i] == def[i].(hidden := body[i].hidden) && def[i] in def;
      } else {
        assert all[i] == pre[i - |body| + 1];
      }
    }
    var e := Expanded(m, pre);
    assert forall i :: 0 <= i < |e| ==> e[i].text == all[i].text && e[i].ident == all[i].ident && (i > 0 ==> e[i] == all[i]);
  }

  /** Tokens that do not lead to a directive are passed, and hand on what they hand on. */
  lemma {:induction false} Passed(m: Table, pre: seq<Token>, rest: seq<Token>)
    requires pre != [] && Proper(m) && ProperList(pre) && LevelTail(pre) && !(pre[0].bol && Leads(m, pre))
    ensures Stop(m, pre + rest) == Stop(m, HandedTo(Handed(m, pre), rest))
    decreases Total(m, {}, pre)
  {
    hide Proper;
    assert (pre + rest)[0] == pre[0] && (pre + rest)[1..] == pre[1..] + rest;
    if Expandable(m, pre[0]) {
      Split(m, pre, rest);
      StaysProper(m, pre);
      ExpandedOnce(m, pre);
      if Expanded(m, pre) != [] {
        Passed(m, Expanded(m, pre), rest);
      }
    } else {
      assert Meanings(m, {}, pre) == [pre[0].text] + Meanings(m, {}, pre[1..]);
      if |pre| == 1 {
        assert pre[1..] + rest == rest;
      } else {
        assert ProperList(pre[1..]) && LevelTail(pre[1..]) by { Tail(pre); }
        assert !pre[1..][0].bol;
        Passed(m, pre[1..], rest);
      }
    }
  }

  lemma Tail(pre: seq<Token>)
    requires pre != [] && ProperList(pre) && LevelTail(pre)
    ensures ProperList(pre[1..]) && LevelTail(pre[1..])
  {
  }

  /** Tokens out of a macro: they carry its name in their hidesets. */
  predicate Made(toks: seq<Token>) { forall t :: t in toks ==> t.hidden != [] }

  predicate Fresh(toks: seq<Token>) { forall t :: t in toks ==> t.hidden == [] }

  lemma MadeByExpansion(m: Table, pre: seq<Token>)
    requires pre != [] && Expandable(m, pre[0]) && Made(pre[1..])
    ensures Made(Expanded(m, pre))
  {
    var all := Body(m, pre[0]) + pre[1..];
    assert forall t :: t in all ==> t.hidden != [];
    assert forall i :: 0 <= i < |Expanded(m, pre)| ==> Expanded(m, pre)[i].hidden == all[i].hidden;
  }

  /** A stop at a token of the source leaves no more than the source had left. */
  lemma {:induction false} SourceLeft(m: Table, pre: seq<Token>, src: seq<Token>)
    requires Made(pre)
    ensures var s := Stop(m, pre + src); s == [] || s[0].hidden != [] || |s| <= |src|
    decreases Total(m, {}, pre + src)
  {
    var all := pre + src;
    if all != [] {
      var first, left := if pre == [] then [src[0]] else pre, if pre == [] then src[1..] else src;
      assert all == first + left && all[0] == first[0] && all[1..] == first[1..] + left;
      if Expandable(m, all[0]) {
        ExpandedOnce(m, all);
        Split(m, first, left);
        MadeByExpansion(m, first);
        if Expanded(m, first) == [] {
          assert Expanded(m, all) == [] + Aligned(left, first[0]);
          SourceLeft(m, [], Aligned(left, first[0]));
        } else {
          SourceLeft(m, Expanded(m, first), left);
        }
      } else if !IsHash(all[0]) {
        SourceLeft(m, first[1..], left);
      } else if pre != [] {
        assert pre[0] in pre;
      }
    }
  }

  /** Made tokens that lead to a directive, at the start of a line, stop the loop at one of them. */
  lemma {:induction false} StopsInside(m: Table, pre: seq<Token>, rest: seq<Token>)
    requires pre != [] && Made(pre[1..]) && (Made(pre) || Expandable(m, pre[0]))
    requires Proper(m) && ProperList(pre) && LevelTail(pre) && pre[0].bol && Leads(m, pre)
    ensures var s := Stop(m, pre + rest); s != [] && s[0].hidden != []
    decreases Total(m, {}, pre)
  {
    hide Proper;
    assert (pre + rest)[0] == pre[0] && (pre + rest)[1..] == pre[1..] + rest;
    if Expandable(m, pre[0]) {
      Split(m, pre, rest);
      StaysProper(m, pre);
      MadeByExpansion(m, pre);
      ExpandedOnce(m, pre);
      if Expanded(m, pre) != [] {
        StopsInside(m, Expanded(m, pre), rest);
      }
    } else {
      assert Meanings(m, {}, pre) == [pre[0].text] + Meanings(m, {}, pre[1..]);
      assert pre[0] in pre;
    }
  }

  // ----- the marks that reach each token of the source -----

  /** Token `i` with the line marks it has when the loop comes to it, given that of token 0. */
  function Reached(m: Table, toks: seq<Token>, i: nat): Token
    requires i < |toks|
    decreases i
  {
    if i == 0 then toks[0]
    else
      var before := Reached(m, toks, i - 1);
      HandedTo(Handed(m, [before]), [toks[i]])[0]
  }

  /** The loop passes every token before `k` without meeting a directive. */
  predicate PassesTo(m: Table, toks: seq<Token>, k: nat)
    requires k <= |toks|
  {
    forall i :: 0 <= i < k ==> !(Reached(m, toks, i).bol && Leads(m, [Reached(m, toks, i)]))
  }

  function From(m: Table, toks: seq<Token>, k: nat): seq<Token>
    requires k <= |toks|
  {
    if k == |toks| then [] else [Reached(m, toks, k)] + toks[k + 1..]
  }

  lemma ReachedSame(m: Table, toks: seq<Token>, i: nat)
    requires i < |toks|
    ensures var t := Reached(m, toks, i); t == toks[i].(bol := t.bol, space := t.space)
  {
  }

  lemma OneToken(m: Table, t: Token)
    requires t.text == "#" ==> !t.ident
    ensures ProperList([t]) && LevelTail([t])
  {
  }

  lemma HandedFront(u: Option<Token>, t: Token, rest: seq<Token>)
    ensures HandedTo(u, [t] + rest) == HandedTo(u, [t]) + rest && |HandedTo(u, [t])| == 1
    ensures HandedTo(u, []) == []
  {
    assert ([t] + rest)[1..] == rest;
  }

  lemma ReachedNext(m: Table, toks: seq<Token>, k: nat)
    requires 0 < k < |toks|
    ensures [Reached(m, toks, k)] == HandedTo(Handed(m, [Reached(m, toks, k - 1)]), [toks[k]])
  {
    hide Handed;
    HandedFront(Handed(m, [Reached(m, toks, k - 1)]), toks[k], []);
  }

  lemma {:induction false} PassedTo(m: Table, toks: seq<Token>, k: nat)
    requires Proper(m) && ProperList(toks) && k <= |toks| && PassesTo(m, toks, k)
    ensures Stop(m, toks) == Stop(m, From(m, toks, k))
    decreases k
  {
    hide Proper, Leads, Stop, Handed, HandedTo, Reached;
    if k == 0 {
      ReachedFirst(m, toks);
      assert toks != [] ==> toks == [toks[0]] + toks[1..];
    } else {
      PassedTo(m, toks, k - 1);
      var t := Reached(m, toks, k - 1);
      ReachedSame(m, toks, k - 1);
      assert toks[k - 1] in toks;
      OneToken(m, t);
      assert From(m, toks, k - 1) == [t] + toks[k..];
      Passed(m, [t], toks[k..]);
      var u := Handed(m, [t]);
      if k < |toks| {
        assert toks[k..] == [toks[k]] + toks[k + 1..];
        HandedFront(u, toks[k], toks[k + 1..]);
        ReachedNext(m, toks, k);
        assert HandedTo(u, toks[k..]) == From(m, toks, k);
      } else {
        assert toks[k..] == [];
        HandedFront(u, t, []);
      }
    }
  }

  lemma ReachedFirst(m: Table, toks: seq<Token>)
    ensures toks != [] ==> Reached(m, toks, 0) == toks[0]
  {
  }

  /** Where the first directive of a list is. */
  function FirstHash(toks: seq<Token>): (k: nat)
    ensures k <= |toks|
    ensures k < |toks| ==> IsHash(toks[k])
    ensures forall i :: 0 <= i < k ==> !IsHash(toks[i])
  {
    if toks == [] || IsHash(toks[0]) then 0 else 1 + FirstHash(toks[1..])
  }

  /** The loop stops at token `k` of the source, or if there is none at the end. */
  predicate MeetsAt(m: Table, toks: seq<Token>, k: nat)
    requires k <= |toks|
  {
    var s := Stop(m, toks);
    |s| == |toks| - k && (s != [] ==> s[0].hidden == [])
  }

  /** (a) Every `#` up to there is reached with the mark it has in the source. */
  predicate MarksKept(m: Table, toks: seq<Token>, k: nat) {
    forall i :: 0 <= i < |toks| && i <= k && toks[i].text == "#" ==> Reached(m, toks, i).bol == toks[i].bol
  }

  /** (b) No macro reached at the start of a line expands to a leading `#`. */
  predicate NoneAppears(m: Table, toks: seq<Token>, k: nat) {
    forall i :: 0 <= i < |toks| && i < k && Expandable(m, toks[i]) && Reached(m, toks, i).bol ==> !Leads(m, [Reached(m, toks, i)])
  }

  lemma LeadsAlone(m: Table, t: Token)
    requires !Expandable(m, t)
    ensures Leads(m, [t]) <==> t.text == "#"
  {
    assert Meanings(m, {}, [t]) == [t.text] + Meanings(m, {}, []);
  }

  /** (a) and (b) say that nothing stops the loop before the first directive of the source. */
  lemma PassesIff(m: Table, toks: seq<Token>)
    requires ProperList(toks)
    ensures var k := FirstHash(toks);
      MarksKept(m, toks, k) && NoneAppears(m, toks, k) <==>
      PassesTo(m, toks, k) && (k < |toks| ==> Reached(m, toks, k).bol)
  {
    hide Leads, Reached;
    var k := FirstHash(toks);
    forall i | 0 <= i < |toks|
      ensures !Expandable(m, toks[i]) ==> (Leads(m, [Reached(m, toks, i)]) <==> toks[i].text == "#")
      ensures toks[i].text == "#" ==> !Expandable(m, toks[i])
    {
      ReachedSame(m, toks, i);
      assert toks[i] in toks;
      if !Expandable(m, toks[i]) {
        LeadsAlone(m, Reached(m, toks, i));
      }
    }
  }

  /**
   For every table and every source: the loop meets the first directive of the source, exactly if (a) no expansion
   that ends in nothing has overwritten the mark of a `#` up to there, and (b) no macro puts a `#` at the start
   of a line before it.
   */
  lemma DirectiveMet(m: Table, toks: seq<Token>)
    requires Proper(m) && ProperList(toks) && Fresh(toks)
    ensures var k := FirstHash(toks);
      MeetsAt(m, toks, k) <==> MarksKept(m, toks, k) && NoneAppears(m, toks, k)
  {
    hide Leads, MarksKept, NoneAppears, Reached, Proper, Stop;
    var k := FirstHash(toks);
    PassesIff(m, toks);
    if PassesTo(m, toks, k) {
      PassedTo(m, toks, k);
      if k < |toks| {
        ReachesHash(m, toks, k);
      } else {
        StopsAtNothing(m);
      }
    } else {
      var i := FirstStop(m, toks, k);
      PassedTo(m, toks, i);
      StopsEarly(m, toks, i);
    }
  }

  lemma StopsAtNothing(m: Table)
    ensures Stop(m, []) == []
  {
  }

  lemma {:induction false} FirstStop(m: Table, toks: seq<Token>, k: nat) returns (i: nat)
    requires k <= |toks| && !PassesTo(m, toks, k)
    ensures i < k && PassesTo(m, toks, i) && Reached(m, toks, i).bol && Leads(m, [Reached(m, toks, i)])
    decreases k
  {
    hide Leads, Reached;
    if PassesTo(m, toks, k - 1) {
      i := k - 1;
    } else {
      i := FirstStop(m, toks, k - 1);
    }
  }

  /** At the directive itself: met if its mark is there, else lost for good. */
  lemma ReachesHash(m: Table, toks: seq<Token>, k: nat)
    requires ProperList(toks) && Fresh(toks) && k < |toks| && IsHash(toks[k])
    ensures var s := Stop(m, From(m, toks, k));
      (|s| == |toks| - k && (s != [] ==> s[0].hidden == [])) <==> Reached(m, toks, k).bol
  {
    hide Reached;
    ReachedSame(m, toks, k);
    assert toks[k] in toks;
    var all := From(m, toks, k);
    assert all[0] == Reached(m, toks, k) && all[1..] == toks[k + 1..];
    if !Reached(m, toks, k).bol {
      SourceLeft(m, [], all[1..]);
      assert [] + all[1..] == all[1..];
    }
  }

  /** A stop before the directive of the source leaves too much, or stands at a made token. */
  lemma StopsEarly(m: Table, toks: seq<Token>, i: nat)
    requires Proper(m) && ProperList(toks) && Fresh(toks) && i < |toks|
    requires Reached(m, toks, i).bol && Leads(m, [Reached(m, toks, i)])
    ensures var s := Stop(m, From(m, toks, i)); s != [] && (s[0].hidden != [] || |s| == |toks| - i)
  {
    hide Reached, Proper, Leads, Stop;
    var t := Reached(m, toks, i);
    ReachedSame(m, toks, i);
    assert toks[i] in toks;
    OneToken(m, t);
    if Expandable(m, t) {
      StopsInside(m, [t], toks[i + 1..]);
    } else {
      LeadsAlone(m, t);
      StopsHere(m, From(m, toks, i));
    }
  }

  lemma StopsHere(m: Table, toks: seq<Token>)
    requires toks != [] && IsHash(toks[0]) && !Expandable(m, toks[0])
    ensures Stop(m, toks) == toks
  {
  }

  /** An expansion that ends in nothing, though it does not begin with it, loses the directive on the next line. */
  lemma EndingInNothing()
    ensures
      var m := map["E" := [], "X" := [Token(true, "x", false, false, []), Token(true, "E", false, true, [])]];
      var toks := [Token(true, "X", true, false, []), Token(false, "#", true, false, [])];
      FirstHash(toks) == 1 && !Reached(m, toks, 1).bol && !MeetsAt(m, toks, 1)
  {
    hide Stop, Handed;
    var m := map["E" := [], "X" := [Token(true, "x", false, false, []), Token(true, "E", false, true, [])]];
    var x, h := Token(true, "X", true, false, []), Token(false, "#", true, false, []);
    var toks := [x, h];
    var e := Token(true, "E", false, true, ["X"]);
    var body := [Token(true, "x", true, false, ["X"]), e];
    var raw := Body(m, x);
    assert raw[0] == Token(true, "x", false, false, ["X"]) && raw[1] == e;
    assert [x][1..] == [] && raw + [] == [raw[0], e];
    assert Expanded(m, [x]) == body && body[1..] == [e] && [e][1..] == [];
    assert Body(m, e) == [] && [] + [e][1..] == [];
    assert Expanded(m, [e]) == [];
    HandedStep(m, [x]);
    HandedStep(m, body);
    HandedStep(m, [e]);
    ReachedFirst(m, toks);
    ReachedNext(m, toks, 1);
    assert toks[1..] == [h] && FirstHash(toks[1..]) == 0;
    DirectiveMet(m, toks);
  }

  lemma HandedStep(m: Table, toks: seq<Token>)
    requires toks != []
    ensures Handed(m, toks) ==
            if Expandable(m, toks[0]) then (if Expanded(m, toks) == [] then Some(toks[0]) else Handed(m, Expanded(m, toks)))
            else if |toks| == 1 then None else Handed(m, toks[1..])
  {
    hide Total, Meanings, Expanded;
  }
}
