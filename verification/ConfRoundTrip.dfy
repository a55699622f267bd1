/** Reading back: whatever is laid out as the grammar says is read as that, and how long its parts may be. */
module ConfRoundTrip {
  import opened ConfTokens
  import opened ConfGrammar
  import opened ConfParse

  /** The file holds `text` at `pos`. */
  predicate Holds(file: string, pos: nat, text: string) {
    pos + |text| <= |file| && file[pos..pos + |text|] == text
  }

  lemma HoldsParts(file: string, pos: nat, a: string, b: string)
    requires Holds(file, pos, a + b)
    ensures Holds(file, pos, a) && Holds(file, pos + |a|, b)
  {
    var text := file[pos..pos + |a + b|];
    assert text[..|a|] == a && text[|a|..] == b;
    assert file[pos..pos + |a|] == text[..|a|];
    assert file[pos + |a|..pos + |a| + |b|] == text[|a|..];
  }

  lemma HoldsFirst(file: string, pos: nat, text: string)
    requires Holds(file, pos, text) && text != []
    ensures pos < |file| && file[pos] == text[0] && Holds(file, pos + 1, text[1..])
  {
    HoldsParts(file, pos, text[..1], text[1..]);
    assert text == text[..1] + text[1..];
    assert file[pos..pos + |text|][0] == file[pos];
  }

  /** The scan is inside a word of which it has read `raw`. */
  predicate At(file: string, s: Scan, style: Style, raw: string) {
    && WordText(raw, style) && Mode(s, OpenWord(style, raw, false), false) && Tracks(file, s, OpenWord(style, raw, false))
  }

  /** Some bytes on, in the same word or comment. */
  predicate Onward(s: Scan, t: Scan, n: nat) {
    t.pos == s.pos + n && t.start == s.start && t.args == s.args
  }

  // ---------- inside words and comments ----------

  /** The scan goes over one byte of a word. */
  lemma ReadByte(file: string, s: Scan, style: Style, raw: string) returns (t: Scan)
    requires At(file, s, style, raw) && s.pos < |file| && file[s.pos] != '\\'
    requires !style.Ends(file[s.pos]) || (file[s.pos] == '{' && VariableOpen(raw, style))
    ensures At(file, t, style, raw + [file[s.pos]]) && Onward(s, t, 1)
    ensures VariableOpen(raw + [file[s.pos]], style) ==
            (file[s.pos] == '$' || (file[s.pos] == '{' && VariableOpen(raw, style)))
    ensures Reaches(file, s, t, s.pos == s.start + CONF_BUFFER)
  {
    hide Step, WordText, VariableOpen, Reaches;
    OnWord(file, s, OpenWord(style, raw, false));
    WordGrows(raw, style, file[s.pos]);
    SliceGrows(file, s.start, s.pos, raw);
    t := Step(file, s).s;
    Advance(file, s, t);
  }

  /** Two stretches of a scan. */
  lemma ReachesOn(file: string, s: Scan, t: Scan, u: Scan, a: bool, b: bool)
    requires Reaches(file, s, t, a) && Reaches(file, t, u, b)
    ensures Reaches(file, s, u, a || b)
  {
  }

  /** And over a backslash pair. */
  lemma ReadPair(file: string, s: Scan, style: Style, raw: string) returns (t: Scan)
    requires At(file, s, style, raw) && s.pos + 1 < |file| && file[s.pos] == '\\'
    ensures At(file, t, style, raw + ['\\', file[s.pos + 1]]) && Onward(s, t, 2)
    ensures !VariableOpen(raw + ['\\', file[s.pos + 1]], style)
    ensures Reaches(file, s, t, s.pos <= s.start + CONF_BUFFER < s.pos + 2)
  {
    hide Step, WordText, VariableOpen, Reaches;
    OnWord(file, s, OpenWord(style, raw, false));
    var u := Step(file, s).s;
    Advance(file, s, u);
    OnPending(file, u, OpenWord(style, raw, true));
    t := Step(file, u).s;
    Advance(file, u, t);
    ReachesOn(file, s, u, t, s.pos == s.start + CONF_BUFFER, u.pos == u.start + CONF_BUFFER);
    WordGrowsByPair(raw, style, file[u.pos]);
    SliceGrows(file, s.start, s.pos, raw);
  }

  /** Over one of them. */
  lemma ReadUnit(file: string, s: Scan, style: Style, raw: string, body: string) returns (t: Scan, n: nat)
    requires At(file, s, style, raw) && Body(body, style, VariableOpen(raw, style)) && Holds(file, s.pos, body) && body != []
    ensures 0 < n <= |body| && At(file, t, style, raw + body[..n]) && Onward(s, t, n)
    ensures Body(body[n..], style, VariableOpen(raw + body[..n], style)) && Holds(file, t.pos, body[n..])
    ensures Reaches(file, s, t, s.pos <= s.start + CONF_BUFFER < t.pos)
  {
    hide At, WordText, VariableOpen, Reaches, Holds;
    HoldsFirst(file, s.pos, body);
    if body[0] == '\\' {
      HoldsFirst(file, s.pos + 1, body[1..]);
      assert body[1..][1..] == body[2..] && body[..2] == ['\\', body[1]];
      t := ReadPair(file, s, style, raw);
      n := 2;
    } else {
      assert body[..1] == [body[0]];
      t := ReadByte(file, s, style, raw);
      n := 1;
    }
  }

  /** The scan goes over the rest of a word's text. */
  lemma {:induction false} ReadBody(file: string, s: Scan, style: Style, raw: string, body: string) returns (t: Scan)
    requires At(file, s, style, raw) && Body(body, style, VariableOpen(raw, style)) && Holds(file, s.pos, body)
    ensures At(file, t, style, raw + body) && Onward(s, t, |body|)
    ensures Reaches(file, s, t, s.pos <= s.start + CONF_BUFFER < t.pos)
    decreases |body|
  {
    hide At, Body, VariableOpen, Reaches, Holds;
    if body == [] {
      t := s;
      assert raw + body == raw;
      ReachesItself(file, s);
    } else {
      var u, n := ReadUnit(file, s, style, raw, body);
      SplitAt(raw, body, n);
      t := ReadBody(file, u, style, raw + body[..n], body[n..]);
      ReachesOn(file, s, u, t, s.pos <= s.start + CONF_BUFFER < u.pos, u.pos <= u.start + CONF_BUFFER < t.pos);
    }
  }

  lemma SplitAt(raw: string, body: string, n: nat)
    requires n <= |body|
    ensures raw + body[..n] + body[n..] == raw + body && |body[n..]| == |body| - n
  {
  }

  lemma ReachesItself(file: string, s: Scan)
    ensures Reaches(file, s, s, false)
  {
  }

  /** A comment, from behind its sharp to behind its newline or to wherever it has come. */
  lemma {:induction false} ReadComment(file: string, s: Scan, text: string) returns (t: Scan)
    requires Mode(s, OpenComment(""), false) && '\n' !in text && Holds(file, s.pos, text)
    ensures t == s.(pos := s.pos + |text|)
    ensures Reaches(file, s, t, s.pos <= s.start + CONF_BUFFER < t.pos)
    decreases |text|
  {
    hide Step, Reaches, Holds;
    if text == [] {
      t := s;
      ReachesItself(file, s);
    } else {
      HoldsFirst(file, s.pos, text);
      OnComment(file, s, "");
      var u := Step(file, s).s;
      Advance(file, s, u);
      t := ReadComment(file, u, text[1..]);
      ReachesOn(file, s, u, t, s.pos == s.start + CONF_BUFFER, u.pos <= u.start + CONF_BUFFER < t.pos);
    }
  }

  // ---------- pieces ----------

  /** How far behind the start of the last word or comment the scan is, after a piece. */
  function Distance(p: Piece, gap: nat): nat {
    match p
    case Space(_) => gap + 1
    case Comment(text) => |text| + 2
    case Word(style, raw) => |raw| + |style.Mark()|
  }

  /** Some byte of the piece is read a whole buffer behind that start. */
  predicate Far(p: Piece, gap: nat) {
    || gap == CONF_BUFFER
    || match p
       case Space(_) => false
       case Comment(text) => CONF_BUFFER <= |text| + 1
       case Word(style, raw) => CONF_BUFFER < |raw| + |style.Mark()|
  }

  /** Between words, or right behind a quoted one, and so far behind the start. */
  predicate Between(s: Scan, quote: bool, gap: nat) {
    Mode(s, Nothing, quote) && s.start + gap == s.pos
  }

  lemma ReadSpace(file: string, s: Scan, quote: bool, gap: nat) returns (t: Scan)
    requires Between(s, quote, gap) && s.pos < |file| && White(file[s.pos])
    ensures Between(t, false, gap + 1) && t.pos == s.pos + 1 && t.args == s.args
    ensures Reaches(file, s, t, gap == CONF_BUFFER)
  {
    hide Step, Reaches;
    OnNothing(file, s, quote);
    t := Step(file, s).s;
    Advance(file, s, t);
  }

  lemma ReadWholeComment(file: string, s: Scan, gap: nat, text: string) returns (t: Scan)
    requires Between(s, false, gap) && '\n' !in text && Holds(file, s.pos, "#" + text + "\n")
    ensures Between(t, false, |text| + 2) && t.pos == s.pos + |text| + 2 && t.args == s.args
    ensures Reaches(file, s, t, gap == CONF_BUFFER || CONF_BUFFER <= |text| + 1)
  {
    hide Step, Reaches, Holds;
    assert "#" + text + "\n" == "#" + (text + "\n");
    HoldsParts(file, s.pos, "#", text + "\n");
    HoldsParts(file, s.pos + 1, text, "\n");
    HoldsFirst(file, s.pos, "#");
    HoldsFirst(file, s.pos + 1 + |text|, "\n");
    OnNothing(file, s, false);
    var u := Step(file, s).s;
    Advance(file, s, u);
    var v := ReadComment(file, u, text);
    OnComment(file, v, "");
    t := Step(file, v).s;
    Advance(file, v, t);
    ReachesOn(file, u, v, t, u.pos <= u.start + CONF_BUFFER < v.pos, v.pos == v.start + CONF_BUFFER);
    ReachesOn(file, s, u, t, gap == CONF_BUFFER, CONF_BUFFER <= |text| + 1);
  }

  /** From before a quoted word to its closing quote. */
  lemma OpenQuoted(file: string, s: Scan, gap: nat, style: Style, raw: string) returns (t: Scan)
    requires Between(s, false, gap) && !style.Bare? && WordText(raw, style)
    requires Holds(file, s.pos, style.Mark()) && Holds(file, s.pos + 1, raw)
    ensures At(file, t, style, raw) && t.pos == s.pos + 1 + |raw| && t.start == s.pos + 1 && t.args == s.args
    ensures Reaches(file, s, t, gap == CONF_BUFFER || CONF_BUFFER < |raw|)
  {
    hide Step, Reaches, Holds, Body;
    HoldsFirst(file, s.pos, style.Mark());
    OnNothing(file, s, false);
    var u := Step(file, s).s;
    Advance(file, s, u);
    EmptyText(style);
    Slices(file, s.pos);
    assert "" + raw == raw;
    t := ReadBody(file, u, style, "", raw);
    ReachesOn(file, s, u, t, gap == CONF_BUFFER, u.pos <= u.start + CONF_BUFFER < t.pos);
  }

  lemma ReadQuoted(file: string, s: Scan, gap: nat, style: Style, raw: string) returns (t: Scan)
    requires Between(s, false, gap) && !style.Bare? && WordText(raw, style)
    requires Holds(file, s.pos, style.Mark() + raw + style.Mark())
    ensures Between(t, true, |raw| + 1) && t.pos == s.pos + |raw| + 2 && t.args == s.args + [Decode(raw)]
    ensures Reaches(file, s, t, gap == CONF_BUFFER || CONF_BUFFER <= |raw|)
  {
    hide Step, Reaches, Holds, WordText, VariableOpen, Decode;
    var mark := style.Mark();
    HoldsParts(file, s.pos, mark + raw, mark);
    HoldsParts(file, s.pos, mark, raw);
    HoldsFirst(file, s.pos + 1 + |raw|, mark);
    var v := OpenQuoted(file, s, gap, style, raw);
    OnWordEnd(file, v, OpenWord(style, raw, false));
    t := Step(file, v).s;
    Advance(file, v, t);
    ReachesOn(file, s, v, t, gap == CONF_BUFFER || CONF_BUFFER < |raw|, v.pos == v.start + CONF_BUFFER);
  }

  /** The first byte or pair of a bare word. */
  lemma BeginBare(file: string, s: Scan, quote: bool, gap: nat, raw: string) returns (t: Scan, n: nat)
    requires Between(s, quote, gap) && WordText(raw, Bare) && (quote ==> raw[0] == ')') && Holds(file, s.pos, raw)
    ensures 0 < n <= |raw| && raw[n..] == AfterFirst(raw) && t.pos == s.pos + n && t.start == s.pos && t.args == s.args
    ensures At(file, t, Bare, raw[..n]) && !VariableOpen(raw[..n], Bare) && Holds(file, t.pos, raw[n..])
    ensures Reaches(file, s, t, gap == CONF_BUFFER)
  {
    hide Step, Reaches, Holds, Body;
    HoldsFirst(file, s.pos, raw);
    OnNothing(file, s, quote);
    Slices(file, s.pos);
    t := Step(file, s).s;
    n := 1;
    Advance(file, s, t);
    if raw[0] == '\\' {
      HoldsFirst(file, s.pos + 1, raw[1..]);
      assert raw[1..][1..] == raw[2..] && raw[..2] == [] + ['\\', raw[1]];
      var u := t;
      OnPending(file, u, OpenWord(Bare, "", true));
      t := Step(file, u).s;
      n := 2;
      Advance(file, u, t);
      ReachesOn(file, s, u, t, gap == CONF_BUFFER, false);
      WordGrowsByPair("", Bare, raw[1]);
      SliceGrows(file, s.pos, s.pos, "");
    } else {
      FirstByte(raw[0]);
      assert raw[..1] == [raw[0]];
    }
  }

  lemma ReadBare(file: string, s: Scan, quote: bool, gap: nat, raw: string) returns (t: Scan)
    requires Between(s, quote, gap) && WordText(raw, Bare) && (quote ==> raw[0] == ')') && Holds(file, s.pos, raw)
    ensures At(file, t, Bare, raw) && t.pos == s.pos + |raw| && t.start == s.pos && t.args == s.args
    ensures Reaches(file, s, t, gap == CONF_BUFFER || CONF_BUFFER < |raw|)
  {
    hide Reaches, Holds, Between, At, Body, VariableOpen;
    var u, n := BeginBare(file, s, quote, gap, raw);
    t := ReadBody(file, u, Bare, raw[..n], raw[n..]);
    assert raw[..n] + raw[n..] == raw;
    ReachesOn(file, s, u, t, gap == CONF_BUFFER, u.pos <= u.start + CONF_BUFFER < t.pos);
  }

  /** A bare word and the blank that ends it. */
  lemma ReadBareAndSpace(file: string, s: Scan, quote: bool, gap: nat, raw: string, ch: char) returns (t: Scan)
    requires Between(s, quote, gap) && WordText(raw, Bare) && (quote ==> raw[0] == ')')
    requires White(ch) && Holds(file, s.pos, raw + [ch])
    ensures Between(t, false, |raw| + 1) && t.pos == s.pos + |raw| + 1 && t.args == s.args + [Decode(raw)]
    ensures Reaches(file, s, t, gap == CONF_BUFFER || CONF_BUFFER <= |raw|)
  {
    hide Step, Reaches, Holds, WordText, VariableOpen, Decode;
    HoldsParts(file, s.pos, raw, [ch]);
    HoldsFirst(file, s.pos + |raw|, [ch]);
    var u := ReadBare(file, s, quote, gap, raw);
    OnWordEnd(file, u, OpenWord(Bare, raw, false));
    t := Step(file, u).s;
    Advance(file, u, t);
    ReachesOn(file, s, u, t, gap == CONF_BUFFER || CONF_BUFFER < |raw|, u.pos == u.start + CONF_BUFFER);
  }

  // ---------- layouts ----------

  predicate IsQuoted(p: Piece) {
    p.Word? && !p.style.Bare?
  }

  predicate IsBare(p: Piece) {
    p.Word? && p.style.Bare?
  }

  /** The layout can follow a quoted word, if there is one. */
  predicate Continues(ps: seq<Piece>, quote: bool) {
    quote && ps != [] ==> ps[0].Space? || (IsBare(ps[0]) && ps[0].raw != [] && ps[0].raw[0] == ')')
  }

  function DistanceAfter(ps: seq<Piece>, gap: nat): nat {
    if ps == [] then gap else DistanceAfter(ps[1..], Distance(ps[0], gap))
  }

  predicate SomeFar(ps: seq<Piece>, gap: nat) {
    ps != [] && (Far(ps[0], gap) || SomeFar(ps[1..], Distance(ps[0], gap)))
  }

  lemma LayoutTail(ps: seq<Piece>)
    requires Layout(ps) && ps != []
    ensures ps[0].Proper() && Layout(ps[1..]) && Continues(ps[1..], IsQuoted(ps[0]))
    ensures IsBare(ps[0]) && |ps| > 1 ==> ps[1].Space?
    ensures |ps| > 1 ==> BehindBare(ps[1..]) == BehindBare(ps) && BehindQuote(ps[1..]) == BehindQuote(ps)
    ensures |ps| == 1 ==> BehindBare(ps) == IsBare(ps[0]) && BehindQuote(ps) == IsQuoted(ps[0])
    ensures |ps| == 1 ==> ps[1..] == [] && !BehindBare(ps[1..]) && !BehindQuote(ps[1..])
  {
    hide WordText;
    assert |ps| > 1 ==> MayFollow(ps[0], ps[1]) && ps[1..][0] == ps[1];
    var tail := ps[1..];
    assert forall i :: 0 <= i < |tail| ==> tail[i] == ps[i + 1];
  }

  /** Any piece but a bare word. */
  lemma ReadPiece(file: string, s: Scan, quote: bool, gap: nat, p: Piece) returns (t: Scan)
    requires Between(s, quote, gap) && p.Proper() && !IsBare(p) && (quote ==> p.Space?) && Holds(file, s.pos, p.Text())
    ensures Between(t, IsQuoted(p), Distance(p, gap)) && t.pos == s.pos + |p.Text()| && t.args == s.args + p.Value()
    ensures Reaches(file, s, t, Far(p, gap))
  {
    hide Reaches, Between, WordText, Decode;
    match p {
      case Space(ch) =>
        HoldsFirst(file, s.pos, [ch]);
        t := ReadSpace(file, s, quote, gap);
      case Comment(text) => t := ReadWholeComment(file, s, gap, text);
      case Word(style, raw) => t := ReadQuoted(file, s, gap, style, raw);
    }
  }

  /** The scan goes over the pieces. */
  ghost predicate Passes(file: string, s: Scan, t: Scan, gap: nat, ps: seq<Piece>) {
    t.pos == s.pos + |Text(ps)| && t.args == s.args + Words(ps) && Reaches(file, s, t, SomeFar(ps, gap))
  }

  lemma FirstThenRest(file: string, s: Scan, u: Scan, t: Scan, gap: nat, ps: seq<Piece>)
    requires ps != [] && u.pos == s.pos + |ps[0].Text()| && u.args == s.args + ps[0].Value()
    requires Reaches(file, s, u, Far(ps[0], gap)) && Passes(file, u, t, Distance(ps[0], gap), ps[1..])
    ensures Passes(file, s, t, gap, ps)
  {
    hide Reaches, Far, Distance, Piece.Text, Piece.Value;
    ReachesOn(file, s, u, t, Far(ps[0], gap), SomeFar(ps[1..], Distance(ps[0], gap)));
    assert s.args + ps[0].Value() + Words(ps[1..]) == s.args + (ps[0].Value() + Words(ps[1..]));
  }

  lemma {:induction false} ReadPieces(file: string, s: Scan, quote: bool, gap: nat, ps: seq<Piece>) returns (t: Scan)
    requires Between(s, quote, gap) && Layout(ps) && !BehindBare(ps) && Continues(ps, quote) && Holds(file, s.pos, Text(ps))
    ensures Between(t, if ps == [] then quote else BehindQuote(ps), DistanceAfter(ps, gap)) && Passes(file, s, t, gap, ps)
    decreases |ps|
  {
    hide Between, Layout, Holds, BehindBare, BehindQuote, Far, Distance, Passes, Continues, Piece.Text, Piece.Value,
      Piece.Proper, Reaches, IsQuoted;
    if ps == [] {
      t := s;
      PassesNothing(file, s, gap);
    } else {
      LayoutTail(ps);
      CanFollow(ps, quote);
      HoldsParts(file, s.pos, ps[0].Text(), Text(ps[1..]));
      if IsBare(ps[0]) {
        t := ReadBarePieces(file, s, quote, gap, ps);
      } else {
        var u := ReadPiece(file, s, quote, gap, ps[0]);
        t := ReadPieces(file, u, IsQuoted(ps[0]), Distance(ps[0], gap), ps[1..]);
        FirstThenRest(file, s, u, t, gap, ps);
      }
    }
  }

  lemma CanFollow(ps: seq<Piece>, quote: bool)
    requires Continues(ps, quote) && ps != []
    ensures quote && !IsBare(ps[0]) ==> ps[0].Space?
    ensures quote && IsBare(ps[0]) ==> ps[0].raw != [] && ps[0].raw[0] == ')'
  {
  }

  lemma PassesNothing(file: string, s: Scan, gap: nat)
    ensures Passes(file, s, s, gap, [])
  {
    ReachesItself(file, s);
    assert s.args + [] == s.args;
  }

  lemma {:induction false} ReadBarePieces(file: string, s: Scan, quote: bool, gap: nat, ps: seq<Piece>) returns (t: Scan)
    requires Between(s, quote, gap) && Layout(ps) && !BehindBare(ps) && Continues(ps, quote) && Holds(file, s.pos, Text(ps))
    requires ps != [] && IsBare(ps[0])
    ensures Between(t, BehindQuote(ps), DistanceAfter(ps, gap)) && Passes(file, s, t, gap, ps)
    decreases |ps|, 0
  {
    hide Between, Layout, Holds, BehindBare, BehindQuote, Passes, Continues, WordText, Decode, Reaches, Text, Words;
    LayoutTail(ps);
    LayoutTail(ps[1..]);
    CanFollow(ps, quote);
    var raw, ch, rest := ps[0].raw, ps[1].ch, ps[2..];
    assert rest == ps[1..][1..];
    BareAndSpace(ps, gap);
    HoldsParts(file, s.pos, raw + [ch], Text(rest));
    var u := ReadBareAndSpace(file, s, quote, gap, raw, ch);
    t := ReadPieces(file, u, false, |raw| + 1, rest);
    BareThenRest(file, s, u, t, gap, ps);
  }

  lemma BareThenRest(file: string, s: Scan, u: Scan, t: Scan, gap: nat, ps: seq<Piece>)
    requires |ps| > 1 && IsBare(ps[0]) && ps[1].Space?
    requires u.pos == s.pos + |ps[0].raw| + 1 && u.args == s.args + [Decode(ps[0].raw)]
    requires Reaches(file, s, u, gap == CONF_BUFFER || CONF_BUFFER <= |ps[0].raw|)
    requires Passes(file, u, t, |ps[0].raw| + 1, ps[2..])
    ensures Passes(file, s, t, gap, ps)
  {
    hide Reaches, Decode, Text, Words, SomeFar;
    var raw, rest := ps[0].raw, ps[2..];
    BareAndSpace(ps, gap);
    ReachesOn(file, s, u, t, gap == CONF_BUFFER || CONF_BUFFER <= |raw|, SomeFar(rest, |raw| + 1));
    assert s.args + [Decode(raw)] + Words(rest) == s.args + ([Decode(raw)] + Words(rest));
  }

  lemma BareAndSpace(ps: seq<Piece>, gap: nat)
    requires |ps| > 1 && IsBare(ps[0]) && ps[1].Space?
    ensures var raw, rest := ps[0].raw, ps[2..];
            && Text(ps) == raw + [ps[1].ch] + Text(rest) && Words(ps) == [Decode(raw)] + Words(rest)
            && DistanceAfter(ps, gap) == DistanceAfter(rest, |raw| + 1)
            && (SomeFar(ps, gap) <==> gap == CONF_BUFFER || CONF_BUFFER <= |raw| || SomeFar(rest, |raw| + 1))
  {
    hide Decode;
    TwoPieces(ps);
    assert ps[1..][1..] == ps[2..] && ps[1..][0] == ps[1];
  }

  lemma TwoPieces(ps: seq<Piece>)
    requires |ps| > 1 && IsBare(ps[0]) && ps[1].Space?
    ensures Text(ps) == ps[0].raw + [ps[1].ch] + Text(ps[2..]) && Words(ps) == [Decode(ps[0].raw)] + Words(ps[2..])
  {
    hide Text, Words, Piece.Text, Piece.Value, Decode;
    FirstOf(ps);
    FirstOf(ps[1..]);
    assert ps[1..][1..] == ps[2..] && ps[1..][0] == ps[1];
    BareTextIs(ps[0].raw);
    SpaceTextIs(ps[1].ch);
    Regroup(ps[0].raw, [ps[1].ch], Text(ps[2..]));
    assert [] + Words(ps[2..]) == Words(ps[2..]);
  }

  lemma FirstOf(ps: seq<Piece>)
    requires ps != []
    ensures Text(ps) == ps[0].Text() + Text(ps[1..]) && Words(ps) == ps[0].Value() + Words(ps[1..])
  {
  }

  lemma BareTextIs(raw: string)
    ensures Word(Bare, raw).Text() == raw && Word(Bare, raw).Value() == [Decode(raw)]
  {
  }

  lemma SpaceTextIs(ch: char)
    ensures Space(ch).Text() == [ch] && Space(ch).Value() == []
  {
  }

  // ---------- whole calls ----------

  /** The buffered reader gives up on it: some byte, or the last one, is read a whole buffer behind the start of the
      last word or comment, or of the call. */
  predicate OutOfBuffer(ps: seq<Piece>) {
    SomeFar(ps, 0) || DistanceAfter(ps, 0) == CONF_BUFFER
  }

  lemma {:induction false} DistanceAppend(ps: seq<Piece>, p: Piece, gap: nat)
    ensures DistanceAfter(ps + [p], gap) == Distance(p, DistanceAfter(ps, gap))
    ensures SomeFar(ps + [p], gap) <==> SomeFar(ps, gap) || Far(p, DistanceAfter(ps, gap))
    decreases |ps|
  {
    hide Distance, Far;
    if ps == [] {
      assert (ps + [p])[1..] == [];
    } else {
      assert (ps + [p])[1..] == ps[1..] + [p];
      DistanceAppend(ps[1..], p, Distance(ps[0], gap));
    }
  }

  /** The pieces before the last. */
  lemma LayoutInit(ps: seq<Piece>)
    requires Layout(ps) && BehindBare(ps)
    ensures var init, last := ps[..|ps| - 1], ps[|ps| - 1];
            && ps == init + [last] && Layout(init) && last.Proper() && IsBare(last) && !BehindBare(init)
            && Continues([last], BehindQuote(init))
  {
    hide WordText;
    assert |ps| > 1 ==> MayFollow(ps[|ps| - 2], ps[|ps| - 1]);
  }

  lemma ReadToBare(file: string, pos: nat, ps: seq<Piece>) returns (t: Scan)
    requires Layout(ps) && BehindBare(ps) && Holds(file, pos, Text(ps))
    ensures var raw := ps[|ps| - 1].raw;
            && At(file, t, Bare, raw) && t.pos == pos + |Text(ps)| == t.start + |raw| && t.args + [Decode(raw)] == Words(ps)
            && |raw| == DistanceAfter(ps, 0) && Reaches(file, Fresh(pos), t, SomeFar(ps, 0))
  {
    hide Layout, Holds, Reaches, At, Between, WordText, Decode, Text, Words, SomeFar, DistanceAfter, BehindQuote, Continues,
      BehindBare;
    LayoutInit(ps);
    var init, last := ps[..|ps| - 1], ps[|ps| - 1];
    TextAppend(init, last);
    WordsAppend(init, last);
    DistanceAppend(init, last, 0);
    assert last.Text() == last.raw;
    HoldsParts(file, pos, Text(init), last.raw);
    StartsBetween(pos, init);
    CanFollow([last], BehindQuote(init));
    var u := ReadPieces(file, Fresh(pos), false, 0, init);
    t := ReadBare(file, u, BehindQuote(init), DistanceAfter(init, 0), last.raw);
    ReachesOn(file, Fresh(pos), u, t, SomeFar(init, 0), Far(last, DistanceAfter(init, 0)));
  }

  lemma StartsBetween(pos: nat, ps: seq<Piece>)
    ensures Between(Fresh(pos), false, 0) && Continues(ps, false) && (ps == [] ==> !BehindQuote(ps))
  {
  }

  lemma ReadEndedBare(file: string, pos: nat, ps: seq<Piece>, ch: char, code: Code)
    requires Layout(ps) && Ends(ps, ch, code) && BehindBare(ps) && Holds(file, pos, Text(ps)) && Holds(file, pos + |Text(ps)|, [ch])
    ensures var r := ScanAll(file, Fresh(pos));
            && r.code == code && r.s.args == Words(ps) && r.s.pos == pos + |Text(ps)| + 1
            && (Overlong(file, Fresh(pos)) <==> OutOfBuffer(ps))
  {
    hide Layout, Holds, Step, WordText, Decode, Text, Words, SomeFar, DistanceAfter, Overlong, ScanAll;
    HoldsFirst(file, pos + |Text(ps)|, [ch]);
    LastWordCounts(ps);
    var t := ReadToBare(file, pos, ps);
    OnWordEnd(file, t, OpenWord(Bare, ps[|ps| - 1].raw, false));
    Stop(file, t);
  }

  /** A layout that a byte ends, as a terminator or because it does not fit, is read as its words, with the code for that
      byte; and the reader gives up exactly if it is too long. */
  lemma ReadEnded(file: string, pos: nat, ps: seq<Piece>, ch: char, code: Code)
    requires Layout(ps) && Ends(ps, ch, code) && Holds(file, pos, Text(ps) + [ch])
    ensures var r := ScanAll(file, Fresh(pos));
            && r.code == code && r.s.args == Words(ps) && r.s.pos == pos + |Text(ps)| + 1
            && (Overlong(file, Fresh(pos)) <==> OutOfBuffer(ps))
  {
    hide Layout, Holds, Step, Text, Words, SomeFar, DistanceAfter, Overlong, ScanAll;
    HoldsParts(file, pos, Text(ps), [ch]);
    if BehindBare(ps) {
      ReadEndedBare(file, pos, ps, ch, code);
    } else {
      HoldsFirst(file, pos + |Text(ps)|, [ch]);
      LastWordCounts(ps);
      StartsBetween(pos, ps);
      var t := ReadPieces(file, Fresh(pos), false, 0, ps);
      assert [] + Words(ps) == Words(ps);
      OnNothing(file, t, BehindQuote(ps));
      Stop(file, t);
    }
  }

  /** The beginning of a word at the end of the file. */
  lemma ReadOpenWord(file: string, s: Scan, gap: nat, ps: seq<Piece>, rest: Rest) returns (t: Scan)
    requires Between(s, BehindQuote(ps), gap) && rest.OpenWord? && rest.Proper() && RestMayFollow(ps, rest)
    requires Holds(file, s.pos, rest.Text())
    ensures t.pos == s.pos + |rest.Text()| && t.args == s.args && !t.lastSpace && ScanAll(file, s) == ScanAll(file, t)
  {
    hide Step, Holds, WordText, VariableOpen, ScanAll, Overlong, Between;
    OpenWordText(rest);
    if WordText(rest.raw, rest.style) {
      var head := rest.style.Mark() + rest.raw;
      HoldsParts(file, s.pos, head, if rest.pending then "\\" else []);
      HoldsParts(file, s.pos, rest.style.Mark(), rest.raw);
      t := ReadWordText(file, s, gap, ps, rest);
      if rest.pending {
        t := ReadBackslash(file, t, rest.style, rest.raw);
      }
    } else {
      t := ReadLoneBackslash(file, s, gap);
    }
  }

  lemma OpenWordText(rest: Rest)
    requires rest.OpenWord?
    ensures rest.Text() == rest.style.Mark() + rest.raw + if rest.pending then "\\" else []
    ensures rest.style.Bare? && rest.raw == [] && rest.pending ==> rest.Text() == "\\"
  {
  }

  lemma ReadBackslash(file: string, s: Scan, style: Style, raw: string) returns (t: Scan)
    requires At(file, s, style, raw) && Holds(file, s.pos, "\\")
    ensures t.pos == s.pos + 1 && t.args == s.args && !t.lastSpace && ScanAll(file, s) == ScanAll(file, t)
  {
    hide Step, ScanAll, Overlong, WordText, VariableOpen;
    HoldsFirst(file, s.pos, "\\");
    OnWord(file, s, OpenWord(style, raw, false));
    t := Step(file, s).s;
    Advance(file, s, t);
  }

  lemma ReadLoneBackslash(file: string, s: Scan, gap: nat) returns (t: Scan)
    requires Between(s, false, gap) && Holds(file, s.pos, "\\")
    ensures t.pos == s.pos + 1 && t.args == s.args && !t.lastSpace && ScanAll(file, s) == ScanAll(file, t)
  {
    hide Step, ScanAll, Overlong;
    HoldsFirst(file, s.pos, "\\");
    OnNothing(file, s, false);
    t := Step(file, s).s;
    Advance(file, s, t);
  }

  lemma ReadWordText(file: string, s: Scan, gap: nat, ps: seq<Piece>, rest: Rest) returns (t: Scan)
    requires Between(s, BehindQuote(ps), gap) && rest.OpenWord? && WordText(rest.raw, rest.style) && RestMayFollow(ps, rest)
    requires Holds(file, s.pos, rest.style.Mark()) && Holds(file, s.pos + |rest.style.Mark()|, rest.raw)
    ensures t.pos == s.pos + |rest.style.Mark() + rest.raw| && t.args == s.args && ScanAll(file, s) == ScanAll(file, t)
    ensures At(file, t, rest.style, rest.raw) && !t.lastSpace
  {
    hide Step, Holds, Body, Opens, ScanAll, Overlong;
    if rest.style.Bare? {
      t := ReadBare(file, s, BehindQuote(ps), gap, rest.raw);
    } else {
      HoldsFirst(file, s.pos, rest.style.Mark());
      OnNothing(file, s, false);
      var u := Step(file, s).s;
      Advance(file, s, u);
      EmptyText(rest.style);
      Slices(file, s.pos);
      assert "" + rest.raw == rest.raw;
      t := ReadBody(file, u, rest.style, "", rest.raw);
    }
  }

  lemma ReadOpenComment(file: string, s: Scan, gap: nat, text: string) returns (t: Scan)
    requires Between(s, false, gap) && '\n' !in text && Holds(file, s.pos, "#" + text)
    ensures t.pos == s.pos + |text| + 1 && t.args == s.args && t.lastSpace && ScanAll(file, s) == ScanAll(file, t)
  {
    hide Step, Holds, ScanAll, Overlong;
    HoldsParts(file, s.pos, "#", text);
    HoldsFirst(file, s.pos, "#");
    OnNothing(file, s, false);
    var u := Step(file, s).s;
    Advance(file, s, u);
    t := ReadComment(file, u, text);
  }

  /** A layout at the end of the file, and what is unfinished behind it. */
  lemma ReadUnended(file: string, pos: nat, ps: seq<Piece>, rest: Rest)
    requires Layout(ps) && rest.Proper() && RestMayFollow(ps, rest) && pos <= |file| && file[pos..] == Text(ps) + rest.Text()
    ensures var r := ScanAll(file, Fresh(pos));
            && r.s.args == Words(ps) && r.s.pos == |file|
            && r.code == if Words(ps) == [] && !rest.OpenWord? then FileDone else Error(UnexpectedEnd)
  {
    hide Layout, Step, Text, Words, SomeFar, DistanceAfter, Overlong, ScanAll, Holds, WordText, VariableOpen;
    WholeIsHeld(file, pos, Text(ps) + rest.Text());
    HoldsParts(file, pos, Text(ps), rest.Text());
    StartsBetween(pos, ps);
    LastWordCounts(ps);
    var t := ReadPieces(file, Fresh(pos), false, 0, ps);
    var gap := DistanceAfter(ps, 0);
    assert [] + Words(ps) == Words(ps);
    match rest {
      case Nothing =>
      case OpenComment(text) => t := ReadOpenComment(file, t, gap, text);
      case OpenWord(_, _, _) => t := ReadOpenWord(file, t, gap, ps, rest);
    }
    Stop(file, t);
  }

  lemma WholeIsHeld(file: string, pos: nat, text: string)
    requires pos <= |file| && file[pos..] == text
    ensures Holds(file, pos, text) && pos + |text| == |file|
  {
    assert file[pos..|file|] == file[pos..];
  }

  /** The tokenizer reads exactly the grammar: from any place of any file, a call returns a code and words and comes to a
      place if and only if the text up to there parses so. */
  lemma ReadsTheGrammar(file: string, pos: nat, code: Code, words: seq<string>, end: nat)
    requires pos <= |file|
    ensures var r := ScanAll(file, Fresh(pos));
            r.code == code && r.s.args == words && r.s.pos == end <==>
            exists ps, rest :: Parsed(file, pos, code, words, end, ps, rest)
  {
    hide Parsed, ScanAll;
    var qs, more := EveryCallParses(file, pos);
    forall ps, rest | Parsed(file, pos, code, words, end, ps, rest)
      ensures var r := ScanAll(file, Fresh(pos)); r.code == code && r.s.args == words && r.s.pos == end
    {
      ParseIsRead(file, pos, code, words, end, ps, rest);
    }
  }

  lemma ParseIsRead(file: string, pos: nat, code: Code, words: seq<string>, end: nat, ps: seq<Piece>, rest: Rest)
    requires Parsed(file, pos, code, words, end, ps, rest)
    ensures var r := ScanAll(file, Fresh(pos)); r.code == code && r.s.args == words && r.s.pos == end
  {
    hide Layout, Text, Words, ScanAll, WordText;
    if code == FileDone || code == Error(UnexpectedEnd) {
      ReadUnended(file, pos, ps, rest);
    } else {
      ReadEnded(file, pos, ps, file[end - 1], code);
    }
  }
}
