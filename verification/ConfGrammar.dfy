/** The language of nginx's configuration files, as a grammar: blanks, comments and words in three styles, up to a
    terminator. The tokenizer reads exactly this language.
 */
module ConfGrammar {
  import opened ConfTokens

  /** Space, tab, carriage return and newline. */
  predicate White(ch: char) {
    ch in {' ', '\t', '\r', '\n'}
  }

  // ---------- words ----------

  /** How a word is written: in double quotes, in single quotes, or bare. */
  datatype Style = Double | Single | Bare {
    /** Ends a word of this style, unless a backslash stands before it. */
    predicate Ends(ch: char) {
      match this
      case Double => ch == '\"'
      case Single => ch == '\''
      case Bare => White(ch) || ch == ';' || ch == '{'
    }

    /** What stands in front of the word and behind it. */
    function Mark(): string {
      match this
      case Double => "\""
      case Single => "\'"
      case Bare => ""
    }
  }

  /** A stretch inside a word: every backslash has the byte it quotes, and no other byte ends the word. Braces behind a
      dollar sign belong to a variable and do not count; `open` says whether they may follow. */
  predicate Body(raw: string, style: Style, open: bool) {
    raw == [] ||
    (if raw[0] == '\\' then |raw| > 1 && Body(raw[2..], style, false)
     else if raw[0] == '{' && open then Body(raw[1..], style, true)
     else !style.Ends(raw[0]) && Body(raw[1..], style, raw[0] == '$'))
  }

  /** Whether a brace behind the stretch belongs to a variable. */
  predicate Opens(raw: string, open: bool) {
    if raw == [] then open
    else if raw[0] == '\\' then |raw| > 1 && Opens(raw[2..], false)
    else Opens(raw[1..], raw[0] == '$' || (raw[0] == '{' && open))
  }

  /** Cannot begin a bare word. */
  predicate Special(ch: char) {
    White(ch) || ch == ';' || ch == '{' || ch == '}' || ch == '#' || ch == '\"' || ch == '\''
  }

  /** The text of a bare word behind its first byte or pair; there a dollar sign is not looked at. */
  function AfterFirst(raw: string): string {
    if raw == [] then [] else if raw[0] == '\\' then (if |raw| > 1 then raw[2..] else []) else raw[1..]
  }

  /** The text of a word, without quotes. */
  predicate WordText(raw: string, style: Style) {
    if style.Bare? then raw != [] && !Special(raw[0]) && (raw[0] == '\\' ==> |raw| > 1) && Body(AfterFirst(raw), Bare, false)
    else Body(raw, style, false)
  }

  /** A brace behind the word would belong to a variable in it. */
  predicate VariableOpen(raw: string, style: Style) {
    Opens(if style.Bare? then AfterFirst(raw) else raw, false)
  }

  lemma {:induction false} BodyAppend(raw: string, more: string, style: Style, open: bool)
    requires Body(raw, style, open) && Body(more, style, Opens(raw, open))
    ensures Body(raw + more, style, open) && Opens(raw + more, open) == Opens(more, Opens(raw, open))
    decreases |raw|
  {
    if raw == [] {
      assert raw + more == more;
    } else if raw[0] == '\\' {
      BodyAppend(raw[2..], more, style, false);
      assert (raw + more)[2..] == raw[2..] + more;
    } else {
      BodyAppend(raw[1..], more, style, raw[0] == '$' || (raw[0] == '{' && open));
      assert (raw + more)[1..] == raw[1..] + more;
    }
  }

  lemma WordAppend(raw: string, more: string, style: Style)
    requires WordText(raw, style) && Body(more, style, VariableOpen(raw, style))
    ensures WordText(raw + more, style) && VariableOpen(raw + more, style) == Opens(more, VariableOpen(raw, style))
  {
    hide Body, Opens;
    if style.Bare? {
      BodyAppend(AfterFirst(raw), more, style, false);
      assert AfterFirst(raw + more) == AfterFirst(raw) + more;
    } else {
      BodyAppend(raw, more, style, false);
    }
  }

  /** One more byte. */
  lemma WordGrows(raw: string, style: Style, ch: char)
    requires WordText(raw, style) && ch != '\\'
    requires !style.Ends(ch) || (ch == '{' && VariableOpen(raw, style))
    ensures WordText(raw + [ch], style)
    ensures VariableOpen(raw + [ch], style) == (ch == '$' || (ch == '{' && VariableOpen(raw, style)))
  {
    hide WordText, VariableOpen;
    assert [ch][1..] == [];
    WordAppend(raw, [ch], style);
  }

  lemma PairIsBody(style: Style, ch: char, open: bool)
    ensures Body(['\\', ch], style, open) && !Opens(['\\', ch], open)
  {
    assert ['\\', ch][2..] == [];
  }

  /** One more backslash pair, which can be the first thing of a bare word. */
  lemma WordGrowsByPair(raw: string, style: Style, ch: char)
    requires WordText(raw, style) || (style.Bare? && raw == [])
    ensures WordText(raw + ['\\', ch], style) && !VariableOpen(raw + ['\\', ch], style)
  {
    hide Body, Opens;
    if WordText(raw, style) {
      PairIsBody(style, ch, VariableOpen(raw, style));
      WordAppend(raw, ['\\', ch], style);
    } else {
      assert raw + ['\\', ch] == ['\\', ch];
      FirstPair(ch);
    }
  }

  lemma FirstPair(ch: char)
    ensures WordText(['\\', ch], Bare) && !VariableOpen(['\\', ch], Bare)
  {
    assert ['\\', ch][2..] == [];
  }

  lemma {:induction false} BodyIsClosed(raw: string, style: Style, open: bool)
    requires Body(raw, style, open)
    ensures Closed(raw)
    decreases |raw|
  {
    if raw != [] {
      if raw[0] == '\\' {
        BodyIsClosed(raw[2..], style, false);
      } else {
        BodyIsClosed(raw[1..], style, raw[0] == '$' || (raw[0] == '{' && open));
      }
    }
  }

  lemma WordIsClosed(raw: string, style: Style)
    requires WordText(raw, style)
    ensures Closed(raw)
  {
    BodyIsClosed(if style.Bare? then AfterFirst(raw) else raw, style, false);
  }

  // ---------- layouts ----------

  datatype Piece = Space(ch: char) | Comment(text: string) | Word(style: Style, raw: string) {
    function Text(): string {
      match this
      case Space(ch) => [ch]
      case Comment(text) => "#" + text + "\n"
      case Word(style, raw) => style.Mark() + raw + style.Mark()
    }

    predicate Proper() {
      match this
      case Space(ch) => White(ch)
      case Comment(text) => '\n' !in text
      case Word(style, raw) => WordText(raw, style)
    }

    /** What the piece adds to the directive. */
    function Value(): seq<string> {
      if Word? then [Decode(raw)] else []
    }
  }

  function Text(ps: seq<Piece>): string {
    if ps == [] then [] else ps[0].Text() + Text(ps[1..])
  }

  /** The words of a directive. */
  function Words(ps: seq<Piece>): seq<string> {
    if ps == [] then [] else ps[0].Value() + Words(ps[1..])
  }

  /** A word is followed by a blank; only a quoted one can be followed by a bare word that begins with a closing
      parenthesis. */
  predicate MayFollow(p: Piece, q: Piece) {
    p.Word? ==> q.Space? || (!p.style.Bare? && q.Word? && q.style.Bare? && q.raw != [] && q.raw[0] == ')')
  }

  predicate Layout(ps: seq<Piece>) {
    && (forall i :: 0 <= i < |ps| ==> ps[i].Proper())
    && (forall i :: 0 <= i < |ps| - 1 ==> MayFollow(ps[i], ps[i + 1]))
  }

  /** The layout ends with a quoted word. */
  predicate BehindQuote(ps: seq<Piece>) {
    ps != [] && ps[|ps| - 1].Word? && !ps[|ps| - 1].style.Bare?
  }

  predicate BehindBare(ps: seq<Piece>) {
    ps != [] && ps[|ps| - 1].Word? && ps[|ps| - 1].style.Bare?
  }

  /** A brace behind the layout would belong to a variable. */
  predicate BehindVariable(ps: seq<Piece>) {
    BehindBare(ps) && VariableOpen(ps[|ps| - 1].raw, Bare)
  }

  /** A semicolon or an opening brace ends a directive that has words, a closing brace stands alone. */
  predicate Terminates(ps: seq<Piece>, ch: char) {
    || (ch == ';' && Words(ps) != [])
    || (ch == '{' && Words(ps) != [] && !BehindVariable(ps))
    || (ch == '}' && Words(ps) == [])
  }

  function CodeOf(ch: char): Code {
    if ch == ';' then Ok else if ch == '{' then BlockStart else BlockDone
  }

  /** The byte does not fit: behind a quoted word, or as a terminator. */
  predicate Unexpected(ps: seq<Piece>, ch: char) {
    if BehindQuote(ps) then !White(ch) && ch != ';' && ch != '{' && ch != ')'
    else !BehindBare(ps) && if ch == '}' then Words(ps) != [] else (ch == ';' || ch == '{') && Words(ps) == []
  }

  lemma {:induction false} TextAppend(ps: seq<Piece>, p: Piece)
    ensures Text(ps + [p]) == Text(ps) + p.Text()
    decreases |ps|
  {
    hide Piece.Text;
    if ps == [] {
      assert (ps + [p])[1..] == [];
    } else {
      TextAppend(ps[1..], p);
      assert (ps + [p])[1..] == ps[1..] + [p];
      assert ps[0].Text() + (Text(ps[1..]) + p.Text()) == Text(ps) + p.Text();
    }
  }

  lemma {:induction false} WordsAppend(ps: seq<Piece>, p: Piece)
    ensures Words(ps + [p]) == Words(ps) + p.Value()
    decreases |ps|
  {
    hide Piece.Value;
    if ps == [] {
      assert (ps + [p])[1..] == [];
    } else {
      WordsAppend(ps[1..], p);
      assert (ps + [p])[1..] == ps[1..] + [p];
      assert ps[0].Value() + (Words(ps[1..]) + p.Value()) == Words(ps) + p.Value();
    }
  }

  lemma LayoutAppend(ps: seq<Piece>, p: Piece)
    requires Layout(ps) && p.Proper() && (ps != [] ==> MayFollow(ps[|ps| - 1], p))
    ensures Layout(ps + [p])
  {
  }

  // ---------- what is unfinished ----------

  /** The rest behind the last piece: nothing, the beginning of a comment, or the beginning of a word, of which a
      backslash may still wait for its byte. */
  datatype Rest = Nothing | OpenComment(text: string) | OpenWord(style: Style, raw: string, pending: bool) {
    function Text(): string {
      match this
      case Nothing => []
      case OpenComment(text) => "#" + text
      case OpenWord(style, raw, pending) => style.Mark() + raw + if pending then "\\" else []
    }

    predicate Proper() {
      match this
      case Nothing => true
      case OpenComment(text) => '\n' !in text
      case OpenWord(style, raw, pending) => WordText(raw, style) || (style.Bare? && raw == [] && pending)
    }
  }

  predicate RestMayFollow(ps: seq<Piece>, rest: Rest) {
    && !BehindBare(ps)
    && (BehindQuote(ps) ==> rest.Nothing? || (rest.OpenWord? && rest.style.Bare? && rest.raw != [] && rest.raw[0] == ')'))
  }
}
