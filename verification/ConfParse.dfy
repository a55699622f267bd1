/** Every call of the tokenizer parses: what it has read is a layout of the grammar, what it returns are the words of
    that layout, and the code says how the layout ended.
 */
module ConfParse {
  import opened ConfTokens
  import opened ConfGrammar

  /** The flags that go with an unfinished rest; `quote` says that nothing follows a quoted word yet. */
  predicate Mode(s: Scan, rest: Rest, quote: bool) {
    && s.sharpComment == rest.OpenComment?
    && s.quoted == (rest.OpenWord? && rest.pending)
    && s.dQuoted == (rest.OpenWord? && rest.style.Double?)
    && s.sQuoted == (rest.OpenWord? && rest.style.Single?)
    && s.variable == (rest.OpenWord? && !rest.pending && VariableOpen(rest.raw, rest.style))
    && s.needSpace == (rest.Nothing? && quote)
    && s.lastSpace == (!rest.OpenWord? && !s.needSpace)
  }

  /** The word in progress is what the file holds from `start` to the current place. */
  predicate Tracks(file: string, s: Scan, rest: Rest) {
    && s.start <= s.pos <= |file|
    && (rest.OpenWord? ==>
          && s.start + |rest.raw| + (if rest.pending then 1 else 0) == s.pos
          && file[s.start..s.start + |rest.raw|] == rest.raw && (rest.pending ==> file[s.pos - 1] == '\\'))
  }

  /** The scan has read these pieces and the rest. */
  predicate Shows(file: string, s: Scan, ps: seq<Piece>, rest: Rest) {
    && Layout(ps) && rest.Proper() && RestMayFollow(ps, rest) && s.args == Words(ps)
    && Mode(s, rest, BehindQuote(ps)) && Tracks(file, s, rest)
  }

  /** How a call ends at the byte `ch`. */
  predicate Ends(ps: seq<Piece>, ch: char, code: Code) {
    || (Terminates(ps, ch) && code == CodeOf(ch))
    || (Unexpected(ps, ch) && code == Error(UnexpectedChar(ch)))
  }

  // ---------- single turns ----------

  /** Between words. */
  lemma OnNothing(file: string, s: Scan, quote: bool)
    requires Mode(s, Nothing, quote) && s.pos < |file|
    ensures var ch, n := file[s.pos], Step(file, s);
            var t := s.(pos := s.pos + 1);
            && (White(ch) ==> n == More(t.(needSpace := false, lastSpace := true)))
            && (quote && !White(ch) && ch != ')' ==>
                  n == Done(if ch == ';' || ch == '{' then CodeOf(ch) else Error(UnexpectedChar(ch)), t))
            && (!quote && (ch == ';' || ch == '{') ==>
                  n == Done(if s.args == [] then Error(UnexpectedChar(ch)) else CodeOf(ch), t.(start := s.pos)))
            && (!quote && ch == '}' ==>
                  n == Done(if s.args == [] then BlockDone else Error(UnexpectedChar(ch)), t.(start := s.pos)))
            && (!quote && ch == '#' ==> n == More(t.(start := s.pos, sharpComment := true)))
            && (!quote && ch == '\"' ==> n == More(t.(start := s.pos + 1, dQuoted := true, lastSpace := false)))
            && (!quote && ch == '\'' ==> n == More(t.(start := s.pos + 1, sQuoted := true, lastSpace := false)))
            && ((if quote then ch == ')' else !Special(ch)) ==>
                  n == More(t.(start := s.pos, needSpace := false, lastSpace := false, quoted := ch == '\\')))
  {
    hide Inside;
  }

  /** Inside a comment. */
  lemma OnComment(file: string, s: Scan, text: string)
    requires Mode(s, OpenComment(text), false) && s.pos < |file|
    ensures Step(file, s) == More(s.(pos := s.pos + 1, sharpComment := file[s.pos] != '\n'))
  {
  }

  /** Behind a backslash. */
  lemma OnPending(file: string, s: Scan, rest: Rest)
    requires rest.OpenWord? && rest.pending && Mode(s, rest, false) && s.pos < |file|
    ensures Step(file, s) == More(s.(pos := s.pos + 1, quoted := false))
  {
  }

  /** Inside a word, at a byte that does not end it. */
  lemma OnWord(file: string, s: Scan, rest: Rest)
    requires rest.OpenWord? && !rest.pending && Mode(s, rest, false) && s.pos < |file|
    requires !rest.style.Ends(file[s.pos]) || (file[s.pos] == '{' && s.variable)
    ensures var ch := file[s.pos];
            Step(file, s) == More(s.(pos := s.pos + 1, quoted := ch == '\\',
                                     variable := ch == '$' || (ch == '{' && s.variable)))
  {
    hide Begin, EndWord;
  }

  /** At the byte that ends a word. */
  lemma OnWordEnd(file: string, s: Scan, rest: Rest)
    requires rest.OpenWord? && !rest.pending && Mode(s, rest, false) && Tracks(file, s, rest) && s.pos < |file|
    requires WordText(rest.raw, rest.style) && rest.style.Ends(file[s.pos]) && !(file[s.pos] == '{' && s.variable)
    ensures var ch, n := file[s.pos], Step(file, s);
            var t := s.(pos := s.pos + 1, args := s.args + [Decode(rest.raw)], variable := false, dQuoted := false,
                        sQuoted := false, needSpace := !rest.style.Bare?, lastSpace := rest.style.Bare?);
            n == if rest.style.Bare? && !White(ch) then Done(CodeOf(ch), t) else More(t)
  {
    hide Begin, Unescape, Decode, WordText;
    WordIsClosed(rest.raw, rest.style);
    UnescapeDecodes(file, s.start, s.pos);
  }

  // ---------- single turns, as growth of the layout ----------

  /** What a turn does to the pieces and the rest. */
  ghost predicate Grows(file: string, s: Scan, ps: seq<Piece>, rest: Rest, qs: seq<Piece>, more: Rest)
    requires s.pos < |file|
  {
    var n := Step(file, s);
    && Text(qs) + more.Text() == Text(ps) + rest.Text() + [file[s.pos]]
    && Shows(file, n.s, qs, more)
  }

  /** What it finishes. */
  ghost predicate Finishes(file: string, s: Scan, ps: seq<Piece>, rest: Rest, qs: seq<Piece>)
    requires s.pos < |file|
  {
    var n := Step(file, s);
    n.Done? && Text(qs) == Text(ps) + rest.Text() && Layout(qs) && n.s.args == Words(qs) && Ends(qs, file[s.pos], n.code)
  }

  lemma OneMorePiece(ps: seq<Piece>, p: Piece)
    requires Layout(ps) && p.Proper() && (ps != [] ==> MayFollow(ps[|ps| - 1], p))
    ensures Layout(ps + [p]) && Words(ps + [p]) == Words(ps) + p.Value() && Text(ps + [p]) == Text(ps) + p.Text()
    ensures BehindQuote(ps + [p]) == (p.Word? && !p.style.Bare?) && BehindBare(ps + [p]) == (p.Word? && p.style.Bare?)
  {
    hide *;
    LayoutAppend(ps, p);
    TextAppend(ps, p);
    WordsAppend(ps, p);
    LastIs(ps, p);
  }

  lemma LastIs(ps: seq<Piece>, p: Piece)
    ensures BehindQuote(ps + [p]) == (p.Word? && !p.style.Bare?) && BehindBare(ps + [p]) == (p.Word? && p.style.Bare?)
  {
    assert (ps + [p])[|ps|] == p;
  }

  /** Two texts around a byte. */
  lemma Regroup(a: string, b: string, c: string)
    ensures a + (b + c) == a + b + c && a + [] == a
  {
  }

  lemma ShowsNothing(file: string, s: Scan, ps: seq<Piece>) returns (qs: seq<Piece>, more: Rest)
    requires Shows(file, s, ps, Nothing) && s.pos < |file|
    ensures if Step(file, s).More? then Grows(file, s, ps, Nothing, qs, more) else Finishes(file, s, ps, Nothing, qs)
  {
    hide Step, Shows, Grows, Finishes, White, BehindQuote;
    var ch, quote := file[s.pos], BehindQuote(ps);
    qs, more := ps, Nothing;
    if White(ch) {
      qs := NothingThenSpace(file, s, ps);
    } else if if quote then ch == ')' else !Special(ch) {
      more := NothingThenBare(file, s, ps);
    } else if !quote && (ch == '#' || ch == '\"' || ch == '\'') {
      more := NothingThenMark(file, s, ps);
    } else {
      NothingThenEnd(file, s, ps);
    }
  }

  lemma NothingThenSpace(file: string, s: Scan, ps: seq<Piece>) returns (qs: seq<Piece>)
    requires Shows(file, s, ps, Nothing) && s.pos < |file| && White(file[s.pos])
    ensures Step(file, s).More? && Grows(file, s, ps, Nothing, qs, Nothing)
  {
    hide Step, Layout, Text, Words, MayFollow;
    var ch := file[s.pos];
    OnNothing(file, s, BehindQuote(ps));
    qs := ps + [Space(ch)];
    SpaceFollows(ps, ch);
    OneMorePiece(ps, Space(ch));
    Regroup(Text(ps), [], [ch]);
  }

  lemma NothingThenMark(file: string, s: Scan, ps: seq<Piece>) returns (more: Rest)
    requires Shows(file, s, ps, Nothing) && s.pos < |file| && !BehindQuote(ps)
    requires file[s.pos] == '#' || file[s.pos] == '\"' || file[s.pos] == '\''
    ensures Step(file, s).More? && Grows(file, s, ps, Nothing, ps, more)
  {
    hide Step, Layout, Text, Words, WordText, VariableOpen;
    var ch := file[s.pos];
    OnNothing(file, s, false);
    Slices(file, s.pos);
    more := if ch == '#' then OpenComment("") else OpenWord(if ch == '\"' then Double else Single, "", false);
    EmptyText(Double);
    EmptyText(Single);
    assert more.Text() == [ch];
    Regroup(Text(ps), [], [ch]);
  }

  lemma NothingThenBare(file: string, s: Scan, ps: seq<Piece>) returns (more: Rest)
    requires Shows(file, s, ps, Nothing) && s.pos < |file|
    requires if BehindQuote(ps) then file[s.pos] == ')' else !Special(file[s.pos])
    ensures Step(file, s).More? && Grows(file, s, ps, Nothing, ps, more)
  {
    hide Step, Layout, Text, Words, WordText, VariableOpen, Rest.Text;
    var ch := file[s.pos];
    OnNothing(file, s, BehindQuote(ps));
    Slices(file, s.pos);
    more := if ch == '\\' then OpenWord(Bare, "", true) else OpenWord(Bare, [ch], false);
    FirstByte(ch);
    BareRestText(ch);
    NothingText();
    Regroup(Text(ps), [], [ch]);
  }

  lemma BareRestText(ch: char)
    ensures OpenWord(Bare, "", true).Text() == "\\" && OpenWord(Bare, [ch], false).Text() == [ch]
  {
  }

  lemma NothingText()
    ensures Nothing.Text() == []
  {
  }

  lemma NothingThenEnd(file: string, s: Scan, ps: seq<Piece>)
    requires Shows(file, s, ps, Nothing) && s.pos < |file| && !White(file[s.pos])
    requires if BehindQuote(ps) then file[s.pos] != ')' else file[s.pos] in {';', '{', '}'}
    ensures Step(file, s).Done? && Finishes(file, s, ps, Nothing, ps)
  {
    hide Step, Layout, Text, Words;
    OnNothing(file, s, BehindQuote(ps));
    LastWordCounts(ps);
    Regroup(Text(ps), [], []);
  }

  lemma Slices(file: string, pos: nat)
    requires pos < |file|
    ensures file[pos..pos] == "" && file[pos + 1..pos + 1] == "" && file[pos..pos + 1] == [file[pos]]
  {
  }

  lemma LastWordCounts(ps: seq<Piece>)
    ensures BehindQuote(ps) || BehindBare(ps) ==> Words(ps) != []
  {
    if ps != [] {
      assert ps == ps[..|ps| - 1] + [ps[|ps| - 1]];
      WordsAppend(ps[..|ps| - 1], ps[|ps| - 1]);
    }
  }

  lemma SpaceFollows(ps: seq<Piece>, ch: char)
    ensures ps != [] ==> MayFollow(ps[|ps| - 1], Space(ch))
  {
  }

  lemma EmptyText(style: Style)
    ensures !style.Bare? ==> WordText("", style) && !VariableOpen("", style)
  {
  }

  lemma FirstByte(ch: char)
    ensures !Special(ch) && ch != '\\' ==> WordText([ch], Bare) && !VariableOpen([ch], Bare)
  {
  }

  lemma ShowsComment(file: string, s: Scan, ps: seq<Piece>, text: string) returns (qs: seq<Piece>, more: Rest)
    requires Shows(file, s, ps, OpenComment(text)) && s.pos < |file|
    ensures Step(file, s).More? && Grows(file, s, ps, OpenComment(text), qs, more)
  {
    hide Step, Layout, Text, Words, MayFollow;
    OnComment(file, s, text);
    var ch := file[s.pos];
    if ch == '\n' {
      qs, more := ps + [Comment(text)], Nothing;
      CommentFollows(ps, text);
      OneMorePiece(ps, Comment(text));
    } else {
      qs, more := ps, OpenComment(text + [ch]);
    }
    assert "#" + text + [ch] == "#" + (text + [ch]);
    Regroup(Text(ps), "#" + text, [ch]);
  }

  lemma CommentFollows(ps: seq<Piece>, text: string)
    ensures !BehindQuote(ps) && !BehindBare(ps) && ps != [] ==> MayFollow(ps[|ps| - 1], Comment(text))
  {
  }

  lemma SliceGrows(file: string, lo: nat, hi: nat, raw: string)
    requires lo <= hi < |file| && file[lo..hi] == raw
    ensures file[lo..hi + 1] == raw + [file[hi]] && (hi + 1 < |file| ==> file[lo..hi + 2] == raw + [file[hi], file[hi + 1]])
  {
  }

  /** The text read, with one more byte of a word. */
  lemma OpenTexts(ps: seq<Piece>, style: Style, raw: string, ch: char)
    ensures var read := Text(ps) + OpenWord(style, raw, false).Text() + [ch];
            && Text(ps) + OpenWord(style, raw + [ch], false).Text() == read
            && (ch == '\\' ==> Text(ps) + OpenWord(style, raw, true).Text() == read)
    ensures Text(ps) + OpenWord(style, raw + ['\\', ch], false).Text() == Text(ps) + OpenWord(style, raw, true).Text() + [ch]
  {
    hide Text;
    var m := style.Mark();
    assert m + raw + [] == m + raw && m + (raw + [ch]) + [] == m + raw + [ch];
    assert m + (raw + ['\\', ch]) + [] == m + raw + "\\" + [ch];
    Regroup(Text(ps), m + raw, [ch]);
    Regroup(Text(ps), m + raw + "\\", [ch]);
  }

  lemma ShowsPending(file: string, s: Scan, ps: seq<Piece>, rest: Rest) returns (more: Rest)
    requires Shows(file, s, ps, rest) && rest.OpenWord? && rest.pending && s.pos < |file|
    ensures Step(file, s).More? && Grows(file, s, ps, rest, ps, more)
  {
    hide Step, Layout, Text, Words, WordText, VariableOpen, Rest.Text;
    OnPending(file, s, rest);
    var raw, ch := rest.raw, file[s.pos];
    more := OpenWord(rest.style, raw + ['\\', ch], false);
    WordGrowsByPair(raw, rest.style, ch);
    SliceGrows(file, s.start, s.pos - 1, raw);
    OpenTexts(ps, rest.style, raw, ch);
  }

  lemma ShowsWord(file: string, s: Scan, ps: seq<Piece>, rest: Rest) returns (more: Rest)
    requires Shows(file, s, ps, rest) && rest.OpenWord? && !rest.pending && s.pos < |file|
    requires !rest.style.Ends(file[s.pos]) || (file[s.pos] == '{' && s.variable)
    ensures Step(file, s).More? && Grows(file, s, ps, rest, ps, more)
  {
    hide Step, Layout, Text, Words, WordText, VariableOpen, Rest.Text;
    OnWord(file, s, rest);
    var raw, ch := rest.raw, file[s.pos];
    SliceGrows(file, s.start, s.pos, raw);
    if ch == '\\' {
      more := rest.(pending := true);
    } else {
      more := rest.(raw := raw + [ch]);
      WordGrows(raw, rest.style, ch);
      NotEmpty(raw, ch);
    }
    OpenTexts(ps, rest.style, raw, ch);
  }

  lemma NotEmpty(raw: string, ch: char)
    ensures raw + [ch] != [] && (raw != [] ==> (raw + [ch])[0] == raw[0])
  {
  }

  lemma ShowsWordEnd(file: string, s: Scan, ps: seq<Piece>, rest: Rest) returns (qs: seq<Piece>)
    requires Shows(file, s, ps, rest) && rest.OpenWord? && !rest.pending && s.pos < |file|
    requires rest.style.Ends(file[s.pos]) && !(file[s.pos] == '{' && s.variable)
    ensures if Step(file, s).More? then Grows(file, s, ps, rest, qs, Nothing) else Finishes(file, s, ps, rest, qs)
  {
    hide Step, Layout, Text, Words, WordText, VariableOpen, MayFollow, Decode;
    var word, ch := Word(rest.style, rest.raw), file[s.pos];
    OnWordEnd(file, s, rest);
    WordFollows(ps, rest);
    OneMorePiece(ps, word);
    qs := ps + [word];
    LastWordCounts(qs);
    var mark := rest.style.Mark();
    if rest.style.Bare? {
      assert mark + rest.raw + mark == rest.raw == mark + rest.raw + [];
      if White(ch) {
        SpaceFollows(qs, ch);
        OneMorePiece(qs, Space(ch));
        qs := qs + [Space(ch)];
      }
    } else {
      assert mark == [ch];
      assert mark + rest.raw + [] + [ch] == mark + rest.raw + mark;
    }
    Regroup(Text(ps), rest.Text(), [ch]);
  }

  lemma WordFollows(ps: seq<Piece>, rest: Rest)
    requires rest.OpenWord? && RestMayFollow(ps, rest)
    ensures ps != [] ==> MayFollow(ps[|ps| - 1], Word(rest.style, rest.raw))
  {
  }

  lemma OneTurn(file: string, s: Scan, ps: seq<Piece>, rest: Rest) returns (qs: seq<Piece>, more: Rest)
    requires Shows(file, s, ps, rest) && s.pos < |file|
    ensures if Step(file, s).More? then Grows(file, s, ps, rest, qs, more) else Finishes(file, s, ps, rest, qs)
  {
    hide Step, Shows, Grows, Finishes;
    qs, more := ps, Nothing;
    match rest {
      case Nothing => qs, more := ShowsNothing(file, s, ps);
      case OpenComment(text) => qs, more := ShowsComment(file, s, ps, text);
      case OpenWord(style, raw, pending) =>
        if pending {
          more := ShowsPending(file, s, ps, rest);
        } else if style.Ends(file[s.pos]) && !(file[s.pos] == '{' && s.variable) {
          qs := ShowsWordEnd(file, s, ps, rest);
        } else {
          more := ShowsWord(file, s, ps, rest);
        }
    }
  }

  // ---------- whole calls ----------

  /** A call that started at `pos` and came to `end` has read these pieces, and the rest at the end of the file or else
      one byte more; `words` are theirs, and the code says how it ended. */
  predicate Parsed(file: string, pos: nat, code: Code, words: seq<string>, end: nat, ps: seq<Piece>, rest: Rest) {
    && pos <= end <= |file| && Layout(ps) && words == Words(ps)
    && if code == FileDone || code == Error(UnexpectedEnd) then
         && end == |file| && rest.Proper() && RestMayFollow(ps, rest) && file[pos..] == Text(ps) + rest.Text()
         && (code == FileDone <==> Words(ps) == [] && !rest.OpenWord?)
       else
         pos < end && file[pos..end] == Text(ps) + [file[end - 1]] && Ends(ps, file[end - 1], code)
  }

  lemma EndParses(file: string, pos: nat, s: Scan, ps: seq<Piece>, rest: Rest)
    requires Shows(file, s, ps, rest) && s.pos == |file| && pos <= s.pos && file[pos..s.pos] == Text(ps) + rest.Text()
    ensures Parsed(file, pos, AtEnd(s), s.args, s.pos, ps, rest)
  {
    hide Layout, Text, Words, WordText, VariableOpen;
    LastWordCounts(ps);
    assert file[pos..] == file[pos..s.pos];
  }

  lemma StopParses(file: string, pos: nat, s: Scan, ps: seq<Piece>, rest: Rest, qs: seq<Piece>)
    requires s.pos < |file| && pos <= s.pos && file[pos..s.pos] == Text(ps) + rest.Text()
    requires Finishes(file, s, ps, rest, qs)
    ensures var r := Step(file, s); Parsed(file, pos, r.code, r.s.args, r.s.pos, qs, Nothing)
  {
    hide Step, Layout, Text, Words, Terminates, Unexpected;
    assert file[pos..s.pos + 1] == file[pos..s.pos] + [file[s.pos]];
  }

  lemma {:induction false} ScanParses(file: string, pos: nat, s: Scan, ps: seq<Piece>, rest: Rest)
    returns (qs: seq<Piece>, more: Rest)
    requires Shows(file, s, ps, rest) && pos <= s.pos && file[pos..s.pos] == Text(ps) + rest.Text()
    ensures var r := ScanAll(file, s); Parsed(file, pos, r.code, r.s.args, r.s.pos, qs, more)
    decreases |file| - s.pos
  {
    hide Step, Mode, Tracks, Layout, Text, Words, Finishes, Parsed, AtEnd, RestMayFollow;
    if s.pos >= |file| {
      qs, more := ps, rest;
      InsideFile(file, s, ps, rest);
      EndParses(file, pos, s, ps, rest);
    } else {
      qs, more := OneTurn(file, s, ps, rest);
      if Step(file, s).More? {
        assert file[pos..s.pos + 1] == file[pos..s.pos] + [file[s.pos]];
        qs, more := ScanParses(file, pos, Step(file, s).s, qs, more);
      } else {
        StopParses(file, pos, s, ps, rest, qs);
        more := Nothing;
      }
    }
  }

  lemma InsideFile(file: string, s: Scan, ps: seq<Piece>, rest: Rest)
    requires Shows(file, s, ps, rest)
    ensures s.pos <= |file|
  {
  }

  /** Every call, from anywhere in any file: the text it reads is a layout and what ends it, every byte of it accounted
      for; the words returned are exactly those of the layout, in order; and the code tells how it ended: at a
      terminator that fits, at a byte that does not, or at the end of the file. */
  lemma EveryCallParses(file: string, pos: nat) returns (ps: seq<Piece>, rest: Rest)
    requires pos <= |file|
    ensures var r := ScanAll(file, Fresh(pos)); Parsed(file, pos, r.code, r.s.args, r.s.pos, ps, rest)
  {
    assert file[pos..pos] == [] + [];
    assert Shows(file, Fresh(pos), [], Nothing);
    ps, rest := ScanParses(file, pos, Fresh(pos), [], Nothing);
  }
}
