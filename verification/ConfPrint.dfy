/** Printing words so that the tokenizer reads them back: bare, in single or in double quotes, with any blanks and
    comments between them.
 */
module ConfPrint {
  import opened ConfTokens
  import opened ConfGrammar
  import opened ConfParse
  import opened ConfRoundTrip

  /** One byte of a word, as it is written in this style. */
  function EscapeByte(ch: char, style: Style): string {
    if ch == '\\' || (ch == '\"' && !style.Single?) || (ch == '\'' && !style.Double?) then ['\\', ch]
    else if !style.Bare? then [ch]
    else
      match ch
      case '\t' => "\\t"
      case '\r' => "\\r"
      case '\n' => "\\n"
      case _ => [ch]
  }

  function Escape(word: string, style: Style): string {
    if word == [] then [] else EscapeByte(word[0], style) + Escape(word[1..], style)
  }

  /** What can be written bare: not empty, without spaces, semicolons and opening braces, and not beginning with a
      closing brace or a sharp. */
  predicate Plain(word: string) {
    && word != [] && word[0] != '}' && word[0] != '#'
    && forall i :: 0 <= i < |word| ==> word[i] != ' ' && word[i] != ';' && word[i] != '{'
  }

  predicate Writable(word: string, style: Style) {
    style.Bare? ==> Plain(word)
  }

  /** No byte of the word ends a word of this style, once it is escaped. */
  predicate NoEnd(word: string, style: Style) {
    style.Bare? ==> forall i :: 0 <= i < |word| ==> word[i] != ' ' && word[i] != ';' && word[i] != '{'
  }

  /** Splitting off the first byte. */
  lemma EscapeFirst(word: string, style: Style)
    requires word != []
    ensures var e, b := Escape(word, style), EscapeByte(word[0], style);
            && e == b + Escape(word[1..], style) && 1 <= |b| <= 2 && e[..|b|] == b && e[|b|..] == Escape(word[1..], style)
            && (|b| == 2 <==> e[0] == '\\') && e[0] == b[0]
  {
    var b, rest := EscapeByte(word[0], style), Escape(word[1..], style);
    assert Escape(word, style) == b + rest;
  }

  lemma EscapedByte(ch: char, style: Style)
    ensures var b := EscapeByte(ch, style);
            if |b| == 2 then b[0] == '\\' && Pair(b[1]) == [ch] else b == [ch] && ch != '\\'
  {
  }

  lemma {:induction false} EscapeDecodes(word: string, style: Style)
    ensures Decode(Escape(word, style)) == word
    decreases |word|
  {
    hide EscapeByte, Pair;
    if word != [] {
      EscapeDecodes(word[1..], style);
      EscapeFirst(word, style);
      EscapedByte(word[0], style);
      var e, b := Escape(word, style), EscapeByte(word[0], style);
      assert |b| == 2 ==> e[1] == e[..2][1] && |e| > 1;
      assert [word[0]] + word[1..] == word;
    }
  }

  lemma {:induction false} EscapeIsBody(word: string, style: Style, open: bool)
    requires NoEnd(word, style)
    ensures Body(Escape(word, style), style, open)
    decreases |word|
  {
    if word != [] {
      var e := Escape(word, style);
      EscapeFirst(word, style);
      if |EscapeByte(word[0], style)| == 2 {
        EscapeIsBody(word[1..], style, false);
      } else {
        EscapeIsBody(word[1..], style, word[0] == '$' || (word[0] == '{' && open));
      }
    }
  }

  /** An escaped word is the text of a word that stands for it. */
  lemma EscapeIsText(word: string, style: Style)
    requires Writable(word, style)
    ensures WordText(Escape(word, style), style) && Decode(Escape(word, style)) == word
  {
    EscapeDecodes(word, style);
    if style.Bare? {
      EscapeFirst(word, style);
      EscapeIsBody(word[1..], style, false);
    } else {
      EscapeIsBody(word, style, false);
    }
  }

  // ---------- directives ----------

  /** A word, how it is written, and the blanks and comments behind it. */
  datatype Item = Item(word: string, style: Style, gap: seq<Piece>)

  /** Blanks and comments. */
  predicate IsGap(ps: seq<Piece>) {
    forall i :: 0 <= i < |ps| ==> !ps[i].Word? && ps[i].Proper()
  }

  /** Every word can be written in its style, and is followed by a blank unless it is the last. */
  predicate Printable(items: seq<Item>) {
    forall i :: 0 <= i < |items| ==>
      && Writable(items[i].word, items[i].style) && IsGap(items[i].gap)
      && (if items[i].gap == [] then i == |items| - 1 else items[i].gap[0].Space?)
  }

  function Print(items: seq<Item>): seq<Piece> {
    if items == [] then []
    else [Word(items[0].style, Escape(items[0].word, items[0].style))] + items[0].gap + Print(items[1..])
  }

  function WordsOf(items: seq<Item>): seq<string> {
    seq(|items|, i requires 0 <= i < |items| => items[i].word)
  }

  lemma {:induction false} WordsConcat(a: seq<Piece>, b: seq<Piece>)
    ensures Words(a + b) == Words(a) + Words(b)
    decreases |a|
  {
    hide Piece.Value;
    if a == [] {
      assert a + b == b;
    } else {
      assert (a + b)[1..] == a[1..] + b;
      WordsConcat(a[1..], b);
      assert a[0].Value() + (Words(a[1..]) + Words(b)) == Words(a) + Words(b);
    }
  }

  lemma {:induction false} NoWordsInGap(ps: seq<Piece>)
    requires IsGap(ps)
    ensures Words(ps) == []
    decreases |ps|
  {
    if ps != [] {
      NoWordsInGap(ps[1..]);
    }
  }

  lemma LayoutConcat(a: seq<Piece>, b: seq<Piece>)
    requires Layout(a) && Layout(b) && (a != [] && b != [] ==> MayFollow(a[|a| - 1], b[0]))
    ensures Layout(a + b)
  {
    hide Piece.Proper, MayFollow;
    var ps := a + b;
    forall i | 0 <= i < |ps| - 1 ensures MayFollow(ps[i], ps[i + 1]) {
      if i < |a| - 1 {
        assert ps[i] == a[i] && ps[i + 1] == a[i + 1];
      } else if i >= |a| {
        assert ps[i] == b[i - |a|] && ps[i + 1] == b[i + 1 - |a|];
      }
    }
  }

  lemma GapIsLayout(ps: seq<Piece>)
    requires IsGap(ps)
    ensures Layout(ps)
  {
  }

  /** A word and the gap behind it. */
  lemma ItemIsLayout(item: Item)
    requires Writable(item.word, item.style) && IsGap(item.gap) && (item.gap != [] ==> item.gap[0].Space?)
    ensures var ps := [Word(item.style, Escape(item.word, item.style))] + item.gap;
            && Layout(ps) && Words(ps) == [item.word] && ps[0].Word? && (item.gap != [] ==> !ps[|ps| - 1].Word?)
  {
    hide WordText, Decode, Escape, Plain;
    EscapeIsText(item.word, item.style);
    var word := Word(item.style, Escape(item.word, item.style));
    GapIsLayout(item.gap);
    LayoutConcat([word], item.gap);
    WordsConcat([word], item.gap);
    NoWordsInGap(item.gap);
    assert [word][1..] == [];
  }

  lemma {:induction false} PrintIsLayout(items: seq<Item>)
    requires Printable(items)
    ensures Layout(Print(items)) && Words(Print(items)) == WordsOf(items)
    ensures items != [] ==> Print(items) != [] && Print(items)[0].Word?
    decreases |items|
  {
    hide Layout, Words, Escape, IsGap, Writable;
    if items != [] {
      var first, rest := items[0], items[1..];
      ItemIsLayout(first);
      PrintIsLayout(rest);
      var ps := [Word(first.style, Escape(first.word, first.style))] + first.gap;
      LayoutConcat(ps, Print(rest));
      WordsConcat(ps, Print(rest));
      assert [first.word] + WordsOf(rest) == WordsOf(items);
    } else {
      assert Layout([]) && Words([]) == [] by {
        GapIsLayout([]);
        NoWordsInGap([]);
      }
    }
  }

  lemma PrintedDirective(lead: seq<Piece>, items: seq<Item>)
    requires IsGap(lead) && Printable(items)
    ensures Layout(lead + Print(items)) && Words(lead + Print(items)) == WordsOf(items)
  {
    hide Layout, Words, Print;
    GapIsLayout(lead);
    PrintIsLayout(items);
    LayoutConcat(lead, Print(items));
    WordsConcat(lead, Print(items));
    NoWordsInGap(lead);
  }

  /** The last word is bare, ends with a dollar sign behind something else, and nothing follows it. */
  predicate EndsInDollar(items: seq<Item>) {
    && items != []
    && var last := items[|items| - 1];
       last.style.Bare? && last.gap == [] && |last.word| > 1 && last.word[|last.word| - 1] == '$'
  }

  lemma {:induction false} DollarOpens(word: string, open: bool)
    requires NoEnd(word, Bare)
    ensures Opens(Escape(word, Bare), open) <==> if word == [] then open else word[|word| - 1] == '$'
    decreases |word|
  {
    if word != [] {
      var e := Escape(word, Bare);
      EscapeFirst(word, Bare);
      if |EscapeByte(word[0], Bare)| == 2 {
        DollarOpens(word[1..], false);
      } else {
        DollarOpens(word[1..], word[0] == '$' || (word[0] == '{' && open));
      }
    }
  }

  lemma {:induction false} PrintEnds(items: seq<Item>)
    requires items != []
    ensures var ps, last := Print(items), items[|items| - 1];
            ps != [] && ps[|ps| - 1] == if last.gap == [] then Word(last.style, Escape(last.word, last.style))
                                        else last.gap[|last.gap| - 1]
    decreases |items|
  {
    hide Escape;
    if |items| > 1 {
      PrintEnds(items[1..]);
    } else {
      assert Print(items[1..]) == [];
    }
  }

  lemma DollarIsVariable(lead: seq<Piece>, items: seq<Item>)
    requires Printable(items) && items != []
    ensures BehindVariable(lead + Print(items)) <==> EndsInDollar(items)
  {
    hide Print, Escape, Body, Opens;
    PrintEnds(items);
    var ps, last := lead + Print(items), items[|items| - 1];
    assert ps[|ps| - 1] == Print(items)[|Print(items)| - 1];
    if last.gap != [] {
      assert !last.gap[|last.gap| - 1].Word?;
    } else if last.style.Bare? {
      EscapeFirst(last.word, Bare);
      DollarOpens(last.word[1..], false);
    }
  }

  /** Round trip. Words printed bare, in single or in double quotes, with any blanks and comments in front, between and
      behind, and a semicolon or an opening brace at the end, wherever they stand in the file and whatever follows: they
      are read back as exactly these words, with the code for the terminator. Only a brace right behind a bare word that
      ends in a dollar sign does not end it. The buffered reader reads the same if and only if no part is too long. */
  lemma RoundTrip(before: string, lead: seq<Piece>, items: seq<Item>, ch: char, after: string)
    requires IsGap(lead) && Printable(items) && items != []
    requires ch == ';' || (ch == '{' && !EndsInDollar(items))
    ensures var text := Text(lead + Print(items)) + [ch];
            var file := before + text + after;
            var r := ScanAll(file, Fresh(|before|));
            && r.code == (if ch == ';' then Ok else BlockStart) && r.s.args == WordsOf(items)
            && r.s.pos == |before| + |text|
            && (ScanLimited(file, Fresh(|before|)) == r <==> !OutOfBuffer(lead + Print(items)))
  {
    hide Layout, Text, Words, Print, ScanAll, Overlong, OutOfBuffer, ScanLimited;
    var ps := lead + Print(items);
    var text := Text(ps) + [ch];
    var file := before + text + after;
    PrintedDirective(lead, items);
    DollarIsVariable(lead, items);
    assert file[|before|..|before| + |text|] == text;
    ReadEnded(file, |before|, ps, ch, CodeOf(ch));
    LimitedAgainstAll(file, Fresh(|before|));
  }

  /** A variable cannot begin a bare word: its dollar sign is a word of its own, and its brace opens a block. */
  lemma VariableCannotBegin(before: string, after: string)
    ensures var r := ScanAll(before + "${" + after, Fresh(|before|)); r.code == BlockStart && r.s.args == ["$"]
  {
    hide ScanAll, ScanLimited, OutOfBuffer;
    var items := [Item("$", Bare, [])];
    assert Escape("$", Bare) == "$" && items[1..] == [];
    assert [] + Print(items) == [Word(Bare, "$")] && [Word(Bare, "$")][1..] == [];
    assert Text([] + Print(items)) + ['{'] == "${";
    RoundTrip(before, [], items, '{', after);
    assert WordsOf(items) == ["$"];
  }

  // ---------- how long a word may be ----------

  /** The words in double quotes, separated by single spaces. */
  function Quoted(words: seq<string>): seq<Item> {
    if words == [] then []
    else [Item(words[0], Double, if |words| == 1 then [] else [Space(' ')])] + Quoted(words[1..])
  }

  /** The longest escaped text the reader takes: two bytes follow it within the buffer, or one at the end. */
  predicate SomeTooLong(words: seq<string>) {
    if words == [] then false
    else if |words| == 1 then |Escape(words[0], Double)| > 4094
    else |Escape(words[0], Double)| > 4093 || SomeTooLong(words[1..])
  }

  lemma {:induction false} QuotedTooLong(words: seq<string>, gap: nat)
    requires words != [] && gap <= CONF_BUFFER
    ensures var ps := Print(Quoted(words));
            SomeFar(ps, gap) || DistanceAfter(ps, gap) == CONF_BUFFER <==> gap == CONF_BUFFER || SomeTooLong(words)
    decreases |words|
  {
    hide Escape;
    var e, ps := Escape(words[0], Double), Print(Quoted(words));
    var first := Word(Double, e);
    assert Quoted(words)[1..] == Quoted(words[1..]);
    if |words| == 1 {
      assert Quoted(words[1..]) == [] && ps == [first];
      assert ps[1..] == [];
    } else {
      var rest := Print(Quoted(words[1..]));
      assert ps == [first, Space(' ')] + rest && ps[1..] == [Space(' ')] + rest && ps[1..][1..] == rest;
      if |e| + 2 <= CONF_BUFFER {
        QuotedTooLong(words[1..], |e| + 2);
      }
    }
  }

  /** A list in double quotes fits the reader's buffer if and only if no escaped text has more than 4093 bytes, or 4094
      at the end. */
  lemma QuotedFits(words: seq<string>)
    requires words != []
    ensures OutOfBuffer([] + Print(Quoted(words))) <==> SomeTooLong(words)
  {
    QuotedTooLong(words, 0);
    assert [] + Print(Quoted(words)) == Print(Quoted(words));
  }

  lemma {:induction false} QuotedIsPrintable(words: seq<string>)
    ensures Printable(Quoted(words)) && WordsOf(Quoted(words)) == words && !EndsInDollar(Quoted(words))
    decreases |words|
  {
    if words != [] {
      QuotedIsPrintable(words[1..]);
      var items := Quoted(words);
      assert items[1..] == Quoted(words[1..]);
      assert forall i :: 0 < i < |items| ==> items[i] == items[1..][i - 1];
      assert |words| == 1 <==> items[1..] == [];
    }
  }

  /** Any words at all, in double quotes, are read back, by the buffered reader if and only if none is too long. */
  lemma QuotedRoundTrip(before: string, words: seq<string>, after: string)
    requires words != []
    ensures var text := Text([] + Print(Quoted(words))) + [';'];
            var file := before + text + after;
            var r := ScanAll(file, Fresh(|before|));
            && r.code == Ok && r.s.args == words && r.s.pos == |before| + |text|
            && (ScanLimited(file, Fresh(|before|)) == r <==> !SomeTooLong(words))
  {
    hide Text, Print, ScanAll, ScanLimited, SomeTooLong, Printable, OutOfBuffer;
    QuotedIsPrintable(words);
    NoWordsInGap([]);
    RoundTrip(before, [], Quoted(words), ';', after);
    QuotedFits(words);
  }
}
