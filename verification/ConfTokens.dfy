/** nginx's configuration tokenizer as a scan over a whole file held in memory.
    A char stands for one byte of the file.
 */
module ConfTokens {

  const CONF_BUFFER := 4096

  datatype Problem = UnexpectedEnd | UnexpectedChar(ch: char) | TooLong

  /** What ngx_conf_read_token returns; every problem is NGX_ERROR. */
  datatype Code = Ok | BlockStart | BlockDone | FileDone | Error(problem: Problem)

  /** The loop variables; `start` and `pos` are positions in the file. */
  datatype Scan = Scan(
    start: nat, pos: nat, args: seq<string>,
    needSpace: bool, lastSpace: bool, sharpComment: bool, variable: bool,
    quoted: bool, sQuoted: bool, dQuoted: bool)

  datatype Next = More(s: Scan) | Done(code: Code, s: Scan)

  predicate Blank(ch: char) {
    ch == ' ' || ch == '\t' || ch == '\r' || ch == '\n'
  }

  /** The state at the start of a call that reads from `pos` on. */
  function Fresh(pos: nat): Scan {
    Scan(pos, pos, [], false, true, false, false, false, false, false)
  }

  /** What the copy loop writes for the byte `ch` followed by `next`, and how far it moves on. */
  function Unit(ch: char, next: char): (r: (char, nat))
    ensures 1 <= r.1 <= 2
  {
    if ch != '\\' then (ch, 1)
    else
      match next
      case '\"' => (next, 2)
      case '\'' => (next, 2)
      case '\\' => (next, 2)
      case 't' => ('\t', 2)
      case 'r' => ('\r', 2)
      case 'n' => ('\n', 2)
      case _ => (ch, 1)
  }

  /** The copy loop: it looks one byte ahead, up to the terminator at `end`. */
  function Unescape(file: string, src: nat, end: nat): (word: string)
    requires end < |file|
    decreases |file| - src
  {
    if src >= end then []
    else
      var unit := Unit(file[src], file[src + 1]);
      [unit.0] + Unescape(file, src + unit.1, end)
  }

  /** A lone terminator needs words before it, or none in the case of a closing brace. */
  function Terminate(args: seq<string>, ch: char): Code {
    if (args == []) == (ch != '}') then Error(UnexpectedChar(ch))
    else if ch == ';' then Ok
    else if ch == '{' then BlockStart
    else BlockDone
  }

  /** The first byte of a word or a comment, at `s.start`. */
  function Open(s: Scan, ch: char): Scan {
    match ch
    case '#' => s.(sharpComment := true)
    case '\\' => s.(quoted := true, lastSpace := false)
    case '\"' => s.(start := s.pos, dQuoted := true, lastSpace := false)
    case '\'' => s.(start := s.pos, sQuoted := true, lastSpace := false)
    case _ => s.(lastSpace := false)
  }

  /** The first byte behind blanks; `s.pos` is already behind it. */
  function Begin(s: Scan, ch: char): Next
    requires s.pos > 0
  {
    var s := s.(start := s.pos - 1);
    if ch == ';' || ch == '{' || ch == '}' then Done(Terminate(s.args, ch), s) else More(Open(s, ch))
  }

  /** The byte `ch` just read ends the word that began at `s.start`. */
  function EndWord(file: string, s: Scan, ch: char): Next
    requires 0 < s.pos <= |file|
  {
    var s := s.(args := s.args + [Unescape(file, s.start, s.pos - 1)]);
    if ch == ';' then Done(Ok, s) else if ch == '{' then Done(BlockStart, s) else More(s)
  }

  /** A byte inside a word that is neither a backslash nor part of a variable's name. */
  function Ordinary(file: string, s: Scan, ch: char): Next
    requires 0 < s.pos <= |file|
  {
    if s.dQuoted then
      if ch == '\"' then EndWord(file, s.(dQuoted := false, needSpace := true), ch) else More(s)
    else if s.sQuoted then
      if ch == '\'' then EndWord(file, s.(sQuoted := false, needSpace := true), ch) else More(s)
    else if Blank(ch) || ch == ';' || ch == '{' then EndWord(file, s.(lastSpace := true), ch)
    else More(s)
  }

  /** A byte inside a word. */
  function Inside(file: string, s: Scan, ch: char): Next
    requires 0 < s.pos <= |file|
  {
    if ch == '{' && s.variable then More(s)
    else if ch == '\\' then More(s.(variable := false, quoted := true))
    else if ch == '$' then More(s.(variable := true))
    else Ordinary(file, s.(variable := false), ch)
  }

  /** A byte that is neither in a comment nor quoted. */
  function Unquoted(file: string, s: Scan, ch: char): Next
    requires 0 < s.pos <= |file|
  {
    if s.needSpace then
      if Blank(ch) then More(s.(lastSpace := true, needSpace := false))
      else if ch == ';' then Done(Ok, s)
      else if ch == '{' then Done(BlockStart, s)
      else if ch == ')' then Begin(s.(lastSpace := true, needSpace := false), ch)
      else Done(Error(UnexpectedChar(ch)), s)
    else if s.lastSpace then
      if Blank(ch) then More(s) else Begin(s, ch)
    else Inside(file, s, ch)
  }

  /** One turn of the loop on the byte at `s.pos`. */
  function Step(file: string, s: Scan): (next: Next)
    requires s.pos < |file|
    ensures next.s.pos == s.pos + 1
  {
    var ch := file[s.pos];
    var s := s.(pos := s.pos + 1, sharpComment := s.sharpComment && ch != '\n');
    if s.sharpComment then More(s)
    else if s.quoted then More(s.(quoted := false))
    else Unquoted(file, s, ch)
  }

  function AtEnd(s: Scan): Code {
    if s.args != [] || !s.lastSpace then Error(UnexpectedEnd) else FileDone
  }

  /** The scan of the rest of the file, with no limit on the length of a word. */
  function ScanAll(file: string, s: Scan): (r: Next)
    ensures r.Done?
    decreases |file| - s.pos
  {
    if s.pos >= |file| then Done(AtEnd(s), s)
    else
      match Step(file, s)
      case More(t) => ScanAll(file, t)
      case Done(code, t) => Done(code, t)
  }

  /** The scan comes, with file left to read, exactly a buffer away from where the last word or comment, or else
      the call, started. */
  predicate Overlong(file: string, s: Scan)
    decreases |file| - s.pos
  {
    && s.pos < |file|
    && (s.pos == s.start + CONF_BUFFER || (var n := Step(file, s); n.More? && Overlong(file, n.s)))
  }

  /** The scan that gives up there. */
  function ScanLimited(file: string, s: Scan): (r: Next)
    ensures r.Done?
    decreases |file| - s.pos
  {
    if s.pos >= |file| then Done(AtEnd(s), s)
    else if s.pos == s.start + CONF_BUFFER then Done(Error(TooLong), s)
    else
      match Step(file, s)
      case More(t) => ScanLimited(file, t)
      case Done(code, t) => Done(code, t)
  }

  /** One turn of the limited scan. */
  lemma LimitedTurn(file: string, s: Scan)
    ensures ScanLimited(file, s) ==
      if s.pos >= |file| then Done(AtEnd(s), s)
      else if s.pos == s.start + CONF_BUFFER then Done(Error(TooLong), s)
      else if Step(file, s).More? then ScanLimited(file, Step(file, s).s)
      else Step(file, s)
  {
    hide Step;
  }

  lemma StepAddsWords(file: string, s: Scan)
    requires s.pos < |file|
    ensures s.args <= Step(file, s).s.args
  {
    hide Unescape;
  }

  lemma {:induction false} ScanAddsWords(file: string, s: Scan)
    ensures s.args <= ScanAll(file, s).s.args
    decreases |file| - s.pos
  {
    hide Step;
    if s.pos < |file| {
      StepAddsWords(file, s);
      if Step(file, s).More? {
        ScanAddsWords(file, Step(file, s).s);
      }
    }
  }

  /** The limit matters only to overlong text: up to there the words are the same, and otherwise everything is. */
  lemma {:induction false} LimitedAgainstAll(file: string, s: Scan)
    ensures var r, all := ScanLimited(file, s), ScanAll(file, s);
            if Overlong(file, s) then r.code == Error(TooLong) && r.s.args <= all.s.args else r == all
    decreases |file| - s.pos
  {
    hide Step;
    ScanAddsWords(file, s);
    if s.pos < |file| && s.pos != s.start + CONF_BUFFER && Step(file, s).More? {
      LimitedAgainstAll(file, Step(file, s).s);
    }
  }

  /** The scan goes from `s` to `t` without ending; `far` says whether a state on the way, `t` not counted,
      is a buffer away from its start. */
  ghost predicate Reaches(file: string, s: Scan, t: Scan, far: bool) {
    ScanAll(file, s) == ScanAll(file, t) && (Overlong(file, s) <==> far || Overlong(file, t))
  }

  /** A turn that goes on leads to the same result. */
  lemma Advance(file: string, s: Scan, t: Scan)
    requires s.pos < |file| && Step(file, s) == More(t)
    ensures Reaches(file, s, t, s.pos == s.start + CONF_BUFFER)
  {
    hide Step;
  }

  /** A turn that returns, and the end of the file, end the scan. */
  lemma Stop(file: string, s: Scan)
    ensures s.pos < |file| && Step(file, s).Done? ==>
      ScanAll(file, s) == Step(file, s) && (Overlong(file, s) <==> s.pos == s.start + CONF_BUFFER)
    ensures s.pos >= |file| ==> ScanAll(file, s) == Done(AtEnd(s), s) && !Overlong(file, s)
    ensures s.pos < |file| && s.pos == s.start + CONF_BUFFER ==> Overlong(file, s)
  {
    hide Step;
  }

  // ---------- scan and copy loop stay in step on backslash pairs ----------

  /** Every backslash, read from the left, has the byte it quotes. */
  predicate Closed(raw: string) {
    raw == [] || (if raw[0] == '\\' then |raw| > 1 && Closed(raw[2..]) else Closed(raw[1..]))
  }

  /** What a backslash pair stands for. */
  function Pair(ch: char): string {
    match ch
    case '\"' | '\'' | '\\' => [ch]
    case 't' => "\t"
    case 'r' => "\r"
    case 'n' => "\n"
    case _ => ['\\', ch]
  }

  /** The word a raw text stands for, pair by pair. */
  function Decode(raw: string): string {
    if raw == [] then []
    else if raw[0] == '\\' && |raw| > 1 then Pair(raw[1]) + Decode(raw[2..])
    else [raw[0]] + Decode(raw[1..])
  }

  /** One turn of the copy loop. */
  lemma UnescapeOne(file: string, src: nat, end: nat)
    requires end < |file|
    ensures if src >= end then Unescape(file, src, end) == []
            else var unit := Unit(file[src], file[src + 1]);
                 Unescape(file, src, end) == [unit.0] + Unescape(file, src + unit.1, end)
  {
    hide Unit;
  }

  lemma UnescapePair(file: string, src: nat, end: nat)
    requires src + 2 <= end < |file| && file[src] == '\\'
    ensures Unescape(file, src, end) == Pair(file[src + 1]) + Unescape(file, src + 2, end)
  {
    hide Unescape;
    UnescapeOne(file, src, end);
    UnescapeOne(file, src + 1, end);
    var rest := Unescape(file, src + 2, end);
    assert ['\\'] + ([file[src + 1]] + rest) == ['\\', file[src + 1]] + rest;
  }

  /** The copy loop decodes a closed text, never stepping over the terminator. */
  lemma {:induction false} UnescapeDecodes(file: string, src: nat, end: nat)
    requires src <= end < |file| && Closed(file[src..end])
    ensures Unescape(file, src, end) == Decode(file[src..end])
    decreases end - src
  {
    hide Pair, Unescape;
    var raw := file[src..end];
    UnescapeOne(file, src, end);
    if src < end {
      assert raw[1..] == file[src + 1..end];
      if file[src] == '\\' {
        assert raw[2..] == file[src + 2..end] && raw[1] == file[src + 1];
        UnescapePair(file, src, end);
        UnescapeDecodes(file, src + 2, end);
      } else {
        UnescapeDecodes(file, src + 1, end);
      }
    }
  }
}
