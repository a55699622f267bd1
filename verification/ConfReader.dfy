/** The tokenizer as it runs: through one buffer of 4096 bytes that is refilled in place. */
module ConfReader {
  import opened ConfTokens
  import ConfParse

  datatype Verdict = Continue | Return(code: Code)

  /** The stretch of the buffer from `lo` to `hi` is the stretch of the file that ends at `at`. */
  ghost predicate Mirrors(b: string, lo: nat, hi: nat, file: string, at: nat) {
    lo <= hi <= |b| && hi <= at + lo && at <= |file| && b[lo..hi] == file[at - (hi - lo)..at]
  }

  lemma MirrorAt(b: string, lo: nat, hi: nat, file: string, at: nat, i: nat)
    requires Mirrors(b, lo, hi, file, at) && lo <= i < hi
    ensures b[i] == file[at - hi + i]
  {
    assert b[lo..hi][i - lo] == b[i];
  }

  lemma MirrorLater(b: string, lo: nat, hi: nat, file: string, at: nat, to: nat)
    requires Mirrors(b, lo, hi, file, at) && lo <= to <= hi
    ensures Mirrors(b, to, hi, file, at)
  {
    assert b[to..hi] == b[lo..hi][to - lo..];
  }

  lemma MirrorJoin(b: string, file: string, at: nat, len: nat, size: nat)
    requires Mirrors(b, 0, len, file, at) && Mirrors(b, len, len + size, file, at + size)
    ensures Mirrors(b, 0, len + size, file, at + size)
  {
    assert b[0..len + size] == b[0..len] + b[len..len + size];
    assert file[at - len..at + size] == file[at - len..at] + file[at..at + size];
  }

  class Reader {
    const file: string          // what the file holds; its size is taken once, when it is opened
    const buf: array<char>
    var pos: nat
    var last: nat
    var start: nat
    var offset: nat             // how much of the file was read so far
    var args: seq<string>
    var needSpace: bool
    var lastSpace: bool
    var sharpComment: bool
    var variable: bool
    var quoted: bool
    var sQuoted: bool
    var dQuoted: bool

    ghost predicate Bounds()
      reads this`pos, this`last, this`start, this`offset
    {
      buf.Length == CONF_BUFFER && start <= pos <= last <= CONF_BUFFER && last <= offset <= |file|
    }

    /** The buffer, from the word in progress on, holds the stretch of the file that ends at `offset`. */
    ghost predicate Valid()
      reads this`pos, this`last, this`start, this`offset, buf
    {
      Bounds() && Mirrors(buf[..], start, last, file, offset)
    }

    /** The place in the file of the next byte. */
    ghost function FilePos(): nat
      requires Bounds()
      reads this`pos, this`last, this`start, this`offset
    {
      offset - last + pos
    }

    /** The state in terms of the whole file. */
    ghost function View(): Scan
      requires Bounds()
      reads this
    {
      Scan(offset - last + start, FilePos(), args, needSpace, lastSpace, sharpComment, variable, quoted, sQuoted, dQuoted)
    }

    ghost predicate Did(next: Next, rc: Verdict)
      reads this, buf
    {
      Valid() && View() == next.s && rc == if next.More? then Continue else Return(next.code)
    }

    /** A file just opened. */
    constructor (content: string)
      ensures Valid() && file == content && FilePos() == 0 && fresh(buf)
    {
      file, buf := content, new char[CONF_BUFFER];
      pos, last, start, offset := 0, 0, 0, 0;
      args := [];
      needSpace, lastSpace, sharpComment, variable := false, true, false, false;
      quoted, sQuoted, dQuoted := false, false, false;
    }

    lemma BufferAt(i: nat)
      requires Valid() && start <= i < last
      ensures buf[i] == file[offset - last + i]
    {
      MirrorAt(buf[..], start, last, file, offset, i);
    }

    /** Moves `start` forward, to the beginning of a word. */
    method MoveStart(to: nat)
      requires Valid() && start <= to <= pos
      modifies this`start
      ensures Valid() && start == to
    {
      MirrorLater(buf[..], start, last, file, offset, to);
      start := to;
    }

    /** Moves the word in progress to the front of the buffer. */
    method MoveToFront(len: nat)
      requires Valid() && pos == last && len == pos - start
      modifies buf
      ensures Mirrors(buf[..], 0, len, file, offset)
    {
      ghost var b := buf[..];
      forall i | 0 <= i < len {
        buf[i] := buf[start + i];
      }
      assert buf[..][0..len] == b[start..last];
    }

    /** ngx_read_file behind the `len` bytes at the front of the buffer. */
    method ReadFile(len: nat, size: nat)
      requires Mirrors(buf[..], 0, len, file, offset)
      requires len + size <= buf.Length && offset + size <= |file|
      modifies buf
      ensures Mirrors(buf[..], 0, len + size, file, offset + size)
    {
      ghost var b := buf[..];
      forall i | 0 <= i < size {
        buf[len + i] := file[offset + i];
      }
      assert buf[..][0..len] == b[0..len];
      MirrorJoin(buf[..], file, offset, len, size);
    }

    method Refill()
      requires Valid() && pos == last && offset < |file| && pos - start < CONF_BUFFER
      modifies this`pos, this`last, this`start, this`offset, buf
      ensures Valid() && View() == old(View()) && pos < last
    {
      hide Mirrors;
      var len := pos - start;
      MoveToFront(len);
      var size := |file| - offset;
      if size > CONF_BUFFER - len {
        size := CONF_BUFFER - len;
      }
      ReadFile(len, size);
      pos, last, start, offset := len, len + size, 0, offset + size;
    }

    /** The switch of the copy loop: the byte to write and how far to move. */
    method Decode(src: nat) returns (ch: char, step: nat)
      requires Valid() && start <= src < src + 1 < last
      ensures (ch, step) == Unit(file[offset - last + src], file[offset - last + src + 1])
    {
      BufferAt(src);
      BufferAt(src + 1);
      ch, step := buf[src], 1;
      if ch == '\\' {
        match buf[src + 1]
        case '\"' => ch, step := '\"', 2;
        case '\'' => ch, step := '\'', 2;
        case '\\' => step := 2;
        case 't' => ch, step := '\t', 2;
        case 'r' => ch, step := '\r', 2;
        case 'n' => ch, step := '\n', 2;
        case _ =>
      }
    }

    /** The copy loop; the word fits the memory allocated for its raw length. */
    method CopyWord() returns (word: string)
      requires Valid() && start < pos
      ensures word == Unescape(file, offset - last + start, FilePos() - 1) && |word| < pos - start
    {
      hide Mirrors, Unit, Unescape;
      ghost var base, end := offset - last, FilePos() - 1;
      var src := start;
      word := [];
      while src < pos - 1
        invariant start <= src <= pos && |word| <= src - start && |word| < pos - start
        invariant word + Unescape(file, base + src, end) == Unescape(file, base + start, end)
      {
        var ch, step := Decode(src);
        UnescapeOne(file, base + src, end);
        ghost var rest := Unescape(file, base + src + step, end);
        assert word + [ch] + rest == word + ([ch] + rest);
        word, src := word + [ch], src + step;
      }
      UnescapeOne(file, base + src, end);
    }

    method EndWord(ch: char) returns (rc: Verdict)
      requires Valid() && start < pos
      modifies this`args
      ensures Did(ConfTokens.EndWord(file, old(View()), ch), rc)
    {
      var word := CopyWord();
      args := args + [word];
      if ch == ';' {
        return Return(Ok);
      }
      if ch == '{' {
        return Return(BlockStart);
      }
      return Continue;
    }

    method Open(ch: char)
      requires Valid() && start < pos
      modifies this`start, this`sharpComment, this`quoted, this`lastSpace, this`dQuoted, this`sQuoted
      ensures Valid() && View() == ConfTokens.Open(old(View()), ch)
    {
      hide Mirrors;
      match ch
      case '#' =>
        sharpComment := true;
      case '\\' =>
        quoted, lastSpace := true, false;
      case '\"' =>
        MoveStart(pos);
        dQuoted, lastSpace := true, false;
      case '\'' =>
        MoveStart(pos);
        sQuoted, lastSpace := true, false;
      case _ =>
        lastSpace := false;
    }

    method Begin(ch: char) returns (rc: Verdict)
      requires Valid() && start < pos
      modifies this`start, this`sharpComment, this`quoted, this`lastSpace, this`dQuoted, this`sQuoted
      ensures Did(ConfTokens.Begin(old(View()), ch), rc)
    {
      hide Mirrors, ConfTokens.Open;
      MoveStart(pos - 1);
      if ch == ';' || ch == '{' {
        if args == [] {
          return Return(Error(UnexpectedChar(ch)));
        }
        return Return(if ch == '{' then BlockStart else Ok);
      }
      if ch == '}' {
        return Return(if args != [] then Error(UnexpectedChar(ch)) else BlockDone);
      }
      Open(ch);
      return Continue;
    }

    method Ordinary(ch: char) returns (rc: Verdict)
      requires Valid() && start < pos
      modifies this`dQuoted, this`sQuoted, this`needSpace, this`lastSpace, this`args
      ensures Did(ConfTokens.Ordinary(file, old(View()), ch), rc)
    {
      hide Mirrors, ConfTokens.EndWord;
      var found := false;
      if dQuoted {
        if ch == '\"' {
          dQuoted, needSpace, found := false, true, true;
        }
      } else if sQuoted {
        if ch == '\'' {
          sQuoted, needSpace, found := false, true, true;
        }
      } else if Blank(ch) || ch == ';' || ch == '{' {
        lastSpace, found := true, true;
      }
      if found {
        rc := EndWord(ch);
      } else {
        rc := Continue;
      }
    }

    method Inside(ch: char) returns (rc: Verdict)
      requires Valid() && start < pos
      modifies this`variable, this`quoted, this`dQuoted, this`sQuoted, this`needSpace, this`lastSpace, this`args
      ensures Did(ConfTokens.Inside(file, old(View()), ch), rc)
    {
      hide Mirrors, ConfTokens.Ordinary;
      if ch == '{' && variable {
        return Continue;
      }
      variable := false;
      if ch == '\\' {
        quoted := true;
        return Continue;
      }
      if ch == '$' {
        variable := true;
        return Continue;
      }
      rc := Ordinary(ch);
    }

    method Unquoted(ch: char) returns (rc: Verdict)
      requires Valid() && start < pos
      modifies this`start, this`variable, this`quoted, this`dQuoted, this`sQuoted, this`needSpace, this`lastSpace,
               this`sharpComment, this`args
      ensures Did(ConfTokens.Unquoted(file, old(View()), ch), rc)
    {
      hide Mirrors, ConfTokens.Begin, ConfTokens.Inside;
      if needSpace {
        if Blank(ch) {
          lastSpace, needSpace := true, false;
          return Continue;
        }
        if ch == ';' {
          return Return(Ok);
        }
        if ch == '{' {
          return Return(BlockStart);
        }
        if ch != ')' {
          return Return(Error(UnexpectedChar(ch)));
        }
        lastSpace, needSpace := true, false;
      }
      if lastSpace {
        if Blank(ch) {
          return Continue;
        }
        rc := Begin(ch);
      } else {
        rc := Inside(ch);
      }
    }

    method NextByte() returns (ch: char)
      requires Valid() && pos < last
      modifies this`pos
      ensures Valid() && pos == old(pos) + 1 && ch == file[FilePos() - 1]
    {
      BufferAt(pos);
      ch := buf[pos];
      pos := pos + 1;
    }

    /** One turn of the loop on a buffered byte. */
    method Turn() returns (rc: Verdict)
      requires Valid() && pos < last
      modifies this`pos, this`start, this`variable, this`quoted, this`dQuoted, this`sQuoted, this`needSpace,
               this`lastSpace, this`sharpComment, this`args
      ensures Did(Step(file, old(View())), rc)
    {
      hide Mirrors, ConfTokens.Unquoted;
      var ch := NextByte();
      if ch == '\n' && sharpComment {
        sharpComment := false;
      }
      if sharpComment {
        return Continue;
      }
      if quoted {
        quoted := false;
        return Continue;
      }
      rc := Unquoted(ch);
    }

    /** Makes sure that a byte is buffered, or finds that the file or the buffer is used up. */
    method Provide() returns (rc: Verdict)
      requires Valid()
      modifies this`pos, this`last, this`start, this`offset, buf
      ensures Valid() && View() == old(View())
      ensures rc == if FilePos() >= |file| then Return(AtEnd(View()))
                    else if View().pos == View().start + CONF_BUFFER then Return(Error(TooLong)) else Continue
      ensures rc.Continue? ==> pos < last
    {
      hide Mirrors;
      if pos >= last {
        if offset >= |file| {
          return Return(if args != [] || !lastSpace then Error(UnexpectedEnd) else FileDone);
        }
        if pos - start == CONF_BUFFER {
          return Return(Error(TooLong));
        }
        Refill();
      }
      return Continue;
    }

    /** The variables at the start of a call. */
    method Reset()
      requires Valid()
      modifies this`start, this`variable, this`quoted, this`dQuoted, this`sQuoted, this`needSpace,
               this`lastSpace, this`sharpComment, this`args
      ensures Valid() && View() == Fresh(old(FilePos()))
    {
      hide Mirrors;
      args := [];
      needSpace, lastSpace, sharpComment, variable := false, true, false, false;
      quoted, sQuoted, dQuoted := false, false, false;
      MoveStart(pos);
    }

    /** Refill independence: for every file, the words, the code and the place of a call are those of the scan of the
        whole file from where it stands, which gives up when it is a buffer away from its start with file left to
        read. */
    method ReadToken() returns (code: Code)
      requires Valid()
      modifies this, buf
      ensures Valid() && Done(code, View()) == ScanLimited(file, Fresh(old(FilePos())))
      ensures code != Error(TooLong) ==>
                exists ps, rest :: ConfParse.Parsed(file, old(FilePos()), code, args, FilePos(), ps, rest)
    {
      hide Mirrors, Step, ScanLimited, ScanAll, Overlong, AtEnd, ConfParse.Parsed;
      Reset();
      ghost var from := FilePos();
      ghost var goal := ScanLimited(file, View());
      while true
        invariant Valid() && ScanLimited(file, View()) == goal
        decreases |file| - FilePos()
      {
        LimitedTurn(file, View());
        var rc := Provide();
        if rc.Continue? {
          rc := Turn();
        }
        if rc.Return? {
          LimitedAgainstAll(file, Fresh(from));
          ghost var ps, rest := ConfParse.EveryCallParses(file, from);
          return rc.code;
        }
      }
    }
  }
}
