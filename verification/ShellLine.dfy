/** The line editor of the shell (ecos/ecosap/shell/shelltask.c): what each key does to the line
    being typed and to the remembered lines. */
module ShellLine {
  import opened ShellHistory
  import opened ShellArgs

  const CTRL_A := 1 as char
  const CTRL_B := 2 as char
  const CTRL_F := 6 as char
  const BACKSPACE := 8 as char
  const LF := 10 as char
  const CR := 13 as char
  const CTRL_N := 14 as char
  const CTRL_P := 16 as char
  const CTRL_U := 21 as char
  const DELETE := 127 as char

  /** The position in the line is an unsigned char. */
  const POSITIONS: nat := 256
  /** COM_BUF_LEN + 1 */
  const BUFFER: nat := 257

  // ---------------------------------------------------------------- sessions

  /** The line typed so far, the remembered lines, and the place of the next one to remember. */
  datatype Session = Session(line: string, history: seq<string>, at: nat) {
    ghost predicate Ok() {
      at < |history| && LineOk(line) && forall h :: h in history ==> EntryOk(h)
    }
  }

  /** No space at the start, no two in a row. */
  ghost predicate LineOk(s: string) {
    && |s| < POSITIONS && NUL !in s
    && (s != [] ==> s[0] != ' ')
    && (forall k :: 0 < k < |s| ==> !(s[k - 1] == ' ' && s[k] == ' '))
  }

  ghost predicate EntryOk(s: string) {
    LineOk(s) && (s != [] ==> s[|s| - 1] != ' ')
  }

  /** The keys that are not ignored. */
  predicate Accepted(ch: char) {
    || ' ' <= ch <= '~'
    || ch in {BACKSPACE, DELETE, LF, CR, CTRL_A, CTRL_B, CTRL_U, CTRL_F, CTRL_P, CTRL_N}
  }

  predicate Ends(ch: char) {
    ch == LF || ch == CR
  }

  /** An end space does not count. */
  function Trimmed(line: string): string {
    if line != [] && line[|line| - 1] == ' ' then line[..|line| - 1] else line
  }

  /** One more character; the position wraps round after 255. */
  function Typed(line: string, ch: char): string {
    if |line| + 1 == POSITIONS then [] else line + [ch]
  }

  function Pressed(s: Session, ch: char): Session {
    var n := |s.history|;
    if !Accepted(ch) || ch == CTRL_A then s
    else if ch == CTRL_P then
      var at := Prev(s.at, n);
      if at < n then Session(s.history[at], s.history, at) else s
    else if ch == CTRL_N then
      var at := Next(s.at, n);
      if at < n then Session(s.history[at], s.history, at) else s
    else if ch == CTRL_B || ch == BACKSPACE || ch == DELETE then
      if s.line == [] then s else s.(line := s.line[..|s.line| - 1])
    else if Ends(ch) then
      if s.line == [] || s.at >= n then s
      else Session([], s.history[s.at := Trimmed(s.line)], Next(s.at, n))
    else if ch == CTRL_U then s.(line := [])
    else if ch == ' ' then
      if s.line == [] || s.line[|s.line| - 1] == ' ' then s else s.(line := Typed(s.line, ' '))
    else s.(line := Typed(s.line, ch))
  }

  function Run(s: Session, keys: seq<char>): Session {
    if keys == [] then s else Pressed(Run(s, keys[..|keys| - 1]), keys[|keys| - 1])
  }

  lemma TypedOk(line: string, ch: char)
    requires LineOk(line) && ch != NUL && (ch == ' ' ==> line != [] && line[|line| - 1] != ' ')
    ensures LineOk(Typed(line, ch))
  {
  }

  lemma ShorterOk(line: string, k: nat)
    requires LineOk(line) && k <= |line|
    ensures LineOk(line[..k])
  {
  }

  lemma TrimmedOk(line: string)
    requires LineOk(line)
    ensures EntryOk(Trimmed(line)) && (line != [] ==> Trimmed(line) != [])
  {
    if line != [] {
      ShorterOk(line, |line| - 1);
    }
  }

  lemma PressedOk(s: Session, ch: char)
    requires s.Ok()
    ensures Pressed(s, ch).Ok() && |Pressed(s, ch).history| == |s.history|
  {
    hide Typed, Trimmed, LineOk, EntryOk;
    assert LineOk([]) by {
      EmptyOk();
    }
    TrimmedOk(s.line);
    if s.line != [] {
      ShorterOk(s.line, |s.line| - 1);
    }
    if ch != NUL && (ch == ' ' ==> s.line != [] && s.line[|s.line| - 1] != ' ') {
      TypedOk(s.line, ch);
    }
    EntriesAreLines(s.history);
  }

  lemma EmptyOk()
    ensures LineOk([]) && EntryOk([])
  {
  }

  lemma EntriesAreLines(history: seq<string>)
    ensures forall h :: h in history && EntryOk(h) ==> LineOk(h)
  {
  }

  /** Only entering a line changes the remembered ones, as long as none is recalled. */
  lemma PressedHistory(s: Session, ch: char)
    requires s.Ok() && ch != CTRL_P && ch != CTRL_N
    ensures var t := Pressed(s, ch);
      && t.history == (if Ends(ch) && s.line != [] then s.history[s.at := Trimmed(s.line)] else s.history)
      && t.at == (if Ends(ch) && s.line != [] then Next(s.at, |s.history|) else s.at)
  {
    hide Typed, Trimmed, LineOk, EntryOk;
  }

  /** Whatever is typed, the line has no leading and no adjacent spaces, the remembered lines no
      end space either, and all of them fit. */
  lemma {:induction false} RunOk(s: Session, keys: seq<char>)
    requires s.Ok()
    ensures Run(s, keys).Ok() && |Run(s, keys).history| == |s.history|
  {
    hide Session.Ok, Pressed;
    if keys != [] {
      RunOk(s, keys[..|keys| - 1]);
      PressedOk(Run(s, keys[..|keys| - 1]), keys[|keys| - 1]);
    }
  }

  // ---------------------------------------------------------------- recalling

  /** The lines entered by some keys, oldest first. */
  function Entered(s: Session, keys: seq<char>): seq<string> {
    if keys == [] then [] else
    var before, ch := keys[..|keys| - 1], keys[|keys| - 1];
    var line := Run(s, before).line;
    Entered(s, before) + if Ends(ch) && line != [] then [Trimmed(line)] else []
  }

  ghost predicate NoRecall(keys: seq<char>) {
    CTRL_P !in keys && CTRL_N !in keys
  }

  /** One more line remembered: it is one step back, and the others one step further. */
  lemma BackPast(history: seq<string>, at: nat, line: string, j: nat)
    requires at < |history| && 1 <= j <= |history|
    ensures var n := |history|; var b := Back(Next(at, n), n, j);
      && b < n && b == Back(at, n, j - 1)
      && history[at := line][b] == if j == 1 then line else history[Back(at, n, j - 1)]
  {
    BackAfterNext(at, |history|, j - 1);
    BackIs(at, |history|, j - 1);
  }

  lemma LastKey(s: Session, keys: seq<char>)
    requires keys != []
    ensures var before, ch := keys[..|keys| - 1], keys[|keys| - 1];
      && Run(s, keys) == Pressed(Run(s, before), ch)
      && Entered(s, keys) == Entered(s, before)
                             + (if Ends(ch) && Run(s, before).line != [] then [Trimmed(Run(s, before).line)] else [])
      && (NoRecall(keys) ==> NoRecall(before) && ch != CTRL_P && ch != CTRL_N)
  {
    hide Pressed, Trimmed, Ends;
    assert keys[|keys| - 1] in keys;
  }

  lemma PlaceOk(s: Session)
    requires s.Ok()
    ensures s.at < |s.history|
  {
  }

  /** The j-th latest of the lines entered is j steps back. */
  ghost predicate Recallable(t: Session, entered: seq<string>, j: nat) {
    var b := Back(t.at, |t.history|, j);
    b < |t.history| && 1 <= j <= |entered| && t.history[b] == entered[|entered| - j]
  }

  lemma OneMoreEntered(r: Session, ch: char, entered: seq<string>, j: nat)
    requires r.Ok() && Ends(ch) && r.line != [] && 1 <= j <= |r.history|
    requires j > 1 ==> Recallable(r, entered, j - 1)
    ensures Recallable(Pressed(r, ch), entered + [Trimmed(r.line)], j)
  {
    PlaceOk(r);
    PressedHistory(r, ch);
    hide Pressed, Trimmed, Back, Next, Session.Ok;
    BackPast(r.history, r.at, Trimmed(r.line), j);
  }

  lemma NoneEntered(r: Session, ch: char, entered: seq<string>, j: nat)
    requires r.Ok() && !(Ends(ch) && r.line != []) && ch != CTRL_P && ch != CTRL_N
    ensures Recallable(Pressed(r, ch), entered, j) == Recallable(r, entered, j)
  {
    PressedHistory(r, ch);
    hide Pressed, Back, Session.Ok;
  }

  /** The latest lines are found going backwards from where the next one will go. */
  lemma {:induction false} Remembered(s: Session, keys: seq<char>, j: nat)
    requires s.Ok() && NoRecall(keys) && 1 <= j <= |Entered(s, keys)| && j <= |s.history|
    ensures Recallable(Run(s, keys), Entered(s, keys), j)
  {
    assert keys != [];
    hide Pressed, Trimmed, NoRecall, Session.Ok, Run, Entered, Recallable, Ends;
    var before, ch := keys[..|keys| - 1], keys[|keys| - 1];
    LastKey(s, keys);
    RunOk(s, before);
    if Ends(ch) && Run(s, before).line != [] {
      if j > 1 {
        Remembered(s, before, j - 1);
      }
      OneMoreEntered(Run(s, before), ch, Entered(s, before), j);
    } else {
      assert Entered(s, keys) == Entered(s, before);
      Remembered(s, before, j);
      NoneEntered(Run(s, before), ch, Entered(s, before), j);
    }
  }

  function Repeated(ch: char, j: nat): (keys: seq<char>)
    ensures |keys| == j
  {
    if j == 0 then [] else Repeated(ch, j - 1) + [ch]
  }

  lemma PressedPrevious(s: Session)
    requires s.Ok()
    ensures var at := Prev(s.at, |s.history|);
      at < |s.history| && Pressed(s, CTRL_P) == Session(s.history[at], s.history, at)
  {
  }

  lemma {:induction false} PressedBack(s: Session, j: nat)
    requires s.Ok()
    ensures var t := Run(s, Repeated(CTRL_P, j));
      && t.history == s.history && t.at == Back(s.at, |s.history|, j) < |s.history|
      && (j > 0 ==> t.line == s.history[t.at])
  {
    if j > 0 {
      hide *;
      PressedBack(s, j - 1);
      OnceMore(s, j);
      RunOk(s, Repeated(CTRL_P, j - 1));
      PressedPrevious(Run(s, Repeated(CTRL_P, j - 1)));
      BackOnceMore(s.at, |s.history|, j);
    } else {
      assert Run(s, []) == s;
    }
  }

  lemma BackOnceMore(at: nat, n: nat, j: nat)
    requires j > 0
    ensures Back(at, n, j) == Prev(Back(at, n, j - 1), n)
  {
  }

  lemma OnceMore(s: Session, j: nat)
    requires j > 0
    ensures Run(s, Repeated(CTRL_P, j)) == Pressed(Run(s, Repeated(CTRL_P, j - 1)), CTRL_P)
  {
    var keys := Repeated(CTRL_P, j);
    assert keys[..|keys| - 1] == Repeated(CTRL_P, j - 1) && keys[|keys| - 1] == CTRL_P;
    hide Pressed, Repeated;
  }

  lemma {:induction false} RunTwice(s: Session, a: seq<char>, b: seq<char>)
    ensures Run(s, a + b) == Run(Run(s, a), b)
  {
    hide Pressed;
    if b == [] {
      assert a + b == a;
    } else {
      assert (a + b)[..|a + b| - 1] == a + b[..|b| - 1];
      RunTwice(s, a, b[..|b| - 1]);
    }
  }

  /** After some lines have been entered without recalling any, Ctrl-P pressed j times brings
      back the j-th latest. */
  lemma Recalls(s: Session, keys: seq<char>, j: nat)
    requires s.Ok() && NoRecall(keys) && 1 <= j <= |Entered(s, keys)| && j <= |s.history|
    ensures Run(s, keys + Repeated(CTRL_P, j)).line == Entered(s, keys)[|Entered(s, keys)| - j]
  {
    hide Session.Ok, Pressed, Entered, NoRecall, Run, Repeated, Back;
    RunOk(s, keys);
    RunTwice(s, keys, Repeated(CTRL_P, j));
    PressedBack(Run(s, keys), j);
    Remembered(s, keys, j);
  }

  // ---------------------------------------------------------------- the shell

  /** What Enter makes the shell do. */
  datatype Action = Nothing | Unknown | Call(command: int, arguments: seq<string>)

  ghost function FirstIndex(commands: seq<string>, name: string): int
    requires name in commands
  {
    if commands[0] == name then 0 else 1 + FirstIndex(commands[1..], name)
  }

  lemma {:induction false} FirstIndexIs(commands: seq<string>, name: string, k: nat)
    requires k < |commands| && commands[k] == name && name !in commands[..k]
    ensures name in commands && FirstIndex(commands, name) == k
  {
    if k > 0 {
      assert commands[..k][0] == commands[0];
      assert commands[1..][..k - 1] == commands[..k][1..];
      FirstIndexIs(commands[1..], name, k - 1);
    }
  }

  /** An entered line is executed as the first command of its name, with its further words. */
  ghost function Executed(commands: seq<string>, line: string): Action {
    if Name(line) in commands then Call(FirstIndex(commands, Name(line)), Words(line)[1..]) else Unknown
  }

  /** The ring holds the remembered lines, and sh is the place for the next one. */
  ghost predicate Remembers(ring: seq<HistoryNode>, sh: HistoryNode, history: seq<string>, at: nat)
    reads ring
  {
    && Ring(ring) && |ring| == |history| && at < |ring| && sh == ring[at]
    && (forall k :: 0 <= k < |ring| ==> ring[k].line == history[k])
  }

  lemma InRing(ring: seq<HistoryNode>, sh: HistoryNode, history: seq<string>, at: nat)
    requires Remembers(ring, sh, history, at)
    ensures sh in ring && at < |history| && sh.line == history[at] && sh.next != null && sh.prev != null
    ensures Remembers(ring, sh.next, history, Next(at, |history|))
    ensures Remembers(ring, sh.prev, history, Prev(at, |history|))
  {
  }

  lemma LineFits(line: string)
    requires LineOk(line)
    ensures |line| < POSITIONS && NUL !in line
  {
  }

  lemma LinesFit(s: Session)
    requires s.Ok()
    ensures |s.line| < POSITIONS && NUL !in s.line
  {
  }

  class Shell {
    const commands: seq<string>
    const commandBuf: array<char>
    /** The position, an unsigned char. */
    var i: nat
    var sh: HistoryNode
    ghost var ring: seq<HistoryNode>
    ghost var session: Session

    ghost predicate Valid()
      reads this, commandBuf, ring
    {
      && commandBuf.Length == BUFFER && i < POSITIONS && commandBuf[..i] == session.line
      && session.Ok() && Remembers(ring, sh, session.history, session.at)
    }

    constructor (commands: seq<string>, size: nat)
      requires size > 0
      ensures Valid() && fresh(commandBuf) && fresh(ring) && this.commands == commands
      ensures session == Session([], seq(size, _ => ""), 0)
    {
      this.commands := commands;
      var buf := new char[BUFFER];
      buf[0] := NUL;
      commandBuf := buf;
      i := 0;
      var start: HistoryNode;
      ghost var nodes;
      start, nodes := BuildHistoryList(size);
      sh, ring := start, nodes;
      session := Session([], seq(size, _ => ""), 0);
      EmptyOk();
    }

    /** One key. */
    method Press(ch: char) returns (action: Action)
      requires Valid()
      requires Ends(ch) && session.line != [] && Name(Trimmed(session.line)) in commands ==>
        |Words(Trimmed(session.line))| <= MAX_ARGS + 1
      modifies this`i, this`sh, this`session, commandBuf, ring
      ensures Valid() && session == Pressed(old(session), ch)
      ensures action == if Ends(ch) && old(session.line) != [] then Executed(commands, Trimmed(old(session.line))) else Nothing
    {
      hide Remembers, Executed, Trimmed, Name, Words, Typed, Prev, Next;
      PressedOk(session, ch);
      InRing(ring, sh, session.history, session.at);
      hide Session.Ok;
      action := Nothing;
      if !Accepted(ch) {
        return;
      }
      if ch == CTRL_A {
      } else if ch == CTRL_P {
        Previous();
      } else if ch == CTRL_N {
        Following();
      } else if ch == CTRL_B || ch == DELETE || ch == BACKSPACE {
        if i > 0 {
          i := i - 1;
          session := session.(line := session.line[..i]);
        }
      } else if Ends(ch) {
        if i > 0 {
          action := Enter();
        }
      } else if ch == CTRL_U {
        i := 0;
        session := session.(line := []);
      } else if ch == ' ' {
        if i > 0 && commandBuf[i - 1] != ' ' {
          Store(' ');
        }
      } else {
        Store(ch);
      }
    }

    /** A character put into the buffer. */
    method Store(ch: char)
      requires Valid() && (ch == ' ' ==> session.line != [] && session.line[|session.line| - 1] != ' ') && ch != NUL
      modifies this`i, this`session, commandBuf
      ensures Valid() && session == old(session).(line := Typed(old(session.line), ch))
    {
      hide Remembers;
      TypedOk(session.line, ch);
      commandBuf[i] := ch;
      session := session.(line := Typed(session.line, ch));
      i := if i + 1 == POSITIONS then 0 else i + 1;
    }

    /** Ctrl-P */
    method Previous()
      requires Valid()
      modifies this`i, this`sh, this`session, commandBuf
      ensures Valid() && session == Pressed(old(session), CTRL_P)
    {
      hide Remembers, LineOk, EntryOk, Prev, Next;
      PressedOk(session, CTRL_P);
      InRing(ring, sh, session.history, session.at);
      sh := sh.prev;
      session := Pressed(session, CTRL_P);
      InRing(ring, sh, session.history, session.at);
      LinesFit(session);
      Load();
    }

    /** Ctrl-N */
    method Following()
      requires Valid()
      modifies this`i, this`sh, this`session, commandBuf
      ensures Valid() && session == Pressed(old(session), CTRL_N)
    {
      hide Remembers, LineOk, EntryOk, Prev, Next;
      PressedOk(session, CTRL_N);
      InRing(ring, sh, session.history, session.at);
      sh := sh.next;
      session := Pressed(session, CTRL_N);
      InRing(ring, sh, session.history, session.at);
      LinesFit(session);
      Load();
    }

    /** The remembered line copied into the buffer, which is padded with terminators; then the
        position is at the first of them. */
    method Load()
      requires commandBuf.Length == BUFFER && |sh.line| < POSITIONS && NUL !in sh.line
      modifies this`i, commandBuf
      ensures i < POSITIONS && commandBuf[..i] == sh.line
    {
      var k := 0;
      while k < BUFFER - 1
        invariant 0 <= k <= BUFFER - 1
        invariant forall m :: 0 <= m < k ==> commandBuf[m] == if m < |sh.line| then sh.line[m] else NUL
        invariant sh.line == old(sh.line) && sh == old(sh)
      {
        commandBuf[k] := if k < |sh.line| then sh.line[k] else NUL;
        k := k + 1;
      }
      assert forall m :: 0 <= m < |sh.line| ==> sh.line[m] in sh.line;
      i := 0;
      while commandBuf[i] != NUL
        invariant 0 <= i <= |sh.line|
        invariant sh.line == old(sh.line) && sh == old(sh)
        invariant forall m :: 0 <= m < k ==> commandBuf[m] == if m < |sh.line| then sh.line[m] else NUL
        decreases |sh.line| - i
      {
        i := i + 1;
      }
    }

    /** Enter on a line that is not empty: it is remembered, and executed. */
    method Enter() returns (action: Action)
      requires Valid() && session.line != []
      requires Name(Trimmed(session.line)) in commands ==> |Words(Trimmed(session.line))| <= MAX_ARGS + 1
      modifies this`i, this`sh, this`session, commandBuf, sh
      ensures Valid() && session == Pressed(old(session), LF)
      ensures action == Executed(commands, Trimmed(old(session.line)))
    {
      hide Remembers, LineOk, EntryOk, Prev, Next, Executed, Words, Name;
      PressedOk(session, LF);
      TrimmedOk(session.line);
      LineFits(Trimmed(session.line));
      ghost var line := Trimmed(session.line);
      if commandBuf[i - 1] == ' ' {
        i := i - 1;
      }
      commandBuf[i] := NUL;
      assert commandBuf[..i] == line;
      Remember(line);
      action := Execute(line);
      i := 0;
      commandBuf[i] := NUL;
    }

    /** The line in the buffer copied to its place in the ring; the next one goes to the next. */
    method Remember(ghost line: string)
      requires Holds(commandBuf[..], line) && session.Ok() && session.line != [] && line == Trimmed(session.line)
      requires Remembers(ring, sh, session.history, session.at)
      modifies this`sh, this`session, sh`line
      ensures session == Pressed(old(session), LF) && Remembers(ring, sh, session.history, session.at)
    {
      hide LineOk, EntryOk, StringAt, Trimmed;
      PlaceOk(session);
      hide Session.Ok;
      assert commandBuf[0..|line|] == line;
      StringEndsAt(commandBuf[..], 0, |line|);
      sh.line := StringAt(commandBuf[..], 0);
      session := session.(history := session.history[session.at := line]);
      assert Remembers(ring, sh, session.history, session.at);
      hide Remembers, Next;
      InRing(ring, sh, session.history, session.at);
      sh := sh.next;
      session := Session([], session.history, Next(session.at, |session.history|));
    }

    method Execute(ghost line: string) returns (action: Action)
      requires Holds(commandBuf[..], line) && |line| < POSITIONS
      requires Name(line) in commands ==> |Words(line)| <= MAX_ARGS + 1
      modifies commandBuf
      ensures action == Executed(commands, line)
    {
      hide Words, Name, StringAt;
      var found, args := CountArgs(commandBuf, commands, line);
      if found == -1 {
        action := Unknown;
      } else {
        FirstIndexIs(commands, Name(line), found);
        var words := seq(|args|, k requires 0 <= k < |args| reads commandBuf => StringAt(commandBuf[..], args[k]));
        assert words == Words(line)[1..];
        action := Call(found, words);
      }
    }
  }
}
