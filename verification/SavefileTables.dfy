/** The command tables of savefiles (ecos/host/libcdl/base.cxx, CdlToplevelBody): which commands
    and subcommands a savefile may contain.  Those this application does not know are kept per
    toplevel, so that saving does not lose them. */
module SavefileTables {
  import opened Common
  import opened TclWords

  /** What the application registered: the commands in order, with their subcommands. */
  datatype Known = Known(commands: seq<string>, subcommands: map<string, seq<string>>) {
    ghost predicate Ok() {
      && (forall i, j :: 0 <= i < j < |commands| ==> commands[i] != commands[j])
      && (forall c :: c in commands ==> c in subcommands)
    }

    function Subs(c: string): seq<string> {
      if c in subcommands then subcommands[c] else []
    }
  }

  /** The unsupported commands and subcommands; a command without an entry has none. */
  datatype Tables = Tables(commands: seq<string>, subcommands: map<string, seq<string>>) {
    function Subs(c: string): seq<string> {
      if c in subcommands then subcommands[c] else []
    }
  }

  /** A cdl_savefile_command as it is invoked: the number of arguments varies, and the list of
      subcommands may not be a proper list. */
  datatype Line =
    | NoArguments
    | OneArgument(name: string)
    | Full(name: string, list: seq<string>, extra: bool)
    | BadList(name: string, extra: bool)

  datatype Report = Fine | Warning | Error

  // ---------------------------------------------------------------- handling lines

  /** s after the members of list it lacks, those known aside, have been appended. */
  function Extended(known: seq<string>, s: seq<string>, list: seq<string>): seq<string> {
    if list == [] then s else
    var shorter := Extended(known, s, list[..|list| - 1]);
    var last := list[|list| - 1];
    if last in known || last in shorter then shorter else shorter + [last]
  }

  /** The subcommands that are no news for a command. */
  function Familiar(k: Known, c: string): seq<string> {
    if c in k.commands then k.Subs(c) else []
  }

  function WithCommand(k: Known, t: Tables, c: string): Tables {
    if c in k.commands || c in t.commands then t else t.(commands := t.commands + [c])
  }

  function WithSubs(t: Tables, c: string, subs: seq<string>): Tables {
    if subs == t.Subs(c) then t else t.(subcommands := t.subcommands[c := subs])
  }

  /** savefile_handle_command */
  function Handled(k: Known, t: Tables, line: Line): Tables {
    match line
    case NoArguments => t
    case OneArgument(c) => WithCommand(k, t, c)
    case BadList(c, _) => WithCommand(k, t, c)
    case Full(c, list, _) =>
      var t' := WithCommand(k, t, c);
      WithSubs(t', c, Extended(Familiar(k, c), t'.Subs(c), list))
  }

  function Loaded(k: Known, t: Tables, lines: seq<Line>): Tables {
    if lines == [] then t else Handled(k, Loaded(k, t, lines[..|lines| - 1]), lines[|lines| - 1])
  }

  const EMPTY := Tables([], map[])

  // ---------------------------------------------------------------- saving

  /** save_command_details: the known commands first, then the unsupported ones, each with all
      its subcommands. */
  function Saved(k: Known, t: Tables): seq<Line> {
    seq(|k.commands|, i requires 0 <= i < |k.commands| => Full(k.commands[i], k.Subs(k.commands[i]) + t.Subs(k.commands[i]), false))
    + seq(|t.commands|, i requires 0 <= i < |t.commands| => Full(t.commands[i], t.Subs(t.commands[i]), false))
  }

  const COMMAND := "cdl_savefile_command"
  const VERSION := "cdl_savefile_version"

  /** Names are written as they are, without quoting. */
  function LineText(line: Line): string {
    if line.Full? then COMMAND + (Arguments(line.name, Content(line.list)) + "\n") else ""
  }

  function TextOf(lines: seq<Line>): string {
    if lines == [] then "" else TextOf(lines[..|lines| - 1]) + LineText(lines[|lines| - 1])
  }

  function SavedText(k: Known, t: Tables, version: string): string {
    VERSION + (" " + version + ";\n") + TextOf(Saved(k, t)) + "\n"
  }

  /** The invocation of savefile_handle_command that a command amounts to. */
  function AsLine(words: seq<string>): Option<Line> {
    if |words| <= 1 then Some(NoArguments)
    else if |words| == 2 then Some(OneArgument(words[1]))
    else match Elements(words[2])
      case None => None
      case Some(list) => Some(Full(words[1], list, |words| > 3))
  }

  function LinesOf(commands: seq<seq<string>>): Option<seq<Line>> {
    if commands == [] then Some([]) else
    var rest := LinesOf(commands[1..]);
    if rest.None? || commands[0] == [] || commands[0][0] != COMMAND then rest
    else match AsLine(commands[0])
      case None => None
      case Some(line) => Some([line] + rest.value)
  }

  /** What Tcl makes of the text of a savefile, as far as these commands are concerned. */
  function ReadFile(text: string): Option<seq<Line>> {
    match Commands(text)
    case None => None
    case Some(commands) => LinesOf(commands)
  }

  // ---------------------------------------------------------------- what loading keeps

  /** No duplicates, nothing that is known, and subcommands only of commands that are listed. */
  ghost predicate Tidy(k: Known, t: Tables) {
    && Distinct(t.commands) && (forall c :: c in t.commands ==> c !in k.commands)
    && (forall c :: c in t.subcommands ==>
         && (c in k.commands || c in t.commands) && Distinct(t.subcommands[c])
         && (forall s :: s in t.subcommands[c] ==> s !in Familiar(k, c)))
  }

  lemma {:induction false} ExtendedTidy(known: seq<string>, s: seq<string>, list: seq<string>)
    requires Distinct(s) && (forall x :: x in s ==> x !in known)
    ensures var e := Extended(known, s, list);
      && Distinct(e) && s <= e && (forall x :: x in e <==> x in s || (x in list && x !in known))
  {
    if list != [] {
      ExtendedTidy(known, s, list[..|list| - 1]);
      assert list == list[..|list| - 1] + [list[|list| - 1]];
    }
  }

  lemma HandledTidy(k: Known, t: Tables, line: Line)
    requires Tidy(k, t)
    ensures Tidy(k, Handled(k, t, line))
  {
    if line.Full? {
      var t' := WithCommand(k, t, line.name);
      assert Tidy(k, t');
      ExtendedTidy(Familiar(k, line.name), t'.Subs(line.name), line.list);
    }
  }

  lemma {:induction false} LoadedTidy(k: Known, lines: seq<Line>)
    ensures Tidy(k, Loaded(k, EMPTY, lines))
  {
    if lines != [] {
      LoadedTidy(k, lines[..|lines| - 1]);
      HandledTidy(k, Loaded(k, EMPTY, lines[..|lines| - 1]), lines[|lines| - 1]);
    }
  }

  // ---------------------------------------------------------------- nothing is lost

  ghost predicate Names(lines: seq<Line>, c: string) {
    exists l :: l in lines && !l.NoArguments? && l.name == c
  }

  ghost predicate Lists(lines: seq<Line>, c: string, s: string) {
    exists l :: l in lines && l.Full? && l.name == c && s in l.list
  }

  lemma HandledExactly(k: Known, t: Tables, line: Line, c: string, s: string)
    requires Tidy(k, t)
    ensures var u := Handled(k, t, line);
      && (c in u.commands <==> c in t.commands || (!line.NoArguments? && line.name == c && c !in k.commands))
      && (s in u.Subs(c) <==> s in t.Subs(c) || (line.Full? && line.name == c && s in line.list && s !in Familiar(k, c)))
  {
    if line.Full? {
      var t' := WithCommand(k, t, line.name);
      ExtendedTidy(Familiar(k, line.name), t'.Subs(line.name), line.list);
      hide Distinct, Extended;
    }
  }

  lemma OneMoreLine(lines: seq<Line>, line: Line, c: string, s: string)
    ensures Names(lines + [line], c) <==> Names(lines, c) || (!line.NoArguments? && line.name == c)
    ensures Lists(lines + [line], c, s) <==> Lists(lines, c, s) || (line.Full? && line.name == c && s in line.list)
  {
    assert forall l :: l in lines + [line] <==> l in lines || l == line;
  }

  /** The tables hold exactly what the lines mention and the application does not know. */
  lemma {:induction false} LoadedExactly(k: Known, lines: seq<Line>, c: string, s: string)
    ensures var t := Loaded(k, EMPTY, lines);
      && (c in t.commands <==> Names(lines, c) && c !in k.commands)
      && (s in t.Subs(c) <==> Lists(lines, c, s) && s !in Familiar(k, c))
  {
    if lines != [] {
      hide Handled, Names, Lists, Tidy, Familiar;
      var before, line := lines[..|lines| - 1], lines[|lines| - 1];
      assert lines == before + [line];
      LoadedExactly(k, before, c, s);
      LoadedTidy(k, before);
      HandledExactly(k, Loaded(k, EMPTY, before), line, c, s);
      OneMoreLine(before, line, c, s);
    }
  }

  /** All names are plain, and the braces in each list match. */
  predicate PlainLines(lines: seq<Line>) {
    forall l :: l in lines ==> l.Full? && !l.extra && PlainNames(l.name, l.list)
  }

  /** What is written for one command is read back as that command, word for word and name for
      name, and reading goes on behind it, if and only if all names are plain. */
  lemma LineReadsBack(line: Line, rest: string)
    requires line.Full? && !line.extra
    ensures LineText(line) + rest == COMMAND + (Arguments(line.name, Content(line.list)) + ("\n" + rest))
    ensures ReadsBack(COMMAND, line.name, line.list, "\n" + rest) <==> PlainNames(line.name, line.list)
  {
    hide ReadsBack, PlainNames, PlainWord, Arguments, Content;
    CommandIsPlain();
    CommandReadsBack(COMMAND, line.name, line.list, "\n" + rest);
  }

  lemma CommandIsPlain()
    ensures PlainWord(COMMAND) && PlainWord(VERSION)
  {
    hide PlainWord;
    LettersArePlain(COMMAND);
    LettersArePlain(VERSION);
  }

  lemma {:induction false} TextFront(lines: seq<Line>)
    requires lines != []
    ensures TextOf(lines) == LineText(lines[0]) + TextOf(lines[1..])
  {
    hide LineText;
    if |lines| > 1 {
      TextFront(lines[..|lines| - 1]);
      assert lines[..|lines| - 1][1..] == lines[1..][..|lines| - 2];
    } else {
      assert lines[..0] == [] && TextOf(lines[1..]) == "";
    }
  }

  /** One line in front of others. */
  lemma ReadStep(line: Line, rest: string)
    requires line.Full? && !line.extra && PlainNames(line.name, line.list)
    ensures ReadFile(LineText(line) + rest) == match ReadFile(rest) case None => None case Some(lines) => Some([line] + lines)
  {
    hide PlainNames, Arguments, Content, Words, Commands, Elements, LineText;
    LineReadsBack(line, rest);
    var t, words := LineText(line) + rest, [COMMAND, line.name, Content(line.list)];
    assert t[0] == 'c';
    CommandsStep(t, words, "\n" + rest);
    CommandsNextLine(rest);
    if Commands(rest).Some? {
      OneLine(line, words, Commands(rest).value);
    }
  }

  lemma OneLine(line: Line, words: seq<string>, more: seq<seq<string>>)
    requires line.Full? && !line.extra && words == [COMMAND, line.name, Content(line.list)]
    requires Elements(Content(line.list)) == Some(line.list)
    ensures LinesOf([words] + more) == match LinesOf(more) case None => None case Some(lines) => Some([line] + lines)
  {
    hide Elements, Content;
    assert ([words] + more)[1..] == more && AsLine(words) == Some(line);
  }

  lemma {:induction false} LinesReadBack(lines: seq<Line>)
    requires PlainLines(lines)
    ensures ReadFile(TextOf(lines) + "\n") == Some(lines)
  {
    hide ReadFile, LineText, PlainNames;
    if lines == [] {
      NothingToRead();
    } else {
      TextFront(lines);
      LinesReadBack(lines[1..]);
      var rest := TextOf(lines[1..]) + "\n";
      assert TextOf(lines) + "\n" == LineText(lines[0]) + rest;
      ReadStep(lines[0], rest);
      assert lines == [lines[0]] + lines[1..];
    }
  }

  lemma NothingToRead()
    ensures ReadFile("" + "\n") == Some([])
  {
    CommandsNextLine("");
    assert "" + "\n" == "\n" + "";
    assert Commands("") == Some([]);
  }

  /** The savefile of some tables is read back line for line if all names are plain. */
  lemma SavedReadsBack(k: Known, t: Tables, version: string)
    requires PlainLines(Saved(k, t)) && PlainWord(version)
    ensures ReadFile(SavedText(k, t, version)) == Some(Saved(k, t))
  {
    hide PlainLines, Saved, PlainWord, TextOf, Words, Commands;
    LinesReadBack(Saved(k, t));
    VersionStep(version, TextOf(Saved(k, t)) + "\n");
    assert SavedText(k, t, version) == VERSION + (" " + version + ";\n") + (TextOf(Saved(k, t)) + "\n");
  }

  lemma Regroup(a: string, b: string, c: string, d: string, e: string)
    ensures a + (b + c + d) + e == a + (b + (c + (d + e)))
  {
  }

  lemma NotTheCommand()
    ensures VERSION != COMMAND && VERSION[0] == 'c'
  {
    assert VERSION[13] != COMMAND[13];
  }

  lemma VersionStep(version: string, rest: string)
    requires PlainWord(version)
    ensures ReadFile(VERSION + (" " + version + ";\n") + rest) == ReadFile(rest)
  {
    Regroup(VERSION, " ", version, ";\n", rest);
    var t := VERSION + (" " + (version + (";\n" + rest)));
    VersionWords(version, rest);
    NotTheCommand();
    StartsLower(VERSION, " " + (version + (";\n" + rest)));
    hide Words, Commands, PlainWord;
    CommandsStep(t, [VERSION, version], "\n" + rest);
    CommandsNextLine(rest);
    if Commands(rest).Some? {
      OtherCommand([VERSION, version], Commands(rest).value);
    }
  }

  lemma StartsLower(s: string, t: string)
    requires s != ""
    ensures (s + t)[0] == s[0]
  {
  }

  lemma OtherCommand(words: seq<string>, more: seq<seq<string>>)
    requires words != [] && words[0] != COMMAND
    ensures LinesOf([words] + more) == LinesOf(more)
  {
    assert ([words] + more)[1..] == more;
  }

  lemma VersionWords(version: string, rest: string)
    requires PlainWord(version)
    ensures Words(VERSION + (" " + (version + (";\n" + rest)))) == Some(([VERSION, version], "\n" + rest))
  {
    hide Words, PlainWord;
    CommandIsPlain();
    var t := ";" + ("\n" + rest);
    assert ";\n" + rest == t;
    WordsStep(VERSION, " " + (version + t));
    WordsStep(version, t);
    StopStep("\n" + rest);
    assert [VERSION] + ([version] + []) == [VERSION, version];
  }

  /** Loading a savefile and saving again keeps every command and subcommand in it, whatever the
      application knows, if all names are plain. */
  lemma NothingIsLost(k: Known, lines: seq<Line>, version: string, c: string, s: string)
    requires k.Ok() && PlainWord(version)
    requires PlainLines(Saved(k, Loaded(k, EMPTY, lines)))
    ensures var saved := ReadFile(SavedText(k, Loaded(k, EMPTY, lines), version));
      && saved.Some? && (Names(lines, c) ==> Names(saved.value, c)) && (Lists(lines, c, s) ==> Lists(saved.value, c, s))
  {
    hide PlainLines, PlainWord, SavedText, ReadFile, Saved, Loaded, Names, Lists;
    SavedReadsBack(k, Loaded(k, EMPTY, lines), version);
    NothingIsForgotten(k, lines, c, s);
  }

  /** All that was mentioned is among what is to be written. */
  lemma NothingIsForgotten(k: Known, lines: seq<Line>, c: string, s: string)
    requires k.Ok()
    ensures Names(lines, c) ==> Names(Saved(k, Loaded(k, EMPTY, lines)), c)
    ensures Lists(lines, c, s) ==> Lists(Saved(k, Loaded(k, EMPTY, lines)), c, s)
  {
    var t := Loaded(k, EMPTY, lines);
    LoadedExactly(k, lines, c, s);
    SavedLists(k, t, c, s);
    if Lists(lines, c, s) {
      var l :| l in lines && l.Full? && l.name == c && s in l.list;
      assert Names(lines, c);
    }
  }

  lemma SavedLists(k: Known, t: Tables, c: string, s: string)
    ensures Names(Saved(k, t), c) <==> c in k.commands || c in t.commands
    ensures c in k.commands && (s in k.Subs(c) || s in t.Subs(c)) ==> Lists(Saved(k, t), c, s)
    ensures c in t.commands && s in t.Subs(c) ==> Lists(Saved(k, t), c, s)
  {
    var lines := Saved(k, t);
    if c in k.commands {
      var i :| 0 <= i < |k.commands| && k.commands[i] == c;
      assert lines[i] in lines;
    }
    if c in t.commands {
      var i :| 0 <= i < |t.commands| && t.commands[i] == c;
      assert lines[|k.commands| + i] in lines;
    }
  }

  // ---------------------------------------------------------------- round trip

  ghost predicate Same(t: Tables, u: Tables) {
    t.commands == u.commands && forall c :: t.Subs(c) == u.Subs(c)
  }

  /** Reading back a list of subcommands gives the unsupported ones, in their order. */
  lemma {:induction false} ExtendedBack(known: seq<string>, own: seq<string>)
    requires Distinct(own) && (forall x :: x in own ==> x !in known)
    ensures Extended(known, [], known + own) == own
  {
    if own != [] {
      var shorter, last := own[..|own| - 1], own[|own| - 1];
      assert own == shorter + [last] && last in own && last !in shorter;
      ExtendedBack(known, shorter);
      assert (known + own)[..|known + own| - 1] == known + shorter;
    } else {
      ExtendedKnown(known, known);
      assert known + own == known;
    }
  }

  lemma {:induction false} ExtendedKnown(known: seq<string>, list: seq<string>)
    requires forall x :: x in list ==> x in known
    ensures Extended(known, [], list) == []
  {
    if list != [] {
      assert list[|list| - 1] in list;
      ExtendedKnown(known, list[..|list| - 1]);
    }
  }

  /** One line read back into tables that do not mention its command yet. */
  lemma HandledBack(k: Known, u: Tables, c: string, own: seq<string>, d: string)
    requires c !in u.commands && u.Subs(c) == [] && Distinct(own) && (forall x :: x in own ==> x !in Familiar(k, c))
    ensures var w := Handled(k, u, Full(c, Familiar(k, c) + own, false));
      && w.commands == (if c in k.commands then u.commands else u.commands + [c])
      && w.Subs(d) == (if d == c then own else u.Subs(d))
  {
    ExtendedBack(Familiar(k, c), own);
    hide Distinct, Extended, Familiar;
  }

  lemma TidySubs(k: Known, t: Tables, c: string)
    requires Tidy(k, t)
    ensures Distinct(t.Subs(c)) && (forall x :: x in t.Subs(c) ==> x !in Familiar(k, c))
    ensures Familiar(k, c) == if c in k.commands then k.Subs(c) else []
  {
  }

  /** What line i of a savefile is. */
  lemma SavedLine(k: Known, t: Tables, i: nat)
    requires Tidy(k, t) && i < |k.commands| + |t.commands|
    ensures var c := (k.commands + t.commands)[i];
      && |Saved(k, t)| == |k.commands| + |t.commands| && Saved(k, t)[i] == Full(c, Familiar(k, c) + t.Subs(c), false)
      && (c in k.commands <==> i < |k.commands|)
      && Distinct(t.Subs(c)) && (forall x :: x in t.Subs(c) ==> x !in Familiar(k, c))
  {
    hide Distinct, Familiar, Tables.Subs, Known.Subs;
    var c := (k.commands + t.commands)[i];
    TidySubs(k, t, c);
    if i >= |k.commands| {
      assert c == t.commands[i - |k.commands|] && c in t.commands;
      assert [] + t.Subs(c) == t.Subs(c);
    } else {
      assert c == k.commands[i];
    }
  }

  lemma LoadedNext(k: Known, lines: seq<Line>, i: nat)
    requires i < |lines|
    ensures Loaded(k, EMPTY, lines[..i + 1]) == Handled(k, Loaded(k, EMPTY, lines[..i]), lines[i])
  {
    hide Handled;
    assert lines[..i + 1][..i] == lines[..i];
  }

  /** The part of the unsupported commands among the first i lines. */
  function Front(k: Known, t: Tables, i: nat): seq<string>
    requires i <= |k.commands| + |t.commands|
  {
    if i <= |k.commands| then [] else t.commands[..i - |k.commands|]
  }

  lemma FrontNext(k: Known, t: Tables, i: nat, d: string)
    requires i < |k.commands| + |t.commands| && (k.commands + t.commands)[i] !in (k.commands + t.commands)[..i]
    ensures var all := k.commands + t.commands;
      && (d in all[..i + 1] <==> d in all[..i] || d == all[i])
      && all[i] !in Front(k, t, i)
      && Front(k, t, i + 1) == if i < |k.commands| then Front(k, t, i) else Front(k, t, i) + [all[i]]
  {
    var all, n := k.commands + t.commands, |k.commands|;
    assert all[..i + 1] == all[..i] + [all[i]];
    if i > n {
      assert t.commands[..i - n] == all[..i][n..];
    }
  }

  /** Line i read back after the ones before it. */
  lemma PartlyNext(k: Known, t: Tables, i: nat, d: string, u: Tables)
    requires k.Ok() && Tidy(k, t) && i < |k.commands| + |t.commands|
    requires var all := k.commands + t.commands;
      && u.commands == Front(k, t, i) && u.Subs(all[i]) == [] && all[i] !in all[..i]
      && u.Subs(d) == if d in all[..i] then t.Subs(d) else []
    ensures var all := k.commands + t.commands;
      && i < |Saved(k, t)|
      && var w := Handled(k, u, Saved(k, t)[i]);
      && w.commands == Front(k, t, i + 1) && w.Subs(d) == if d in all[..i + 1] then t.Subs(d) else []
  {
    hide *;
    var c := (k.commands + t.commands)[i];
    SavedLine(k, t, i);
    FrontNext(k, t, i, d);
    HandledBack(k, u, c, t.Subs(c), d);
  }

  /** The first i lines of a savefile read back. */
  lemma {:induction false} PartlyLoaded(k: Known, t: Tables, i: nat, d: string)
    requires k.Ok() && Tidy(k, t) && i <= |k.commands| + |t.commands|
    ensures i <= |Saved(k, t)|
    ensures var u := Loaded(k, EMPTY, Saved(k, t)[..i]);
      u.commands == Front(k, t, i) && u.Subs(d) == if d in (k.commands + t.commands)[..i] then t.Subs(d) else []
  {
    if i > 0 {
      hide *;
      var j := i - 1;
      var c := (k.commands + t.commands)[j];
      NotYet(k, t, j);
      PartlyLoaded(k, t, j, c);
      PartlyLoaded(k, t, j, d);
      PartlyNext(k, t, j, d, Loaded(k, EMPTY, Saved(k, t)[..j]));
      LoadedNext(k, Saved(k, t), j);
    } else {
      assert Saved(k, t)[..0] == [];
    }
  }

  lemma NotYet(k: Known, t: Tables, i: nat)
    requires k.Ok() && Tidy(k, t) && i < |k.commands| + |t.commands|
    ensures (k.commands + t.commands)[i] !in (k.commands + t.commands)[..i]
  {
    var all := k.commands + t.commands;
    forall j | 0 <= j < i ensures all[j] != all[i] {
      if i >= |k.commands| {
        assert all[i] in t.commands;
        if j < |k.commands| {
          assert all[j] in k.commands;
        }
      }
    }
  }

  /** Saving and loading into a new toplevel rebuilds the tables, in order, so that saving again
      writes the same text, if all names are plain. */
  lemma RoundTrip(k: Known, t: Tables, version: string)
    requires k.Ok() && Tidy(k, t) && PlainWord(version) && PlainLines(Saved(k, t))
    ensures var lines := ReadFile(SavedText(k, t, version));
      && lines.Some? && Same(Loaded(k, EMPTY, lines.value), t)
      && SavedText(k, Loaded(k, EMPTY, lines.value), version) == SavedText(k, t, version)
  {
    hide PlainLines, PlainWord, ReadFile, Saved, Loaded, Tidy, Known.Ok, TextOf;
    SavedReadsBack(k, t, version);
    TablesRebuilt(k, t);
  }

  lemma TablesRebuilt(k: Known, t: Tables)
    requires k.Ok() && Tidy(k, t)
    ensures Same(Loaded(k, EMPTY, Saved(k, t)), t)
    ensures Saved(k, Loaded(k, EMPTY, Saved(k, t))) == Saved(k, t)
  {
    var lines, all := Saved(k, t), k.commands + t.commands;
    var u := Loaded(k, EMPTY, lines);
    forall c ensures u.commands == t.commands && u.Subs(c) == t.Subs(c) {
      PartlyLoaded(k, t, |all|, c);
      hide Loaded, Distinct, Familiar;
      assert lines[..|all|] == lines && all[..|all|] == all && t.commands[..|t.commands|] == t.commands;
    }
    assert u.commands == t.commands by {
      assert u.Subs("") == t.Subs("");
    }
    SameSaves(k, u, t);
  }

  lemma SameText()
    ensures LineText(Full("x", ["y z"], false)) == LineText(Full("x", ["y", "z"], false))
  {
    hide Arguments;
    assert ["y", "z"][1..] == ["z"] && ["z"][1..] == [] && ["y z"][1..] == [];
    assert Joined(["y z"]) == Joined(["y", "z"]);
  }

  lemma PlainExample()
    ensures PlainNames("x", ["y", "z"]) && PlainWord("1") && !PlainNames("x", ["y z"])
  {
    LettersArePlain("x");
    LettersArePlain("1");
    ContentExample();
    assert "y z" in ["y z"] && ' ' in "y z";
    hide PlainWord, Matched, Content;
  }

  lemma ContentExample()
    ensures Matched(Content(["y", "z"]), 0)
  {
    assert ["y", "z"][1..] == ["z"] && ["z"][1..] == [];
    assert Content(["y", "z"]) == " y z ";
    hide Content;
    assert " y z "[1..] == "y z " && "y z "[1..] == " z " && " z "[1..] == "z " && "z "[1..] == " " && " "[1..] == "";
  }

  /** A table with one command that has the subcommands subs. */
  function Single(subs: seq<string>): Tables {
    Tables(["x"], map["x" := subs])
  }

  lemma SingleSaved(subs: seq<string>)
    ensures Saved(Known([], map[]), Single(subs)) == [Full("x", subs, false)]
    ensures TextOf(Saved(Known([], map[]), Single(subs))) == "" + LineText(Full("x", subs, false))
  {
    hide LineText;
    assert Saved(Known([], map[]), Single(subs)) == [Full("x", subs, false)];
    assert [Full("x", subs, false)][..0] == [];
  }

  /** A subcommand with a blank: its text is that of two subcommands, and that is how it comes
      back. */
  lemma BlankExample()
    ensures var k, t, line := Known([], map[]), Single(["y z"]), Full("x", ["y", "z"], false);
      && k.Ok() && Tidy(k, t) && !PlainNames("x", ["y z"])
      && ReadFile(SavedText(k, t, "1")) == Some([line]) && !Same(Loaded(k, EMPTY, [line]), t)
  {
    hide PlainWord, PlainNames, ReadFile, TextOf, LineText, Loaded, Saved;
    var k, u, line := Known([], map[]), Single(["y", "z"]), Full("x", ["y", "z"], false);
    SameText();
    SingleSaved(["y z"]);
    SingleSaved(["y", "z"]);
    PlainExample();
    assert PlainLines([line]);
    SavedReadsBack(k, u, "1");
    SingleTidy();
    TablesRebuilt(k, u);
    assert "y z" in Single(["y z"]).Subs("x") && "y z" !in u.Subs("x");
  }

  lemma SingleTidy()
    ensures Known([], map[]).Ok() && Tidy(Known([], map[]), Single(["y z"])) && Tidy(Known([], map[]), Single(["y", "z"]))
  {
    assert "y" != "z";
  }

  lemma SameSaves(k: Known, t: Tables, u: Tables)
    requires Same(t, u)
    ensures Saved(k, t) == Saved(k, u)
  {
  }

  // ---------------------------------------------------------------- the toplevel

  class Toplevel {
    const known: Known
    var commands: seq<string>
    var subcommands: map<string, seq<string>>

    ghost function Unsupported(): Tables
      reads this
    {
      Tables(commands, subcommands)
    }

    constructor (known: Known)
      requires known.Ok()
      ensures this.known == known && Unsupported() == EMPTY && Tidy(known, Unsupported())
    {
      this.known, commands, subcommands := known, [], map[];
    }

    /** savefile_handle_command */
    method HandleCommand(line: Line) returns (report: Report)
      requires known.Ok() && Tidy(known, Unsupported())
      modifies this
      ensures Tidy(known, Unsupported()) && Unsupported() == Handled(known, old(Unsupported()), line)
      ensures report == if line.Full? && !line.extra then Fine else if line.Full? || line.OneArgument? then Warning else Error
    {
      hide Tidy;
      HandledTidy(known, Unsupported(), line);
      match line
      case NoArguments =>
        report := Error;
      case OneArgument(name) =>
        var isKnown := AddCommand(name);
        report := Warning;
      case BadList(name, _) =>
        var isKnown := AddCommand(name);
        report := Error;
      case Full(name, list, extra) =>
        report := if extra then Warning else Fine;
        var isKnown := AddCommand(name);
        AddSubcommands(name, list, isKnown);
    }

    /** The subcommands' names, likewise. */
    method AddSubcommands(name: string, list: seq<string>, isKnown: bool)
      requires known.Ok() && isKnown == (name in known.commands)
      modifies this`subcommands
      ensures Unsupported() == WithSubs(old(Unsupported()), name,
                                        Extended(Familiar(known, name), old(Unsupported()).Subs(name), list))
    {
      hide Extended;
      ghost var t, familiar := Unsupported(), Familiar(known, name);
      NoneYet(familiar, t.Subs(name), list);
      var i := 0;
      while i < |list|
        invariant 0 <= i <= |list|
        invariant Unsupported() == WithSubs(t, name, Extended(familiar, t.Subs(name), list[..i]))
      {
        ExtendedNext(familiar, t.Subs(name), list, i);
        AddSubcommand(name, list[i], isKnown);
        SubsTwice(t, name, Extended(familiar, t.Subs(name), list[..i]), list[i]);
        i := i + 1;
      }
      assert list[..|list|] == list;
    }

    method AddSubcommand(name: string, subcommand: string, isKnown: bool)
      requires known.Ok() && isKnown == (name in known.commands)
      modifies this`subcommands
      ensures Unsupported() == var t := old(Unsupported());
        if subcommand in Familiar(known, name) || subcommand in t.Subs(name) then t
        else WithSubs(t, name, t.Subs(name) + [subcommand])
    {
      var knownSubcommand := false;
      if isKnown {
        knownSubcommand := Search(known.subcommands[name], subcommand);
      }
      if !knownSubcommand && name in subcommands {
        knownSubcommand := Search(subcommands[name], subcommand);
      }
      if !knownSubcommand {
        subcommands := subcommands[name := (if name in subcommands then subcommands[name] else []) + [subcommand]];
      }
    }

    /** The command's name, added unless the application knows it or it is there already. */
    method AddCommand(name: string) returns (isKnown: bool)
      modifies this`commands
      ensures isKnown <==> name in known.commands
      ensures Unsupported() == WithCommand(known, old(Unsupported()), name)
    {
      isKnown := Search(known.commands, name);
      if !isKnown {
        var present := Search(commands, name);
        if !present {
          commands := commands + [name];
        }
      }
    }

    /** save_command_details, of a minimal savefile */
    method Save(version: string) returns (data: string)
      requires known.Ok()
      ensures data == SavedText(known, Unsupported(), version)
    {
      hide LineText, Saved, TextOf;
      data := VERSION + (" " + version + ";\n");
      ghost var start, lines := data, Saved(known, Unsupported());
      SavedLines(known, Unsupported());
      NoText(lines);
      var i := 0;
      while i < |known.commands|
        invariant 0 <= i <= |known.commands| && data == start + TextOf(lines[..i])
      {
        var c := known.commands[i];
        TextNext(lines, i);
        var line := CommandText(c, known.subcommands[c], if c in subcommands then subcommands[c] else []);
        data := data + line;
        i := i + 1;
      }
      i := 0;
      while i < |commands|
        invariant 0 <= i <= |commands| && data == start + TextOf(lines[..|known.commands| + i])
      {
        var c := commands[i];
        TextNext(lines, |known.commands| + i);
        var line := CommandText(c, [], if c in subcommands then subcommands[c] else []);
        data := data + line;
        i := i + 1;
      }
      assert lines[..|lines|] == lines;
      data := data + "\n";
    }
  }

  lemma SavedLines(k: Known, t: Tables)
    requires k.Ok()
    ensures |Saved(k, t)| == |k.commands| + |t.commands|
    ensures forall i :: 0 <= i < |k.commands| ==>
      Saved(k, t)[i] == Full(k.commands[i], k.subcommands[k.commands[i]] + t.Subs(k.commands[i]), false)
    ensures forall i :: 0 <= i < |t.commands| ==>
      Saved(k, t)[|k.commands| + i] == Full(t.commands[i], [] + t.Subs(t.commands[i]), false)
  {
    assert forall i :: 0 <= i < |t.commands| ==> [] + t.Subs(t.commands[i]) == t.Subs(t.commands[i]);
  }

  lemma NoText(lines: seq<Line>)
    ensures TextOf(lines[..0]) == ""
  {
  }

  lemma TextNext(lines: seq<Line>, i: nat)
    requires i < |lines|
    ensures TextOf(lines[..i + 1]) == TextOf(lines[..i]) + LineText(lines[i])
  {
    hide LineText;
    assert lines[..i + 1][..i] == lines[..i];
  }

  lemma {:induction false} JoinedBoth(p: seq<string>, q: seq<string>)
    ensures Joined(p + q) == Joined(p) + Joined(q)
  {
    if p == [] {
      assert p + q == q;
    } else {
      assert (p + q)[1..] == p[1..] + q;
      JoinedBoth(p[1..], q);
    }
  }

  /** A loop over subcommands. */
  method AppendNames(text: string, names: seq<string>) returns (data: string)
    ensures data == text + Joined(names)
  {
    data := text;
    var j := 0;
    while j < |names|
      invariant 0 <= j <= |names| && data == text + Joined(names[..j])
    {
      assert names[..j + 1] == names[..j] + [names[j]] && [names[j]][1..] == [];
      JoinedBoth(names[..j], [names[j]]);
      data := data + (" " + names[j]);
      j := j + 1;
    }
    assert names[..|names|] == names;
  }

  /** The text of one command, with its known and its unsupported subcommands. */
  method CommandText(name: string, knownSubs: seq<string>, subs: seq<string>) returns (data: string)
    ensures data == LineText(Full(name, knownSubs + subs, false))
  {
    hide LineText, Joined;
    LineIs(name, knownSubs + subs);
    data := COMMAND + (" " + name + " ");
    if |knownSubs| == 0 && |subs| == 0 {
      data := data + "{};\n";
    } else {
      JoinedBoth(knownSubs, subs);
      data := data + "{";
      data := AppendNames(data, knownSubs);
      data := AppendNames(data, subs);
      data := data + " };\n";
    }
  }

  lemma LineIs(name: string, names: seq<string>)
    ensures LineText(Full(name, names, false)) == COMMAND + (" " + name + " ")
         + if names == [] then "{};\n" else "{" + Joined(names) + " };\n"
  {
    hide Joined;
    var content := Content(names);
    assert Arguments(name, content) + "\n" == (" " + name + " ") + ("{" + (content + "};\n")) by {
      assert " {" == " " + "{" && "};\n" == "};" + "\n";
    }
    if names == [] {
      assert "{" + (content + "};\n") == "{};\n";
    } else {
      assert " };\n" == " " + "};\n";
      assert content + "};\n" == Joined(names) + " };\n";
    }
  }

  /** A search loop, as there is one for each vector. */
  method Search(s: seq<string>, x: string) returns (found: bool)
    ensures found <==> x in s
  {
    var i := 0;
    while i < |s|
      invariant 0 <= i <= |s| && x !in s[..i]
    {
      if s[i] == x {
        return true;
      }
      i := i + 1;
    }
    return false;
  }

  lemma NoneYet(known: seq<string>, s: seq<string>, list: seq<string>)
    ensures Extended(known, s, list[..0]) == s
  {
  }

  lemma SubsTwice(t: Tables, c: string, subs: seq<string>, x: string)
    requires t.Subs(c) <= subs
    ensures WithSubs(t, c, subs).Subs(c) == subs
    ensures WithSubs(WithSubs(t, c, subs), c, subs + [x]) == WithSubs(t, c, subs + [x])
  {
  }

  lemma ExtendedNext(known: seq<string>, s: seq<string>, list: seq<string>, i: nat)
    requires i < |list|
    ensures var e := Extended(known, s, list[..i]);
      Extended(known, s, list[..i + 1]) == if list[i] in known || list[i] in e then e else e + [list[i]]
    ensures s <= Extended(known, s, list[..i])
  {
    assert list[..i + 1][..i] == list[..i];
    Longer(known, s, list[..i]);
  }

  lemma {:induction false} Longer(known: seq<string>, s: seq<string>, list: seq<string>)
    ensures s <= Extended(known, s, list)
  {
    if list != [] {
      Longer(known, s, list[..|list| - 1]);
    }
  }
}
