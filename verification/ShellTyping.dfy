/** What typing does to the line of the shell (ecos/ecosap/shell/shelltask.c), said of the texts that
    are typed. */
module ShellTyping {
  import opened ShellHistory
  import opened ShellArgs
  import opened ShellLine

  /** Characters that can be seen, and spaces. */
  ghost predicate Printable(text: string) {
    forall c :: c in text ==> ' ' <= c <= '~'
  }

  lemma RunOne(s: Session, ch: char)
    ensures Run(s, [ch]) == Pressed(s, ch)
  {
    assert [ch][..0] == [];
    assert Run(s, []) == s;
  }

  lemma StartOk(line: string, k: nat)
    requires LineOk(line) && k < |line|
    ensures LineOk(line[..k]) && k + 1 < POSITIONS
    ensures line[k] == ' ' ==> k > 0 && line[..k][k - 1] != ' '
  {
  }

  lemma TypedOne(s: Session, ch: char)
    requires ' ' <= ch <= '~' && |s.line| + 1 < 256 && (ch == ' ' ==> s.line != "" && s.line[|s.line| - 1] != ' ')
    ensures Pressed(s, ch) == Session(s.line + [ch], s.history, s.at)
  {
  }

  /** What is typed is put behind the line, if together they are a line. */
  lemma {:induction false} TypingAppends(s: Session, text: string)
    requires LineOk(s.line + text) && Printable(text)
    ensures Run(s, text) == Session(s.line + text, s.history, s.at)
  {
    if text == "" {
      assert s.line + text == s.line;
    } else {
      hide LineOk, Pressed;
      var k := |text| - 1;
      assert text[k] in text;
      assert (s.line + text)[..|s.line| + k] == s.line + text[..k] && (s.line + text)[|s.line| + k] == text[k];
      StartOk(s.line + text, |s.line| + k);
      assert forall c :: c in text[..k] ==> c in text;
      TypingAppends(s, text[..k]);
      TypedOne(Run(s, text[..k]), text[k]);
      assert s.line + text[..k] + [text[k]] == s.line + text;
    }
  }

  /** Ctrl-B, Backspace and Delete take the last character away, whatever it is. */
  lemma Erasing(s: Session, line: string, c: char, key: char)
    requires key == 2 as char || key == 8 as char || key == 127 as char
    ensures s.line == line + [c] ==> Run(s, [key]) == Session(line, s.history, s.at)
    ensures s.line == "" ==> Run(s, [key]) == s
  {
    RunOne(s, key);
    assert (line + [c])[..|line|] == line;
  }

  /** A character typed and taken away leaves everything as it was. */
  lemma TypedAndErased(s: Session, c: char, key: char)
    requires key == 2 as char || key == 8 as char || key == 127 as char
    requires ' ' <= c <= '~' && LineOk(s.line + [c])
    ensures Run(s, [c, key]) == s
  {
    hide LineOk, Pressed, Run;
    TypingAppends(s, [c]);
    RunTwice(s, [c], [key]);
    assert [c] + [key] == [c, key];
    Erasing(Run(s, [c]), s.line, c, key);
  }

  /** Ctrl-U empties the line. */
  lemma Emptied(s: Session)
    ensures Run(s, [21 as char]) == Session("", s.history, s.at)
  {
    RunOne(s, 21 as char);
  }

  /** A space at the start or behind a space is ignored, and so are Ctrl-A and every key that is
      neither printable nor one the shell knows; Ctrl-F is stored as it is. */
  lemma Ignored(s: Session, ch: char)
    ensures s.line == "" || s.line[|s.line| - 1] == ' ' ==> Run(s, [' ']) == s
    ensures (ch < ' ' || ch > '~') && ch as int !in [1, 2, 6, 8, 10, 13, 14, 16, 21, 127] ==> Run(s, [ch]) == s
    ensures Run(s, [1 as char]) == s
    ensures |s.line| < 255 ==> Run(s, [6 as char]) == Session(s.line + [6 as char], s.history, s.at)
  {
    RunOne(s, ' ');
    RunOne(s, ch);
    RunOne(s, 1 as char);
    RunOne(s, 6 as char);
  }

  /** The position wraps round behind the 256th character: the line begins again. */
  lemma Overflow(s: Session, ch: char)
    requires |s.line| == 255 && ' ' < ch <= '~'
    ensures Run(s, [ch]) == Session("", s.history, s.at)
  {
    RunOne(s, ch);
  }

  /** Ctrl-N undoes the step of Ctrl-P in the ring, and the other way round, and each shows the line
      at the place it goes to; there are no further steps than round the ring. */
  lemma StepAndBack(s: Session)
    requires s.Ok()
    ensures Run(s, [16 as char, 14 as char]) == Session(s.history[s.at], s.history, s.at)
    ensures Run(s, [14 as char, 16 as char]) == Session(s.history[s.at], s.history, s.at)
    ensures s.at > 0 ==> Run(s, [16 as char]) == Session(s.history[s.at - 1], s.history, s.at - 1)
    ensures s.at == 0 ==> Run(s, [16 as char]) == Session(s.history[|s.history| - 1], s.history, |s.history| - 1)
    ensures s.at + 1 < |s.history| ==> Run(s, [14 as char]) == Session(s.history[s.at + 1], s.history, s.at + 1)
    ensures s.at + 1 == |s.history| ==> Run(s, [14 as char]) == Session(s.history[0], s.history, 0)
  {
    hide LineOk, EntryOk, Run, Trimmed, Typed;
    RunOne(s, 16 as char);
    RunOne(s, 14 as char);
    RunTwice(s, [16 as char], [14 as char]);
    RunTwice(s, [14 as char], [16 as char]);
    RunOne(Run(s, [16 as char]), 14 as char);
    RunOne(Run(s, [14 as char]), 16 as char);
    assert [16 as char] + [14 as char] == [16 as char, 14 as char] && [14 as char] + [16 as char] == [14 as char, 16 as char];
  }

  /** A line typed and entered is remembered at the place in the ring, without a space at its end, and
      the next place is current. */
  lemma TypedAndEntered(s: Session, text: string, space: string, key: char)
    requires s.Ok() && s.line == "" && text != "" && text[|text| - 1] != ' ' && (space == "" || space == " ")
    requires LineOk(text + space) && Printable(text + space) && (key == 10 as char || key == 13 as char)
    ensures Run(s, text + space + [key]) ==
      Session("", s.history[s.at := text], if s.at + 1 == |s.history| then 0 else s.at + 1)
  {
    hide LineOk, EntryOk, Run, Typed, Pressed;
    var line := text + space;
    assert s.line + line == line;
    TypingAppends(s, line);
    RunTwice(s, line, [key]);
    RunOne(Run(s, line), key);
    EnterIs(Session(line, s.history, s.at), text, space, key);
  }

  lemma EnterIs(s: Session, text: string, space: string, key: char)
    requires s.at < |s.history| && s.line == text + space && text != "" && text[|text| - 1] != ' ' && (space == "" || space == " ")
    requires key == 10 as char || key == 13 as char
    ensures Pressed(s, key) == Session("", s.history[s.at := text], if s.at + 1 == |s.history| then 0 else s.at + 1)
  {
    assert text + "" == text && (text + " ")[..|text|] == text;
  }

  // ---------------------------------------------------------------- what is executed

  /** Words with single spaces between them are split into the same words. */
  lemma {:induction false} WordsOfJoined(words: seq<string>)
    requires words != [] && forall w :: w in words ==> ' ' !in w
    ensures Words(Joined(words)) == words
  {
    hide Words;
    if |words| == 1 {
      NoSpace(words[0]);
    } else {
      assert forall w :: w in words[1..] ==> w in words;
      WordsOfJoined(words[1..]);
      FirstWord(words[0], Joined(words[1..]));
    }
  }

  /** The first command that has the first word, or its first 20 characters, for its name gets the
      other words; if there is none, nothing is called. */
  lemma ExecutedWords(commands: seq<string>, words: seq<string>, k: nat)
    requires words != [] && forall w :: w in words ==> ' ' !in w
    ensures var name := if |words[0]| <= 20 then words[0] else words[0][..20];
      && (k < |commands| && commands[k] == name && name !in commands[..k] ==>
            Executed(commands, Joined(words)) == Call(k, words[1..]))
      && (name !in commands ==> Executed(commands, Joined(words)) == Unknown)
  {
    hide Words, Joined, FirstIndex;
    WordsOfJoined(words);
    var name := if |words[0]| <= 20 then words[0] else words[0][..20];
    if k < |commands| && commands[k] == name && name !in commands[..k] {
      FirstIndexIs(commands, name, k);
    }
  }
}
