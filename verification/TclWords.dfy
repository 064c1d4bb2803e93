/** Reading Tcl text, as far as the text of savefiles needs it: a script is split into commands
    and words, a list into elements (rules 1 to 10 of the Tcl manual page, and Tcl_SplitList).
    None stands for text that is malformed, and for text in which Tcl substitutes something. */
module TclWords {
  import opened Common

  const BLANKS: set<char> := {' ', '\t', '\r', 11 as char, 12 as char}

  /** What ends a command. */
  const STOPS: set<char> := {'\n', ';'}

  const ENDS: set<char> := BLANKS + STOPS

  const SPACES: set<char> := BLANKS + {'\n'}

  // ---------------------------------------------------------------- pieces

  /** The text in front of the first of some characters, and the rest. */
  function Until(t: string, stops: set<char>): (r: (string, string))
    ensures t == r.0 + r.1 && (forall c :: c in r.0 ==> c !in stops) && (r.1 != "" ==> r.1[0] in stops)
  {
    if t == "" || t[0] in stops then ("", t)
    else
      var r := Until(t[1..], stops);
      ([t[0]] + r.0, r.1)
  }

  function Skip(t: string, blanks: set<char>): (r: string)
    ensures |r| <= |t| && t[|t| - |r|..] == r && (forall c :: c in t[..|t| - |r|] ==> c in blanks)
    ensures r != "" ==> r[0] !in blanks
  {
    if t != "" && t[0] in blanks then Skip(t[1..], blanks) else t
  }

  /** The text up to the brace that closes the one in front of it, and the rest behind; a
      backslash takes the next character along. */
  function Braced(t: string, depth: nat): (r: Option<(string, string)>)
    ensures r.Some? ==> t == r.value.0 + "}" + r.value.1
  {
    if t == "" then None
    else if t[0] == '\\' then
      if |t| == 1 || t[1] == '\n' then None else Longer(t[..2], Braced(t[2..], depth))
    else if t[0] == '}' && depth == 0 then Some(("", t[1..]))
    else Longer(t[..1], Braced(t[1..], if t[0] == '{' then depth + 1 else if t[0] == '}' then depth - 1 else depth))
  }

  function Longer(s: string, r: Option<(string, string)>): Option<(string, string)> {
    match r
    case None => None
    case Some(p) => Some((s + p.0, p.1))
  }

  /** The text up to the next quote, and the rest behind. */
  function Quoted(t: string): (r: Option<(string, string)>)
    ensures r.Some? ==> t == r.value.0 + "\"" + r.value.1 && '"' !in r.value.0
  {
    var p := Until(t, {'"'});
    if p.1 == "" then None else Some((p.0, p.1[1..]))
  }

  predicate Letter(c: char) {
    'a' <= c <= 'z' || 'A' <= c <= 'Z' || '0' <= c <= '9' || c == '_'
  }

  /** A '$' that asks for a variable: other ones stand for themselves. */
  predicate Dollar(w: string) {
    w != "" && (Dollar(w[1..]) || (w[0] == '$' && |w| > 1
      && (Letter(w[1]) || w[1] == '{' || w[1] == '(' || (w[1] == ':' && |w| > 2 && w[2] == ':'))))
  }

  /** Tcl substitutes something in it. */
  predicate Active(w: string) {
    '\\' in w || '[' in w || Dollar(w)
  }

  // ---------------------------------------------------------------- commands

  /** A word and the text behind it. */
  function Word(t: string): (r: Option<(string, string)>)
    requires t != ""
    ensures r.Some? ==> |r.value.1| <= |t| && (t[0] !in ENDS ==> |r.value.1| < |t|)
  {
    if t[0] == '{' then Closed(Braced(t[1..], 0), ENDS)
    else if t[0] == '"' then
      var r := Closed(Quoted(t[1..]), ENDS);
      if r.Some? && Active(r.value.0) then None else r
    else
      var r := Until(t, ENDS);
      if Active(r.0) then None else Some(r)
  }

  /** Behind a closing brace or quote the word has to end. */
  function Closed(r: Option<(string, string)>, ends: set<char>): Option<(string, string)> {
    if r.Some? && r.value.1 != "" && r.value.1[0] !in ends then None else r
  }

  /** The words up to the end of the command, and the text behind. */
  function Words(t: string): (r: Option<(seq<string>, string)>)
    ensures r.Some? ==> |r.value.1| <= |t| && (t != "" ==> |r.value.1| < |t|)
    decreases |t|
  {
    var s := Skip(t, BLANKS);
    if s == "" then Some(([], ""))
    else if s[0] in STOPS then Some(([], s[1..]))
    else
      var w := Word(s);
      if w.None? then None else
      var rest := Words(w.value.1);
      if rest.None? then None else Some(([w.value.0] + rest.value.0, rest.value.1))
  }

  /** The start of the next command: white space, empty commands and comments are passed over. */
  function NextCommand(t: string): (r: string)
    ensures |r| <= |t|
    decreases |t|
  {
    var s := Skip(t, SPACES + STOPS);
    if s != "" && s[0] == '#' then NextCommand(Until(s[1..], {'\n'}).1) else s
  }

  function Commands(t: string): Option<seq<seq<string>>>
    decreases |t|
  {
    var s := NextCommand(t);
    if s == "" then Some([]) else
    var c := Words(s);
    if c.None? then None else
    var rest := Commands(c.value.1);
    if rest.None? then None else Some([c.value.0] + rest.value)
  }

  // ---------------------------------------------------------------- lists

  /** An element of a list, and the text behind it. */
  function Element(t: string): (r: Option<(string, string)>)
    requires t != "" && t[0] !in SPACES
    ensures r.Some? ==> |r.value.1| < |t|
  {
    if t[0] == '{' then Closed(Braced(t[1..], 0), SPACES)
    else
      var r := if t[0] == '"' then Closed(Quoted(t[1..]), SPACES) else Some(Until(t, SPACES));
      if r.Some? && '\\' in r.value.0 then None else r
  }

  function Elements(t: string): Option<seq<string>>
    decreases |t|
  {
    var s := Skip(t, SPACES);
    if s == "" then Some([]) else
    var e := Element(s);
    if e.None? then None else
    var rest := Elements(e.value.1);
    if rest.None? then None else Some([e.value.0] + rest.value)
  }

  // ---------------------------------------------------------------- what is written reads back

  /** Names, each with a blank in front. */
  function Joined(names: seq<string>): string {
    if names == [] then "" else " " + names[0] + Joined(names[1..])
  }

  /** A name that a list may contain as it is. */
  predicate PlainElement(n: string) {
    n != "" && n[0] != '{' && n[0] != '"' && (forall c :: c in n ==> c !in SPACES && c != '\\')
  }

  /** A name that a command may contain as it is. */
  predicate PlainWord(n: string) {
    n != "" && n[0] != '{' && n[0] != '"' && (forall c :: c in n ==> c !in ENDS) && !Active(n)
  }

  function Letters(names: seq<string>): nat {
    if names == [] then 0 else |names[0]| + Letters(names[1..])
  }

  lemma {:induction false} UntilPlain(n: string, t: string, stops: set<char>)
    requires (forall c :: c in n ==> c !in stops) && (t != "" ==> t[0] in stops)
    ensures Until(n + t, stops) == (n, t)
  {
    if n == "" {
      assert n + t == t;
    } else {
      assert (n + t)[1..] == n[1..] + t && n[0] in n && n == [n[0]] + n[1..];
      UntilPlain(n[1..], t, stops);
    }
  }

  lemma SkipOne(n: string, blanks: set<char>)
    requires n != "" && n[0] !in blanks && ' ' in blanks
    ensures Skip(" " + n, blanks) == n && Skip(n, blanks) == n
  {
    assert (" " + n)[1..] == n;
  }

  lemma ElementPlain(n: string, t: string)
    requires PlainElement(n) && t != "" && t[0] in SPACES
    ensures n[0] !in SPACES && (n + t)[0] == n[0] && Element(n + t) == Some((n, t))
  {
    assert n[0] in n;
    UntilPlain(n, t, SPACES);
    hide Until, Braced, Quoted;
  }

  /** Plain names joined by blanks are the elements again. */
  lemma {:induction false} PlainReadsBack(names: seq<string>)
    requires forall n :: n in names ==> PlainElement(n)
    ensures Elements(Joined(names) + " ") == Some(names)
  {
    hide Element, PlainElement;
    if names == [] {
      assert Joined(names) + " " == " ";
      assert Skip(" ", SPACES) == "";
    } else {
      hide Elements, Skip;
      var n, rest := names[0], Joined(names[1..]) + " ";
      PlainReadsBack(names[1..]);
      JoinedFirst(names);
      hide Joined;
      assert n in names && names == [n] + names[1..];
      ElementsStep(n, rest);
    }
  }

  lemma JoinedFirst(names: seq<string>)
    requires names != []
    ensures var rest := Joined(names[1..]) + " ";
      Joined(names) + " " == " " + (names[0] + rest) && rest[0] == ' '
  {
    if |names| == 1 {
      assert Joined(names[1..]) == "";
    }
  }

  lemma ElementsStep(n: string, t: string)
    requires PlainElement(n) && t != "" && t[0] in SPACES && Elements(t).Some?
    ensures Elements(" " + (n + t)) == Some([n] + Elements(t).value)
  {
    ElementPlain(n, t);
    SkipOne(n + t, SPACES);
    hide Skip, Element, PlainElement;
  }

  lemma {:induction false} JoinedLength(names: seq<string>)
    ensures |Joined(names)| == Letters(names) + |names|
  {
    if names != [] {
      JoinedLength(names[1..]);
    }
  }

  ghost predicate EndsInSpace(t: string) {
    t != "" && t[|t| - 1] in SPACES
  }

  lemma LastChar(s: string, t: string)
    requires s != ""
    ensures var all := s + t; all[|all| - 1] == if t == "" then s[|s| - 1] else t[|t| - 1]
  {
  }

  lemma Suffix(s: string, mid: string, rest: string)
    requires EndsInSpace(s) && s == mid + rest
    requires mid != "" && mid[|mid| - 1] !in SPACES
    ensures EndsInSpace(rest)
  {
    LastChar(mid, rest);
  }

  /** An element takes at least as much text as it has characters, and more if it is not plain. */
  lemma ElementSpan(s: string)
    requires s != "" && s[0] !in SPACES && EndsInSpace(s) && Element(s).Some?
    ensures var e := Element(s).value;
      && EndsInSpace(e.1) && e.1[0] in SPACES && |e.0| + |e.1| <= |s|
      && (|e.0| + |e.1| == |s| ==> PlainElement(e.0))
  {
    var e := Element(s).value;
    if s[0] == '{' {
      assert s == ("{" + e.0 + "}") + e.1;
      Suffix(s, "{" + e.0 + "}", e.1);
    } else if s[0] == '"' {
      assert s == ("\"" + e.0 + "\"") + e.1;
      Suffix(s, "\"" + e.0 + "\"", e.1);
    } else {
      assert e.0 != "" && e.0[|e.0| - 1] in e.0;
      Suffix(s, e.0, e.1);
    }
  }

  lemma SkipSpan(t: string)
    requires EndsInSpace(t) && t[0] in SPACES
    ensures var s := Skip(t, SPACES); |s| < |t| && (s != "" ==> EndsInSpace(s))
  {
    var s := Skip(t, SPACES);
    assert s == Skip(t[1..], SPACES);
    assert s != "" ==> s[|s| - 1] == t[|t| - 1];
  }

  /** Text that begins and ends with white space is longer than its elements with one character
      in front of each, and by one character only if all of them are plain. */
  lemma {:induction false} ElementsSpan(t: string)
    requires EndsInSpace(t) && t[0] in SPACES && Elements(t).Some?
    ensures var e := Elements(t).value;
      && Letters(e) + |e| + 1 <= |t|
      && (Letters(e) + |e| + 1 == |t| ==> forall n :: n in e ==> PlainElement(n))
    decreases |t|
  {
    hide Skip, Element, PlainElement, EndsInSpace;
    SkipSpan(t);
    var s := Skip(t, SPACES);
    if s != "" {
      ElementSpan(s);
      ElementsSpan(Element(s).value.1);
    }
  }

  /** A list written with its names joined by blanks is read back as these names if and only if
      all of them are plain. */
  lemma ListReadsBack(names: seq<string>)
    ensures Elements(Joined(names) + " ") == Some(names) <==> forall n :: n in names ==> PlainElement(n)
  {
    hide PlainElement, Elements;
    if forall n :: n in names ==> PlainElement(n) {
      PlainReadsBack(names);
    } else if Elements(Joined(names) + " ") == Some(names) {
      JoinedLength(names);
      assert (Joined(names) + " ")[0] == ' ';
      ElementsSpan(Joined(names) + " ");
    }
  }

  // ---------------------------------------------------------------- words that read back

  /** Every brace has its partner; a backslash takes the next character along. */
  predicate Matched(t: string, depth: nat) {
    if t == "" then depth == 0
    else if t[0] == '\\' then |t| > 1 && t[1] != '\n' && Matched(t[2..], depth)
    else if t[0] == '}' then depth > 0 && Matched(t[1..], depth - 1)
    else Matched(t[1..], if t[0] == '{' then depth + 1 else depth)
  }

  lemma {:induction false} BracedExactly(t: string, rest: string, depth: nat)
    ensures Braced(t + "}" + rest, depth) == Some((t, rest)) <==> Matched(t, depth)
    decreases |t|
  {
    var all := t + "}" + rest;
    if t == "" {
      assert all == "}" + rest && all[1..] == rest;
    } else if t[0] == '\\' {
      if |t| > 1 {
        assert all[2..] == t[2..] + "}" + rest && all[..2] == t[..2] && t == t[..2] + t[2..];
        BracedExactly(t[2..], rest, depth);
        LongerExactly(t[..2], Braced(all[2..], depth), t[2..], rest);
      }
    } else if t[0] != '}' || depth > 0 {
      assert all[1..] == t[1..] + "}" + rest && all[..1] == t[..1] && t == t[..1] + t[1..];
      var d := if t[0] == '{' then depth + 1 else if t[0] == '}' then depth - 1 else depth;
      BracedExactly(t[1..], rest, d);
      LongerExactly(t[..1], Braced(all[1..], d), t[1..], rest);
    }
  }

  lemma LongerExactly(s: string, r: Option<(string, string)>, t: string, rest: string)
    ensures Longer(s, r) == Some((s + t, rest)) <==> r == Some((t, rest))
  {
    if r.Some? {
      assert s + r.value.0 == s + t ==> (s + r.value.0)[|s|..] == (s + t)[|s|..];
      assert (s + r.value.0)[|s|..] == r.value.0 && (s + t)[|s|..] == t;
    }
  }

  /** A word takes at least as much text as it has characters, and more if it is not plain. */
  lemma WordSpan(t: string)
    requires t != "" && t[0] !in ENDS && Word(t).Some?
    ensures var w := Word(t).value;
      && |w.0| + |w.1| <= |t| && (|w.0| + |w.1| == |t| ==> PlainWord(w.0) && t == w.0 + w.1)
      && (w.1 != "" ==> w.1[0] in ENDS)
      && (w.0 == "" || ' ' in w.0 ==> |w.0| + 2 + |w.1| <= |t|)
  {
    hide Active;
  }

  lemma WordPlain(n: string, t: string)
    requires PlainWord(n) && (t != "" ==> t[0] in ENDS)
    ensures n[0] !in ENDS && (n + t)[0] == n[0] && Word(n + t) == Some((n, t))
  {
    assert n[0] in n;
    UntilPlain(n, t, ENDS);
    hide Until, Braced, Quoted, Active;
  }

  /** What stands between the braces. */
  function Content(names: seq<string>): string {
    if names == [] then "" else Joined(names) + " "
  }

  lemma ContentReadsBack(names: seq<string>)
    ensures Elements(Content(names)) == Some(names) <==> forall n :: n in names ==> PlainElement(n)
  {
    ListReadsBack(names);
    hide Element, PlainElement;
  }

  lemma ContentBlank(names: seq<string>)
    ensures Content(names) == "" || ' ' in Content(names)
  {
    if names != [] {
      assert Content(names)[0] == ' ';
    }
  }

  /** A word and a braced word, up to the semicolon. */
  function Arguments(n: string, content: string): string {
    " " + n + " {" + content + "};"
  }

  lemma ArgumentsText(n: string, content: string, rest: string)
    ensures Arguments(n, content) + rest == " " + (n + (" " + ("{" + content + "}" + (";" + rest))))
  {
    assert "};" == "}" + ";" && " {" == " " + "{";
  }

  function Prefixed(w: string, r: Option<(seq<string>, string)>): Option<(seq<string>, string)> {
    match r
    case None => None
    case Some(p) => Some(([w] + p.0, p.1))
  }

  lemma WordsStep(n: string, t: string)
    requires PlainWord(n) && t != "" && t[0] in ENDS
    ensures Words(n + t) == Words(" " + (n + t))
    ensures Words(n + t) == Prefixed(n, Words(t))
  {
    WordPlain(n, t);
    SkipOne(n + t, BLANKS);
    hide Skip, Word;
  }

  lemma StopStep(rest: string)
    ensures Words(";" + rest) == Some(([], rest))
  {
    var t := ";" + rest;
    assert t[1..] == rest && t[0] == ';';
    assert Skip(t, BLANKS) == t;
    hide Skip, Word;
  }

  lemma BracedStep(content: string, rest: string)
    requires Matched(content, 0)
    ensures Words(" {" + content + "};" + rest) == Some(([content], rest))
  {
    hide Skip, Braced, Matched, Word, Words;
    var t := "{" + (content + "}" + (";" + rest));
    assert " {" + content + "};" + rest == " " + t;
    assert (";" + rest)[0] == ';';
    BracedText(content, ";" + rest);
    StopStep(rest);
    WordAndEnd(t, content, ";" + rest, rest);
  }

  lemma BracedText(content: string, rest: string)
    requires Matched(content, 0) && rest != "" && rest[0] in ENDS
    ensures var t := "{" + (content + "}" + rest); t[0] !in ENDS && Word(t) == Some((content, rest))
  {
    var t := "{" + (content + "}" + rest);
    assert t[1..] == content + "}" + rest && t[0] == '{';
    BracedExactly(content, rest, 0);
    hide Braced, Matched;
  }

  lemma WordAndEnd(t: string, word: string, end: string, rest: string)
    requires t != "" && t[0] !in ENDS && Word(t) == Some((word, end)) && Words(end) == Some(([], rest))
    ensures Words(" " + t) == Some(([word], rest))
  {
    SkipOne(t, BLANKS);
    hide Skip, Word;
    assert [word] + [] == [word];
  }

  lemma ArgumentsReadBack(n: string, content: string, rest: string)
    requires PlainWord(n) && Matched(content, 0)
    ensures Words(Arguments(n, content) + rest) == Some(([n, content], rest))
  {
    hide Words, PlainWord, Matched;
    var t := " {" + content + "};" + rest;
    ArgumentsText(n, content, rest);
    assert " " + ("{" + content + "}" + (";" + rest)) == t;
    assert Arguments(n, content) + rest == " " + (n + t);
    WordsStep(n, t);
    BracedStep(content, rest);
    assert [n] + [content] == [n, content];
  }

  /** The first of some words. */
  lemma WordsUnfold(t: string, words: seq<string>, rest: string) returns (s: string, r: string)
    requires words != [] && Words(t) == Some((words, rest))
    ensures s == Skip(t, BLANKS) && s != "" && s[0] !in ENDS
    ensures Word(s) == Some((words[0], r)) && Words(r) == Some((words[1..], rest))
  {
    s := Skip(t, BLANKS);
    r := Word(s).value.1;
  }

  lemma SkipSome(t: string)
    requires t != "" && t[0] in BLANKS
    ensures |Skip(t, BLANKS)| < |t|
  {
    assert Skip(t, BLANKS) == Skip(t[1..], BLANKS);
  }

  lemma SkipAll(t: string, s: string, rest: string)
    requires t == " " + rest && s == Skip(t, BLANKS) && |s| == |rest|
    ensures s == rest
  {
    assert t[1..] == rest;
  }

  lemma FirstOff(n: string, r: string, rest: string)
    requires n + r == n + rest
    ensures r == rest
  {
    assert (n + r)[|n|..] == r && (n + rest)[|n|..] == rest;
  }

  lemma NoWordsAtStop(t: string)
    requires t != "" && t[0] in STOPS
    ensures Words(t) == Some(([], t[1..]))
  {
  }

  lemma BracedWord(content: string, rest: string, r: string)
    requires Word("{" + content + "}" + rest) == Some((content, r)) && |r| == |rest|
    ensures Matched(content, 0)
  {
    var t := "{" + content + "}" + rest;
    assert t[1..] == content + "}" + rest;
    BracedExactly(content, rest, 0);
    assert (content + "}" + rest)[|content| + 1..] == rest;
    assert (content + "}" + r)[|content| + 1..] == r;
  }

  /** The converse, by counting characters: there is no room for anything but the words as they
      are written. */
  lemma ArgumentsAreWords(n: string, content: string, rest: string)
    requires content == "" || ' ' in content
    requires rest != "" && Words(Arguments(n, content) + rest) == Some(([n, content], rest))
    ensures PlainWord(n) && Matched(content, 0)
  {
    hide PlainWord, Matched, Skip, Words, Word;
    var t, more := Arguments(n, content) + rest, "{" + content + "}" + (";" + rest);
    ArgumentsText(n, content, rest);
    hide Arguments;
    assert t == " " + (n + (" " + more)) && |t| == |n| + |content| + |rest| + 5;
    var s, r := WordsUnfold(t, [n, content], rest);
    var s', r' := WordsUnfold(r, [content], rest);
    SkipSome(t);
    WordSpan(s);
    WordSpan(s');
    assert r[0] in ENDS;
    if r[0] in STOPS {
      NoWordsAtStop(r);
    }
    SkipSome(r);
    assert |r'| > |rest| && |s| == |t| - 1;
    SkipAll(t, s, n + (" " + more));
    FirstOff(n, r, " " + more);
    SkipAll(r, s', more);
    BracedWord(content, ";" + rest, r');
  }

  // ---------------------------------------------------------------- commands that read back

  predicate PlainNames(n: string, names: seq<string>) {
    PlainWord(n) && (forall x :: x in names ==> PlainElement(x)) && Matched(Content(names), 0)
  }

  lemma PrefixedBy(r: Option<(seq<string>, string)>, w: string, n: string, content: string, rest: string)
    ensures Prefixed(w, r) == Some(([w, n, content], rest)) <==> r == Some(([n, content], rest))
  {
    assert [w, n, content] == [w] + [n, content];
    if r.Some? {
      assert ([w] + r.value.0)[1..] == r.value.0 && ([w] + [n, content])[1..] == [n, content];
    }
  }

  lemma WordsBehind(command: string, n: string, content: string, t: string, rest: string)
    requires PlainWord(command) && t != "" && t[0] in ENDS
    ensures Words(command + t) == Some(([command, n, content], rest)) <==> Words(t) == Some(([n, content], rest))
  {
    hide *;
    WordsStep(command, t);
    PrefixedBy(Words(t), command, n, content, rest);
  }

  lemma WordsReadBack(command: string, n: string, content: string, rest: string)
    requires PlainWord(command) && rest != "" && (content == "" || ' ' in content)
    ensures Words(command + (Arguments(n, content) + rest)) == Some(([command, n, content], rest))
        <==> PlainWord(n) && Matched(content, 0)
  {
    var t := Arguments(n, content) + rest;
    assert t[0] == ' ';
    hide *;
    WordsBehind(command, n, content, t, rest);
    ArgumentsExactly(n, content, rest);
  }

  lemma ArgumentsExactly(n: string, content: string, rest: string)
    requires rest != "" && (content == "" || ' ' in content)
    ensures Words(Arguments(n, content) + rest) == Some(([n, content], rest)) <==> PlainWord(n) && Matched(content, 0)
  {
    hide PlainWord, Arguments, Matched, Words;
    if PlainWord(n) && Matched(content, 0) {
      ArgumentsReadBack(n, content, rest);
    }
    if Words(Arguments(n, content) + rest) == Some(([n, content], rest)) {
      ArgumentsAreWords(n, content, rest);
    }
  }

  /** The text of a command is read word for word, and its list name for name, and reading goes
      on behind it. */
  predicate ReadsBack(command: string, n: string, names: seq<string>, rest: string) {
    && Words(command + (Arguments(n, Content(names)) + rest)) == Some(([command, n, Content(names)], rest))
    && Elements(Content(names)) == Some(names)
  }

  /** A command with a name and a list of names reads back if and only if all of them are plain
      and the braces in the list match. */
  lemma CommandReadsBack(command: string, n: string, names: seq<string>, rest: string)
    requires PlainWord(command) && rest != ""
    ensures ReadsBack(command, n, names, rest) <==> PlainNames(n, names)
  {
    hide PlainWord, PlainElement, Content, Arguments, Elements, Matched, Words;
    ContentReadsBack(names);
    ContentBlank(names);
    WordsReadBack(command, n, Content(names), rest);
  }

  lemma {:induction false} NoDollar(w: string)
    requires forall c :: c in w ==> Letter(c)
    ensures !Dollar(w)
  {
    if w != "" {
      assert w[0] in w;
      NoDollar(w[1..]);
    }
  }

  lemma LettersArePlain(w: string)
    requires w != "" && forall c :: c in w ==> Letter(c)
    ensures PlainWord(w)
  {
    NoDollar(w);
    assert w[0] in w;
    hide Dollar;
  }

  lemma CommandsStep(t: string, words: seq<string>, rest: string)
    requires t != "" && Letter(t[0]) && Words(t) == Some((words, rest))
    ensures Commands(t) == match Commands(rest) case None => None case Some(r) => Some([words] + r)
  {
    hide Skip, Words, NextCommand;
    CommandHere(t);
  }

  lemma CommandHere(t: string)
    requires t != "" && Letter(t[0])
    ensures NextCommand(t) == t
  {
    assert Skip(t, SPACES + STOPS) == t;
    hide Skip, Until;
  }

  lemma CommandsNextLine(t: string)
    ensures Commands("\n" + t) == Commands(t)
  {
    hide Words, NextCommand;
    NextOnNextLine(t);
  }

  lemma NextOnNextLine(t: string)
    ensures NextCommand("\n" + t) == NextCommand(t)
  {
    var s := "\n" + t;
    assert s[1..] == t && s[0] == '\n';
    assert Skip(s, SPACES + STOPS) == Skip(t, SPACES + STOPS);
    hide Skip, Until;
  }
}
