/** Custom build steps, "target : deps, newline, rules" (ecos/host/libcdl/build.cxx,
    split_custom_build_step). */
module BuildStep {

  const NUL := 0 as char
  /** isspace */
  const SPACES: set<char> := {' ', '\t', '\n', '\r', 11 as char, 12 as char}
  const BLANKS: set<char> := {' ', '\t'}

  datatype Split =
    | Step(target: string, deps: string, rules: string)
    | NoData
    | NoColon(target: string)
    | NoDeps(target: string)
    | NothingAfterDeps
    | NoRules

  /** c_str: what precedes the first terminator. */
  function CString(s: string): (r: string)
    ensures r <= s && NUL !in r && (|r| < |s| ==> s[|r|] == NUL)
  {
    if s == [] || s[0] == NUL then [] else [s[0]] + CString(s[1..])
  }

  // ---------------------------------------------------------------- the grammar

  ghost predicate All(s: string, chars: set<char>) {
    forall i :: 0 <= i < |s| ==> s[i] in chars
  }

  ghost predicate None(s: string, stops: set<char>) {
    forall i :: 0 <= i < |s| ==> s[i] !in stops
  }

  /** How many characters at the start of s are in a set. */
  function Skip(s: string, chars: set<char>): (n: nat)
    ensures n <= |s|
  {
    if s == [] || s[0] !in chars then 0 else 1 + Skip(s[1..], chars)
  }

  /** How many characters at the start of s are not in a set. */
  function Span(s: string, stops: set<char>): (n: nat)
    ensures n <= |s|
  {
    if s == [] || s[0] in stops then 0 else 1 + Span(s[1..], stops)
  }

  /** The rules: lines without their leading blanks, each ending in a newline. */
  function Rules(s: string): string
    decreases |s|
  {
    if s == [] then [] else
    var t := s[Skip(s, BLANKS)..];
    var n := Span(t, {'\n'});
    t[..n] + ['\n'] + if n < |t| then Rules(t[n + 1..]) else []
  }

  /** From the end of the dependencies. */
  function ParseBody(target: string, deps: string, s: string): Split {
    if deps == [] then NoDeps(target) else
    if s == [] then NothingAfterDeps else
    var rules := Rules(s[1..]);
    if rules == [] then NoRules else Step(target, deps, rules)
  }

  /** From behind the colon. */
  function ParseDeps(target: string, s: string): Split {
    var s1 := s[Skip(s, BLANKS)..];
    var m := Span(s1, {'\n', ';'});
    ParseBody(target, s1[..m], s1[m..])
  }

  /** From behind the target. */
  function ParseColon(target: string, s: string): Split {
    var s1 := s[Skip(s, BLANKS)..];
    if s1 == [] || s1[0] != ':' then NoColon(target) else ParseDeps(target, s1[1..])
  }

  function Parse(s: string): Split {
    var s1 := s[Skip(s, SPACES)..];
    if s1 == [] then NoData else
    var n := Span(s1, {':', ' ', '\t'});
    ParseColon(s1[..n], s1[n..])
  }

  /** The parts of a build step: white space, the target, blanks, a colon, blanks, the
      dependencies, a newline or semicolon, and the body of rules. */
  datatype Parts = Parts(space: string, target: string, gap: string, gap2: string, deps: string, end: char, body: string) {
    function Text(): string {
      space + (target + (gap + ([':'] + (gap2 + (deps + ([end] + body))))))
    }

    ghost predicate Ok() {
      && All(space, SPACES)
      && None(target, {':', ' ', '\t'}) && (target != [] ==> target[0] !in SPACES)
      && (target == [] ==> gap == [])
      && All(gap, BLANKS)
      && All(gap2, BLANKS)
      && deps != [] && deps[0] !in BLANKS && None(deps, {'\n', ';'})
      && end in {'\n', ';'} && body != []
    }
  }

  lemma {:induction false} SkipIs(a: string, b: string, chars: set<char>)
    requires All(a, chars) && (b == [] || b[0] !in chars)
    ensures Skip(a + b, chars) == |a| && (a + b)[|a|..] == b
  {
    if a == [] {
      assert a + b == b;
    } else {
      assert (a + b)[1..] == a[1..] + b;
      SkipIs(a[1..], b, chars);
    }
  }

  lemma {:induction false} SpanIs(a: string, b: string, stops: set<char>)
    requires None(a, stops) && (b == [] || b[0] in stops)
    ensures Span(a + b, stops) == |a| && (a + b)[|a|..] == b && (a + b)[..|a|] == a
  {
    if a == [] {
      assert a + b == b;
    } else {
      assert (a + b)[1..] == a[1..] + b;
      SpanIs(a[1..], b, stops);
    }
  }

  lemma {:induction false} SkipPart(s: string, chars: set<char>)
    ensures var n := Skip(s, chars); All(s[..n], chars) && (n < |s| ==> s[n] !in chars)
  {
    if s != [] && s[0] in chars {
      SkipPart(s[1..], chars);
      var n := Skip(s[1..], chars);
      assert s[..n + 1] == [s[0]] + s[1..][..n];
    }
  }

  lemma {:induction false} SpanPart(s: string, stops: set<char>)
    ensures var n := Span(s, stops); None(s[..n], stops) && (n < |s| ==> s[n] in stops)
  {
    if s != [] && s[0] !in stops {
      SpanPart(s[1..], stops);
      var n := Span(s[1..], stops);
      assert s[..n + 1] == [s[0]] + s[1..][..n];
    }
  }

  lemma Halves(s: string, n: nat)
    requires n <= |s|
    ensures s == s[..n] + s[n..]
  {
  }

  lemma Head(a: string, b: string)
    requires b != []
    ensures (a + b)[0] == if a == [] then b[0] else a[0]
  {
  }

  lemma RulesNotEmpty(s: string)
    ensures s != [] ==> Rules(s) != []
  {
  }

  lemma AcceptedDeps(target: string, gap: string, deps: string, end: char, body: string)
    requires All(gap, BLANKS) && end in {'\n', ';'} && body != []
    requires deps != [] && deps[0] !in BLANKS && None(deps, {'\n', ';'})
    ensures ParseDeps(target, gap + (deps + ([end] + body))) == Step(target, deps, Rules(body))
  {
    hide Skip, Span, Rules;
    var t := [end] + body;
    SkipIs(gap, deps + t, BLANKS);
    SpanIs(deps, t, {'\n', ';'});
    assert t[1..] == body;
    RulesNotEmpty(body);
  }

  lemma AcceptedColon(target: string, gap: string, t: string)
    requires All(gap, BLANKS)
    ensures ParseColon(target, gap + ([':'] + t)) == ParseDeps(target, t)
  {
    hide Skip, ParseDeps;
    SkipIs(gap, [':'] + t, BLANKS);
    assert ([':'] + t)[1..] == t;
  }

  lemma AcceptedTarget(space: string, target: string, t: string)
    requires All(space, SPACES)
    requires None(target, {':', ' ', '\t'}) && t != [] && t[0] in {':', ' ', '\t'}
    requires if target == [] then t[0] == ':' else target[0] !in SPACES
    ensures Parse(space + (target + t)) == ParseColon(target, t)
  {
    hide Skip, Span, ParseColon;
    Head(target, t);
    SkipIs(space, target + t, SPACES);
    SpanIs(target, t, {':', ' ', '\t'});
  }

  /** Every text of that form is accepted, with just those parts. */
  lemma Accepted(p: Parts)
    requires p.Ok()
    ensures Parse(p.Text()) == Step(p.target, p.deps, Rules(p.body))
  {
    hide Parse, ParseColon, ParseDeps, Rules;
    var t := p.gap2 + (p.deps + ([p.end] + p.body));
    Head(p.gap, [':'] + t);
    if p.gap != [] {
      assert p.gap[0] in p.gap;
    }
    AcceptedTarget(p.space, p.target, p.gap + ([':'] + t));
    AcceptedColon(p.target, p.gap, t);
    AcceptedDeps(p.target, p.gap2, p.deps, p.end, p.body);
  }

  lemma OnlyDeps(target: string, s: string) returns (gap: string, deps: string, end: char, body: string)
    requires ParseDeps(target, s).Step?
    ensures s == gap + (deps + ([end] + body)) && ParseDeps(target, s) == Step(target, deps, Rules(body))
    ensures All(gap, BLANKS) && end in {'\n', ';'} && body != []
    ensures deps != [] && deps[0] !in BLANKS && None(deps, {'\n', ';'})
  {
    hide Skip, Span, All, None, ParseBody;
    var b := Skip(s, BLANKS);
    SkipPart(s, BLANKS);
    Halves(s, b);
    var s1 := s[b..];
    var m := Span(s1, {'\n', ';'});
    SpanPart(s1, {'\n', ';'});
    Halves(s1, m);
    gap, deps := s[..b], s1[..m];
    OnlyBody(target, deps, s1[m..]);
    end, body := s1[m..][0], s1[m..][1..];
  }

  lemma OnlyBody(target: string, deps: string, s: string)
    requires ParseBody(target, deps, s).Step?
    ensures deps != [] && s != [] && s[1..] != [] && s == [s[0]] + s[1..]
    ensures ParseBody(target, deps, s) == Step(target, deps, Rules(s[1..]))
  {
    assert Rules([]) == [];
  }

  lemma OnlyColon(target: string, s: string) returns (gap: string, t: string)
    requires ParseColon(target, s).Step?
    ensures s == gap + ([':'] + t) && ParseColon(target, s) == ParseDeps(target, t) && All(gap, BLANKS)
  {
    hide Skip, All, ParseDeps;
    var b := Skip(s, BLANKS);
    SkipPart(s, BLANKS);
    Halves(s, b);
    gap, t := s[..b], s[b..][1..];
    assert [':'] + t == s[b..];
  }

  lemma OnlyTarget(s: string) returns (space: string, target: string, t: string)
    requires Parse(s).Step?
    ensures s == space + (target + t) && Parse(s) == ParseColon(target, t)
    ensures All(space, SPACES) && None(target, {':', ' ', '\t'})
    ensures (target != [] ==> target[0] !in SPACES) && (target == [] ==> t == [] || t[0] !in SPACES)
  {
    hide Skip, Span, ParseColon, All, None;
    var a := Skip(s, SPACES);
    SkipPart(s, SPACES);
    Halves(s, a);
    var s1 := s[a..];
    var n := Span(s1, {':', ' ', '\t'});
    SpanPart(s1, {':', ' ', '\t'});
    Halves(s1, n);
    space, target, t := s[..a], s1[..n], s1[n..];
    assert s1[0] == s[a];
  }

  /** Nothing else is accepted. */
  lemma OnlyAccepted(s: string) returns (p: Parts)
    requires Parse(s).Step?
    ensures p.Ok() && p.Text() == s && Parse(s) == Step(p.target, p.deps, Rules(p.body))
  {
    hide Parse, ParseColon, ParseDeps, Rules;
    var space, target, t := OnlyTarget(s);
    var gap, t1 := OnlyColon(target, t);
    var gap2, deps, end, body := OnlyDeps(target, t1);
    Head(gap, [':'] + t1);
    if gap != [] {
      assert gap[0] in gap;
    }
    p := Parts(space, target, gap, gap2, deps, end, body);
  }

  /** What else there is, piece by piece, and the error it is rejected with. */
  lemma Rejected(space: string, target: string, gap: string, rest: string, gap2: string, deps: string)
    requires All(space, {' ', '\t', '\n', '\r', 11 as char, 12 as char}) && All(gap, {' ', '\t'}) && All(gap2, {' ', '\t'})
    requires None(target, {':', ' ', '\t'}) && target != [] && target[0] !in {'\n', '\r', 11 as char, 12 as char}
    requires None(deps, {'\n', ';'}) && (deps != [] ==> deps[0] != ' ' && deps[0] != '\t')
    ensures Parse(space) == NoData
    ensures (if gap == [] then rest == [] else rest == [] || rest[0] !in {':', ' ', '\t'}) ==>
      Parse(space + (target + (gap + rest))) == NoColon(target)
    ensures (rest == [] || rest[0] in {'\n', ';'}) ==> Parse(space + (target + (gap + ([':'] + (gap2 + rest))))) == NoDeps(target)
    ensures deps != [] ==> Parse(space + (target + (gap + ([':'] + (gap2 + deps))))) == NothingAfterDeps
    ensures deps != [] ==> Parse(space + (target + (gap + ([':'] + (gap2 + (deps + "\n")))))) == NoRules
    ensures deps != [] ==> Parse(space + (target + (gap + ([':'] + (gap2 + (deps + ";")))))) == NoRules
  {
    hide Parse, ParseColon, ParseDeps;
    NoTarget(space);
    if if gap == [] then rest == [] else rest == [] || rest[0] !in {':', ' ', '\t'} {
      RejectedColon(space, target, gap, rest);
    }
    if rest == [] || rest[0] in {'\n', ';'} {
      RejectedDeps(target, gap2, [], rest);
      assert [] + rest == rest;
      BehindColon(space, target, gap, gap2 + rest);
    }
    if deps != [] {
      RejectedDeps(target, gap2, deps, []);
      RejectedDeps(target, gap2, deps, "\n");
      RejectedDeps(target, gap2, deps, ";");
      assert deps + [] == deps;
      BehindColon(space, target, gap, gap2 + deps);
      BehindColon(space, target, gap, gap2 + (deps + "\n"));
      BehindColon(space, target, gap, gap2 + (deps + ";"));
    }
  }

  lemma NoTarget(space: string)
    requires All(space, SPACES)
    ensures Parse(space) == NoData
  {
    SkipIs(space, [], SPACES);
    assert space + [] == space;
  }

  lemma RejectedColon(space: string, target: string, gap: string, rest: string)
    requires All(space, SPACES) && All(gap, BLANKS) && None(target, {':', ' ', '\t'}) && target != [] && target[0] !in SPACES
    requires if gap == [] then rest == [] else rest == [] || rest[0] !in {':', ' ', '\t'}
    ensures Parse(space + (target + (gap + rest))) == NoColon(target)
  {
    var t := gap + rest;
    SkipIs(space, target + t, SPACES);
    SpanIs(target, t, {':', ' ', '\t'});
    SkipIs(gap, rest, BLANKS);
  }

  lemma BehindColon(space: string, target: string, gap: string, t: string)
    requires All(space, SPACES) && All(gap, BLANKS) && None(target, {':', ' ', '\t'}) && target != [] && target[0] !in SPACES
    ensures Parse(space + (target + (gap + ([':'] + t)))) == ParseDeps(target, t)
  {
    hide Parse, ParseColon, ParseDeps;
    Head(gap, [':'] + t);
    if gap != [] {
      assert gap[0] in gap;
    }
    AcceptedTarget(space, target, gap + ([':'] + t));
    AcceptedColon(target, gap, t);
  }

  lemma RejectedDeps(target: string, gap: string, deps: string, end: string)
    requires All(gap, BLANKS) && None(deps, {'\n', ';'}) && (deps != [] ==> deps[0] !in BLANKS)
    requires end == [] || end[0] in {'\n', ';'}
    ensures deps == [] ==> ParseDeps(target, gap + (deps + end)) == NoDeps(target)
    ensures deps != [] && end == [] ==> ParseDeps(target, gap + (deps + end)) == NothingAfterDeps
    ensures deps != [] && |end| == 1 ==> ParseDeps(target, gap + (deps + end)) == NoRules
  {
    hide Skip, Span;
    Head2(deps, end);
    SkipIs(gap, deps + end, BLANKS);
    SpanIs(deps, end, {'\n', ';'});
  }

  lemma Head2(a: string, b: string)
    ensures a + b != [] ==> (a + b)[0] == if a == [] then b[0] else a[0]
  {
  }

  // ---------------------------------------------------------------- the rules

  lemma NoRule()
    ensures Rules([]) == []
  {
  }

  /** A line of the rules loses its blanks in front, and ends in a newline even if it is the last. */
  lemma RulesOf(blanks: string, line: string, rest: string)
    requires All(blanks, {' ', '\t'}) && '\n' !in line && (line != [] ==> line[0] != ' ' && line[0] != '\t')
    ensures Rules(blanks + (line + (['\n'] + rest))) == line + ['\n'] + Rules(rest)
    ensures blanks + line != [] ==> Rules(blanks + line) == line + ['\n']
    ensures Rules([]) == []
  {
    hide Rules;
    var t := ['\n'] + rest;
    FirstRule(blanks, line, t);
    assert t[1..] == rest;
    assert line + [] == line;
    NoRule();
    if blanks + line != [] {
      FirstRule(blanks, line, []);
    }
  }

  lemma FirstRule(blanks: string, line: string, t: string)
    requires All(blanks, {' ', '\t'}) && '\n' !in line && (line != [] ==> line[0] != ' ' && line[0] != '\t')
    requires blanks + (line + t) != [] && (t != [] ==> t[0] == '\n')
    ensures Rules(blanks + (line + t)) == line + ['\n'] + Rules(if t == [] then [] else t[1..])
  {
    hide Skip, Span;
    Head2(line, t);
    SkipIs(blanks, line + t, BLANKS);
    SpanIs(line, t, {'\n'});
    NoRule();
    RulesStep(blanks + (line + t));
  }

  lemma RulesStep(s: string)
    requires s != []
    ensures var u := s[Skip(s, BLANKS)..]; var n := Span(u, {'\n'});
      Rules(s) == u[..n] + ['\n'] + if n < |u| then Rules(u[n..][1..]) else []
  {
    hide Skip, Span;
    var u := s[Skip(s, BLANKS)..];
    var n := Span(u, {'\n'});
    if n < |u| {
      DropTwice(u, n);
    }
  }

  lemma DropTwice(u: string, n: nat)
    requires n < |u|
    ensures u[n..][1..] == u[n + 1..]
  {
  }

  /** Lines that each end in a newline, none of them starting with a blank. */
  ghost predicate Lines(r: string) {
    && (r != [] ==> r[0] !in BLANKS && r[|r| - 1] == '\n')
    && (forall i :: 0 <= i < |r| - 1 && r[i] == '\n' ==> r[i + 1] !in BLANKS)
  }

  lemma LinesJoin(line: string, rest: string)
    requires '\n' !in line && (line != [] ==> line[0] !in BLANKS) && Lines(rest)
    ensures Lines(line + ['\n'] + rest)
  {
    var r := line + ['\n'] + rest;
    assert forall i :: 0 <= i < |line| ==> r[i] in line;
    forall i | 0 <= i < |r| - 1 && r[i] == '\n' ensures r[i + 1] !in BLANKS {
      assert r[i + 1] == rest[i - |line|];
      if i > |line| {
        assert r[i] == rest[i - |line| - 1];
      }
    }
  }

  lemma RuleParts(s: string) returns (line: string, rest: string)
    requires s != []
    ensures Rules(s) == line + ['\n'] + Rules(rest) && |rest| < |s| && '\n' !in line && (line != [] ==> line[0] !in BLANKS)
  {
    var t := s[Skip(s, BLANKS)..];
    var n := Span(t, {'\n'});
    SkipPart(s, BLANKS);
    SpanPart(t, {'\n'});
    line, rest := t[..n], if n < |t| then t[n + 1..] else [];
    hide Skip, Span;
    NoRule();
  }

  lemma {:induction false} RulesAreLines(s: string)
    ensures Lines(Rules(s))
    decreases |s|
  {
    if s != [] {
      var line, rest := RuleParts(s);
      hide Rules, Lines;
      RulesAreLines(rest);
      LinesJoin(line, Rules(rest));
    }
  }

  lemma LinesRest(r: string, n: nat)
    requires Lines(r) && n < |r| && r[n] == '\n'
    ensures Lines(r[n + 1..])
  {
    var rest := r[n + 1..];
    forall i | 0 <= i < |rest| - 1 && rest[i] == '\n' ensures rest[i + 1] !in BLANKS {
      assert rest[i] == r[n + 1 + i] && rest[i + 1] == r[n + 2 + i];
    }
    if rest != [] {
      assert rest[0] == r[n + 1] && rest[|rest| - 1] == r[|r| - 1];
    }
  }

  lemma RulesFirst(r: string)
    requires r != [] && r[0] !in BLANKS
    ensures var n := Span(r, {'\n'});
      Rules(r) == r[..n] + ['\n'] + if n < |r| then Rules(r[n + 1..]) else []
  {
    hide Span;
    assert Skip(r, BLANKS) == 0;
    assert r[0..] == r;
  }

  lemma {:induction false} SpanEnds(s: string, stops: set<char>)
    requires s != [] && s[|s| - 1] in stops
    ensures Span(s, stops) < |s| && s[Span(s, stops)] in stops
  {
    if s[0] !in stops {
      SpanEnds(s[1..], stops);
    }
  }

  /** Rules in that form stay as they are. */
  lemma {:induction false} LinesAreRules(r: string)
    requires Lines(r)
    ensures Rules(r) == r
    decreases |r|
  {
    if r != [] {
      LinesEnds(r);
      hide Span, Rules, Lines;
      SpanEnds(r, {'\n'});
      var n := Span(r, {'\n'});
      LinesRest(r, n);
      RulesFirst(r);
      Rejoined(r, n);
      LinesAreRules(r[n + 1..]);
    }
  }

  lemma LinesEnds(r: string)
    requires Lines(r) && r != []
    ensures r[0] !in BLANKS && r[|r| - 1] == '\n'
  {
  }

  lemma Rejoined(r: string, n: nat)
    requires n < |r|
    ensures r == r[..n] + [r[n]] + r[n + 1..]
  {
  }

  lemma NormalText(q: Parts)
    requires q.space == [] && q.gap == [] && q.gap2 == []
    ensures q.Text() == q.target + [':'] + q.deps + [q.end] + q.body
  {
  }

  lemma NoneIn(chars: set<char>)
    ensures All([], chars)
  {
  }

  /** Putting the three parts together again in the simplest way gives a build step with the
      same three parts: splitting computes a normal form. */
  lemma NormalForm(s: string)
    requires Parse(s).Step?
    ensures var r := Parse(s); Parse(r.target + [':'] + r.deps + ['\n'] + r.rules) == r && Lines(r.rules)
  {
    var p := OnlyAccepted(s);
    hide Parse;
    var rules := Rules(p.body);
    RulesAreLines(p.body);
    LinesAreRules(rules);
    RulesNotEmpty(p.body);
    hide Rules, Lines, All, None;
    NoneIn(BLANKS);
    NoneIn(SPACES);
    var q := Parts([], p.target, [], [], p.deps, '\n', rules);
    NormalText(q);
    Accepted(q);
  }

  // ---------------------------------------------------------------- the code

  /** The character a pointer is at; behind the string there is a terminator. */
  function At(s: string, p: nat): char {
    if p < |s| then s[p] else NUL
  }

  /** Moving past the characters in a set. */
  method SkipOver(s: string, from: nat, chars: set<char>) returns (p: nat)
    requires from <= |s| && NUL !in s && NUL !in chars
    ensures p == from + Skip(s[from..], chars) <= |s|
  {
    p := from;
    while At(s, p) in chars
      invariant from <= p <= |s| && All(s[from..p], chars)
      decreases |s| - p
    {
      assert s[from..p + 1] == s[from..p] + [s[p]];
      p := p + 1;
    }
    assert s[from..p] + s[p..] == s[from..];
    SkipIs(s[from..p], s[p..], chars);
  }

  /** Collecting the characters up to a stop or the end. */
  method Collect(s: string, from: nat, stops: set<char>) returns (text: string, p: nat)
    requires from <= |s| && NUL !in s
    ensures p == from + Span(s[from..], stops) <= |s| && text == s[from..p]
  {
    p, text := from, "";
    while At(s, p) != NUL && At(s, p) !in stops
      invariant from <= p <= |s| && None(s[from..p], stops) && text == s[from..p]
      decreases |s| - p
    {
      assert s[from..p + 1] == s[from..p] + [s[p]];
      text := text + [At(s, p)];
      p := p + 1;
    }
    assert s[from..p] + s[p..] == s[from..];
    SpanIs(s[from..p], s[p..], stops);
  }

  /** The last loop of split_custom_build_step. */
  method CollectRules(s: string, from: nat) returns (rules: string)
    requires from <= |s| && NUL !in s
    ensures rules == Rules(s[from..])
  {
    hide Skip, Span, Rules;
    var p := from;
    rules := "";
    assert "" + Rules(s[from..]) == Rules(s[from..]);
    while At(s, p) != NUL
      invariant from <= p <= |s| && Rules(s[from..]) == rules + Rules(s[p..])
      decreases |s| - p
    {
      var line, next := CollectRule(s, p);
      assert rules + (line + "\n" + Rules(s[next..])) == rules + line + "\n" + Rules(s[next..]);
      rules := rules + line;
      rules := rules + "\n";
      p := next;
    }
    assert s[p..] == [];
    assert Rules([]) == [] by {
      NoRule();
    }
  }

  /** One line of rules. */
  method CollectRule(s: string, from: nat) returns (line: string, p: nat)
    requires from < |s| && NUL !in s
    ensures from < p <= |s| && Rules(s[from..]) == line + "\n" + Rules(s[p..])
  {
    hide Skip, Span, Rules;
    p := SkipOver(s, from, BLANKS);
    ghost var start := p;
    line, p := Collect(s, p, {'\n'});
    RulesNext(s, from, start, p);
    if At(s, p) == '\n' {
      p := p + 1;
    }
  }

  lemma RulesNext(s: string, q: nat, start: nat, p: nat)
    requires q < |s| && start == q + Skip(s[q..], BLANKS) <= |s| && p == start + Span(s[start..], {'\n'}) <= |s|
    ensures q < (if p < |s| then p + 1 else p) && (p < |s| ==> s[p] == '\n')
    ensures Rules(s[q..]) == s[start..p] + "\n" + Rules(s[if p < |s| then p + 1 else p..])
  {
    hide Span, Skip, Rules;
    var u := s[start..];
    SpanPart(u, {'\n'});
    RulesStep(s[q..]);
    NoRule();
    Sliced(s, q, start, p);
    if p < |s| {
      assert s[p] == u[p - start];
      DropTwice(s, p);
    }
  }

  lemma Sliced(s: string, q: nat, start: nat, p: nat)
    requires q <= start <= p <= |s|
    ensures s[q..][start - q..] == s[start..] && s[start..][..p - start] == s[start..p] && s[start..][p - start..] == s[p..]
  {
  }

  /** split_custom_build_step */
  method SplitBuildStep(data: string) returns (result: Split)
    ensures result == Parse(CString(data))
  {
    result := SplitString(CString(data));
  }

  method SplitString(s: string) returns (result: Split)
    requires NUL !in s
    ensures result == Parse(s)
  {
    hide Skip, Span, Rules, ParseColon;
    var p := SkipOver(s, 0, SPACES);
    assert s[0..] == s;
    if At(s, p) == NUL {
      return NoData;
    }
    var target;
    ghost var a := p;
    target, p := Collect(s, p, {':', ' ', '\t'});
    assert s[a..][..p - a] == target && s[a..][p - a..] == s[p..];
    result := SplitAfterTarget(s, p, target);
  }

  /** The rest of it, from behind the target. */
  method SplitAfterTarget(s: string, from: nat, target: string) returns (result: Split)
    requires from <= |s| && NUL !in s
    ensures result == ParseColon(target, s[from..])
  {
    hide Skip, Span, Rules, ParseDeps;
    var p := SkipOver(s, from, BLANKS);
    assert s[from..][p - from..] == s[p..];
    if At(s, p) != ':' {
      return NoColon(target);
    }
    p := p + 1;
    assert s[p - 1..][1..] == s[p..];
    result := SplitAfterColon(s, p, target);
  }

  method SplitAfterColon(s: string, from: nat, target: string) returns (result: Split)
    requires from <= |s| && NUL !in s
    ensures result == ParseDeps(target, s[from..])
  {
    hide Skip, Span, Rules, ParseBody;
    var p := SkipOver(s, from, BLANKS);
    assert s[from..][p - from..] == s[p..];
    ghost var b := p;
    var deps;
    deps, p := Collect(s, p, {'\n', ';'});
    assert s[b..][..p - b] == deps && s[b..][p - b..] == s[p..];
    result := SplitBody(s, p, target, deps);
  }

  method SplitBody(s: string, from: nat, target: string, deps: string) returns (result: Split)
    requires from <= |s| && NUL !in s
    ensures result == ParseBody(target, deps, s[from..])
  {
    hide Rules;
    if deps == "" {
      return NoDeps(target);
    }
    if At(s, from) == NUL {
      assert s[from..] == [];
      return NothingAfterDeps;
    }
    assert s[from..][1..] == s[from + 1..];
    var rules := CollectRules(s, from + 1);
    if rules == "" {
      return NoRules;
    }
    return Step(target, deps, rules);
  }
}
