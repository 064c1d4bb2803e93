/** Splitting a command line into its arguments, in place (ecos/ecosap/shell/shelltask.c,
    count_argc). */
module ShellArgs {

  const NUL := 0 as char
  /** argv has room for this many. */
  const MAX_ARGS: nat := 10
  /** Only this much of the first word is compared with the commands' names. */
  const NAME_LENGTH: nat := 20

  // ---------------------------------------------------------------- words

  /** The pieces of s between its spaces. */
  function Words(s: string): (w: seq<string>)
    ensures |w| > 0
  {
    if s == [] then [[]]
    else if s[0] == ' ' then [[]] + Words(s[1..])
    else var w := Words(s[1..]); [[s[0]] + w[0]] + w[1..]
  }

  function Joined(w: seq<string>): string {
    if w == [] then [] else if |w| == 1 then w[0] else w[0] + [' '] + Joined(w[1..])
  }

  /** The words joined by single spaces give the line back. */
  lemma {:induction false} JoinedWords(s: string)
    ensures Joined(Words(s)) == s
    ensures forall w :: w in Words(s) ==> ' ' !in w
  {
    if s != [] {
      JoinedWords(s[1..]);
      var w := Words(s[1..]);
      assert w[0] in w;
      if s[0] == ' ' {
        assert Words(s)[1..] == w;
      } else {
        assert Words(s)[1..] == w[1..];
        assert forall x :: x in w[1..] ==> x in w;
      }
    }
  }

  lemma {:induction false} NoSpace(u: string)
    requires ' ' !in u
    ensures Words(u) == [u]
  {
    if u != [] {
      NoSpace(u[1..]);
      assert u == [u[0]] + u[1..];
    }
  }

  lemma {:induction false} FirstWord(u: string, t: string)
    requires ' ' !in u
    ensures Words(u + [' '] + t) == [u] + Words(t)
  {
    var s := u + [' '] + t;
    if u == [] {
      assert s[1..] == t;
    } else {
      assert s[1..] == u[1..] + [' '] + t;
      FirstWord(u[1..], t);
      assert [u[0]] + u[1..] == u;
    }
  }

  // ---------------------------------------------------------------- strings in a buffer

  /** The string a pointer to b[p] stands for. */
  function StringAt(b: seq<char>, p: nat): string
    decreases |b| - p
  {
    if p >= |b| || b[p] == NUL then [] else [b[p]] + StringAt(b, p + 1)
  }

  lemma {:induction false} StringEndsAt(b: seq<char>, p: nat, q: nat)
    requires p <= q < |b| && b[q] == NUL && NUL !in b[p..q]
    ensures StringAt(b, p) == b[p..q]
    decreases q - p
  {
    if p < q {
      assert b[p..q] == [b[p]] + b[p + 1..q];
      StringEndsAt(b, p + 1, q);
    }
  }

  /** The line in a buffer, with its place for the terminator. */
  ghost predicate Holds(b: seq<char>, line: string) {
    |line| < |b| && b[..|line|] == line && b[|line|] == NUL && NUL !in line
  }

  // ---------------------------------------------------------------- count_argc

  /** The first 20 characters of the first word. */
  function Name(line: string): string {
    var w := Words(line)[0];
    if |w| <= NAME_LENGTH then w else w[..NAME_LENGTH]
  }

  ghost function Start(args: seq<nat>): nat {
    if args == [] then 0 else args[|args| - 1]
  }

  /** The words split off so far: the one before the first argument, and those from each
      argument to the space before the next. */
  ghost predicate SplitOff(line: string, p: nat, args: seq<nat>, done: seq<string>) {
    && |done| == |args| && Start(args) <= p <= |line|
    && Words(line) == done + Words(line[Start(args)..]) && ' ' !in line[Start(args)..p]
    && (forall k :: 0 <= k < |args| ==> 0 < args[k] <= Start(args) && line[args[k] - 1] == ' ')
    && (forall k :: 1 <= k < |args| ==> args[k - 1] < args[k] && done[k] == line[args[k - 1]..args[k] - 1])
    && (args != [] ==> ' ' !in line[..args[0] - 1])
  }

  /** The line with its spaces before p, except for the first, made terminators. */
  ghost predicate Terminated(b: seq<char>, line: string, p: nat, first: int) {
    && |line| < |b| && b[|line|] == NUL
    && (forall i :: 0 <= i < |line| ==> b[i] == if i < p && line[i] == ' ' && i != first then NUL else line[i])
  }

  lemma SplitCount(line: string, p: nat, args: seq<nat>, done: seq<string>)
    requires SplitOff(line, p, args, done)
    ensures |args| + 1 <= |Words(line)|
  {
  }

  lemma NextWord(line: string, start: nat, p: nat)
    requires start <= p < |line| && line[p] == ' ' && ' ' !in line[start..p]
    ensures Words(line[start..]) == [line[start..p]] + Words(line[p + 1..])
  {
    assert line[start..] == line[start..p] + [' '] + line[p + 1..];
    FirstWord(line[start..p], line[p + 1..]);
  }

  /** One more space. */
  lemma SplitNext(line: string, p: nat, args: seq<nat>, done: seq<string>) returns (done': seq<string>)
    requires SplitOff(line, p, args, done) && p < |line| && line[p] == ' '
    ensures SplitOff(line, p + 1, args + [p + 1], done')
  {
    hide Words;
    var start := Start(args);
    NextWord(line, start, p);
    var u, w := line[start..p], Words(line[p + 1..]);
    assert done + ([u] + w) == done + [u] + w;
    done' := done + [u];
    var args' := args + [p + 1];
    assert Start(args') == p + 1;
    assert forall k :: 0 <= k < |args| ==> args'[k] == args[k];
  }

  lemma SplitOn(line: string, p: nat, args: seq<nat>, done: seq<string>)
    requires SplitOff(line, p, args, done) && p < |line| && line[p] != ' '
    ensures SplitOff(line, p + 1, args, done)
  {
    hide Words;
  }

  /** The place of the first space; any place will do as long as there has been none. */
  ghost function FirstSpace(line: string, args: seq<nat>): int {
    if args == [] then |line| as int else args[0] as int - 1
  }

  lemma TerminateNext(b: seq<char>, b': seq<char>, line: string, p: nat, args: seq<nat>, done: seq<string>)
    requires SplitOff(line, p, args, done) && p < |line| && FirstSpace(line, args) >= 0
    requires Terminated(b, line, p, FirstSpace(line, args))
    requires b' == if line[p] == ' ' && args != [] then b[p := NUL] else b
    ensures var args' := if line[p] == ' ' then args + [p + 1] else args;
      FirstSpace(line, args') >= 0 && Terminated(b', line, p + 1, FirstSpace(line, args'))
  {
    hide Words;
    if args == [] {
      assert line[Start(args)..p] == line[..p];
      assert forall i :: 0 <= i < p ==> line[..p][i] == line[i];
    }
  }

  lemma AtCharacter(b: seq<char>, line: string, p: nat, first: int)
    requires Terminated(b, line, p, first) && p <= |line| && NUL !in line
    ensures p < |b| && (b[p] == NUL <==> p == |line|) && (p < |line| ==> b[p] == line[p])
  {
  }

  /** After the last space. */
  lemma SplitEnd(line: string, args: seq<nat>, done: seq<string>)
    requires SplitOff(line, |line|, args, done)
    ensures Words(line) == done + [line[Start(args)..]]
  {
    assert line[Start(args)..|line|] == line[Start(args)..];
    NoSpace(line[Start(args)..]);
  }

  ghost function WordEnd(line: string, args: seq<nat>, k: nat): int
    requires k < |args|
  {
    if k + 1 < |args| then args[k + 1] - 1 else |line|
  }

  lemma WordIs(line: string, args: seq<nat>, done: seq<string>, k: nat)
    requires SplitOff(line, |line|, args, done) && k < |args|
    ensures args[k] <= WordEnd(line, args, k) <= |line|
    ensures |Words(line)| == |args| + 1 && Words(line)[k + 1] == line[args[k]..WordEnd(line, args, k)]
  {
    hide Words;
    SplitEnd(line, args, done);
  }

  lemma ReadBack(b: seq<char>, line: string, first: int, lo: nat, hi: nat)
    requires first >= 0 && Terminated(b, line, |line|, first) && lo <= hi <= |line| && NUL !in line && ' ' !in line[lo..hi]
    requires hi < |line| ==> line[hi] == ' ' && hi != first
    ensures StringAt(b, lo) == line[lo..hi]
  {
    forall i | lo <= i < hi ensures b[i] == line[i] {
      assert line[lo..hi][i - lo] == line[i];
    }
    assert b[lo..hi] == line[lo..hi];
    StringEndsAt(b, lo, hi);
  }

  /** The arguments in the buffer are the words after the first. */
  lemma ArgumentsRead(b: seq<char>, line: string, args: seq<nat>, done: seq<string>, k: nat)
    requires SplitOff(line, |line|, args, done) && k < |args| && NUL !in line && args[0] > 0
    requires Terminated(b, line, |line|, args[0] - 1)
    ensures |Words(line)| == |args| + 1 && StringAt(b, args[k]) == Words(line)[k + 1]
  {
    hide Words, Terminated, StringAt;
    var hi := WordEnd(line, args, k);
    WordIs(line, args, done, k);
    JoinedWords(line);
    FirstIsFirst(line, args, done, k);
    if k + 1 < |args| {
      assert args[k] < args[k + 1];
    }
    assert line[args[k]..hi] in Words(line);
    ReadBack(b, line, args[0] - 1, args[k], hi);
  }

  lemma AllRead(b: seq<char>, line: string, args: seq<nat>, done: seq<string>)
    requires SplitOff(line, |line|, args, done) && NUL !in line && FirstSpace(line, args) >= 0
    requires Terminated(b, line, |line|, FirstSpace(line, args))
    ensures |args| == |Words(line)| - 1
    ensures forall k :: 0 <= k < |args| ==> StringAt(b, args[k]) == Words(line)[k + 1]
  {
    SplitEnd(line, args, done);
    forall k | 0 <= k < |args| ensures StringAt(b, args[k]) == Words(line)[k + 1] {
      assert args[0] > 0;
      ArgumentsRead(b, line, args, done, k);
    }
  }

  lemma {:induction false} FirstIsFirst(line: string, args: seq<nat>, done: seq<string>, k: nat)
    requires SplitOff(line, |line|, args, done) && k < |args|
    ensures args[0] <= args[k]
  {
    if k > 0 {
      FirstIsFirst(line, args, done, k - 1);
    }
  }

  lemma {:induction false} WordStarts(u: string, t: string)
    requires ' ' !in u
    ensures Words(u + t)[0] == u + Words(t)[0]
  {
    if u == [] {
      assert u + t == t;
    } else {
      assert (u + t)[1..] == u[1..] + t;
      WordStarts(u[1..], t);
      assert [u[0]] + (u[1..] + Words(t)[0]) == u + Words(t)[0];
    }
  }

  lemma NameIs(line: string, p: nat)
    requires p <= |line| && p <= NAME_LENGTH && ' ' !in line[..p]
    requires p == |line| || line[p] == ' ' || p == NAME_LENGTH
    ensures Name(line) == line[..p]
  {
    WordStarts(line[..p], line[p..]);
    assert line == line[..p] + line[p..];
  }

  lemma SplitStart(b: seq<char>, line: string, p: nat)
    requires Holds(b, line) && p <= |line| && ' ' !in line[..p]
    ensures SplitOff(line, p, [], []) && FirstSpace(line, []) >= 0 && Terminated(b, line, p, FirstSpace(line, []))
  {
    assert [] + Words(line[0..]) == Words(line[0..]) && line[0..] == line;
    hide Words;
    assert line[0..p] == line[..p];
    assert forall i :: 0 <= i < p ==> line[..p][i] == line[i];
    assert forall i :: 0 <= i < |line| ==> b[..|line|][i] == b[i];
  }

  /** One space: all but the first are overwritten, and an argument starts after each. */
  method TakeSpace(buf: array<char>, pointer: nat, args: seq<nat>, ghost line: string, ghost done: seq<string>)
    returns (args': seq<nat>, ghost done': seq<string>)
    requires pointer < |line| < buf.Length && line[pointer] == ' ' && FirstSpace(line, args) >= 0 && |Words(line)| <= MAX_ARGS + 1
    requires SplitOff(line, pointer, args, done) && Terminated(buf[..], line, pointer, FirstSpace(line, args))
    modifies buf
    ensures args' == args + [pointer + 1] && |args'| <= MAX_ARGS && FirstSpace(line, args') >= 0
    ensures SplitOff(line, pointer + 1, args', done') && Terminated(buf[..], line, pointer + 1, FirstSpace(line, args'))
  {
    hide Words, SplitOff, Terminated, FirstSpace;
    ghost var before := buf[..];
    done' := SplitNext(line, pointer, args, done);
    if |args| > 0 {
      buf[pointer] := NUL;
    }
    TerminateNext(before, buf[..], line, pointer, args, done);
    args' := args + [pointer + 1];
    SplitCount(line, pointer + 1, args', done');
  }

  /** The last loop of count_argc, from the end of the name. */
  method SplitArgs(buf: array<char>, from: nat, ghost line: string) returns (args: seq<nat>)
    requires Holds(buf[..], line) && |line| < 256 && from <= |line| && ' ' !in line[..from] && |Words(line)| <= MAX_ARGS + 1
    modifies buf
    ensures |args| == |Words(line)| - 1 <= MAX_ARGS
    ensures forall k :: 0 <= k < |args| ==> StringAt(buf[..], args[k]) == Words(line)[k + 1]
  {
    hide Words, StringAt, SplitOff, Terminated, FirstSpace;
    var pointer := from;
    args := [];
    ghost var done: seq<string> := [];
    SplitStart(buf[..], line, pointer);
    AtCharacter(buf[..], line, pointer, FirstSpace(line, args));
    while buf[pointer] != NUL
      invariant pointer <= |line| < buf.Length && SplitOff(line, pointer, args, done) && FirstSpace(line, args) >= 0
      invariant Terminated(buf[..], line, pointer, FirstSpace(line, args))
      decreases |line| - pointer
    {
      AtCharacter(buf[..], line, pointer, FirstSpace(line, args));
      if buf[pointer] == ' ' {
        args, done := TakeSpace(buf, pointer, args, line, done);
      } else {
        SplitOn(line, pointer, args, done);
        TerminateNext(buf[..], buf[..], line, pointer, args, done);
      }
      pointer := pointer + 1;
    }
    AtCharacter(buf[..], line, pointer, FirstSpace(line, args));
    AllRead(buf[..], line, args, done);
  }

  /** count_argc: looks the first word up among the commands, and if it is one of them, makes
      args point to the words after it. */
  method CountArgs(buf: array<char>, commands: seq<string>, ghost line: string) returns (found: int, args: seq<nat>)
    requires Holds(buf[..], line) && |line| < 256
    requires Name(line) in commands ==> |Words(line)| <= MAX_ARGS + 1
    modifies buf
    ensures found == -1 <==> Name(line) !in commands
    ensures found == -1 ==> buf[..] == old(buf[..]) && args == []
    ensures found != -1 ==> 0 <= found < |commands| && commands[found] == Name(line) && Name(line) !in commands[..found]
    ensures found != -1 ==> |args| == |Words(line)| - 1
    ensures found != -1 ==> forall k :: 0 <= k < |args| ==> StringAt(buf[..], args[k]) == Words(line)[k + 1]
  {
    hide Words, StringAt, Name;
    var name := [];
    var pointer := 0;
    while buf[pointer] != ' ' && buf[pointer] != NUL && pointer < NAME_LENGTH
      invariant 0 <= pointer <= NAME_LENGTH && pointer <= |line| && name == line[..pointer] && ' ' !in name
      decreases |line| - pointer
    {
      name := name + [buf[pointer]];
      pointer := pointer + 1;
    }
    NameIs(line, pointer);
    found := 0;
    while found < |commands|
      invariant 0 <= found <= |commands| && name !in commands[..found]
    {
      if commands[found] == name {
        break;
      }
      found := found + 1;
    }
    args := [];
    if found == |commands| {
      found := -1;
    } else {
      args := SplitArgs(buf, pointer, line);
    }
  }
}
