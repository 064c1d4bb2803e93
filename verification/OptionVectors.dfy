/** Argument vectors written out from what they are to say, and read back by getopt_long
    (ecos/ecosap/shell/getopt_long.c). */
module OptionVectors {
  import opened Common
  import opened OptionScanner
  import opened OptionTexts
  import opened ArgvLayout
  import opened Getopt

  /** What elements of a vector say: short options together, the last with an argument in the same
      element or the next; a long option, entry i of the table, with or without an argument; or an
      argument that is no option. */
  datatype Part =
    | Letters(flags: string, last: char, arg: Option<string>, attached: bool)
    | Named(name: string, i: nat, arg: Option<string>, attached: bool)
    | Operand(text: string)

  function Elements(p: Part): (r: seq<string>)
    ensures r != []
  {
    match p
    case Letters(flags, last, None, _) => ["-" + flags + [last]]
    case Letters(flags, last, Some(value), attached) =>
      if attached then ["-" + flags + [last] + value] else ["-" + flags + [last], value]
    case Named(name, _, None, _) => ["--" + name]
    case Named(name, _, Some(value), attached) => if attached then ["--" + (name + "=" + value)] else ["--" + name, value]
    case Operand(text) => [text]
  }

  function Written(parts: seq<Part>): seq<string> {
    if parts == [] then [] else Elements(parts[0]) + Written(parts[1..])
  }

  // ---------------------------------------------------------------- what may be written

  /** The first c in the option string is an option letter with this kind of argument. */
  ghost predicate Lists(cfg: Config, c: char, hasArg: HasArg, k: nat) {
    && k < |cfg.options| && cfg.options[k] == c && c !in cfg.options[..k] && c != ':' && c != '-'
    && !(cfg.long.Some? && c == 'W' && ";" <= cfg.options[k + 1..])
    && match hasArg
       case NoArgument => !(":" <= cfg.options[k + 1..])
       case RequiredArgument => ":" <= cfg.options[k + 1..] && !("::" <= cfg.options[k + 1..])
       case OptionalArgument => "::" <= cfg.options[k + 1..]
  }

  ghost predicate Takes(cfg: Config, c: char, hasArg: HasArg) {
    exists k :: Lists(cfg, c, hasArg, k)
  }

  ghost predicate Fits(cfg: Config, p: Part) {
    match p
    case Letters(flags, last, arg, attached) =>
      && (forall c :: c in flags ==> Takes(cfg, c, NoArgument))
      && (match arg
          case None => Takes(cfg, last, NoArgument) || (Takes(cfg, last, OptionalArgument) && cfg.permute)
          case Some(value) =>
            if attached then value != "" && (Takes(cfg, last, RequiredArgument) || Takes(cfg, last, OptionalArgument))
            else Takes(cfg, last, RequiredArgument) ||
                 (Takes(cfg, last, OptionalArgument) && !cfg.permute && !("-" <= value)))
    case Named(name, i, arg, attached) =>
      && cfg.long.Some? && StandsFor(cfg.long.value, name, false, i) && name != "" && '=' !in name
      && var hasArg := cfg.long.value[i].hasArg;
         (if arg.None? then !hasArg.RequiredArgument?
          else if attached then !hasArg.NoArgument? else hasArg.RequiredArgument?)
    case Operand(text) => Ordinary(cfg, text) && (cfg.permute || cfg.allArgs)
  }

  // ---------------------------------------------------------------- what is to be reported

  function FlagReports(flags: string): seq<Report> {
    seq(|flags|, i requires 0 <= i < |flags| => Report(flags[i] as int, None, None, None, None))
  }

  ghost function Says(cfg: Config, p: Part): seq<Report>
    requires Fits(cfg, p)
  {
    match p
    case Letters(flags, last, arg, _) => FlagReports(flags) + [Report(last as int, arg, None, None, None)]
    case Named(_, i, arg, _) =>
      var o := cfg.long.value[i];
      [match o.flag
       case None => Report(o.val, arg, None, Some(i), None)
       case Some(v) => Report(0, arg, None, Some(i), Some((v, o.val)))]
    case Operand(text) => if cfg.allArgs then [Report(1, Some(text), None, None, None)] else []
  }

  ghost function AllSay(cfg: Config, parts: seq<Part>): seq<Report>
    requires forall p :: p in parts ==> Fits(cfg, p)
  {
    if parts == [] then [] else Says(cfg, parts[0]) + AllSay(cfg, parts[1..])
  }

  /** Consumed (true) or skipped (false), element for element. */
  function Marked(cfg: Config, p: Part): seq<bool> {
    seq(|Elements(p)|, _ => !p.Operand? || cfg.allArgs)
  }

  function AllMarked(cfg: Config, parts: seq<Part>): (r: seq<bool>)
    ensures |r| == |Written(parts)|
  {
    if parts == [] then [] else Marked(cfg, parts[0]) + AllMarked(cfg, parts[1..])
  }

  // ---------------------------------------------------------------- a run, step by step

  lemma RunFound(cfg: Config, args: seq<string>, pos: nat, off: nat, r: Report, n: nat, off': nat)
    requires cfg.Valid() && (off > 0 ==> pos < |args| && off < |args[pos]|)
    requires Scan(cfg, args, pos, off) == Found(r, 0, pos + n, off')
    ensures off' > 0 ==> pos + n < |args| && off' < |args[pos + n]|
    ensures ScanAll(cfg, args, pos, off) == Prepend([r], seq(n, _ => true), ScanAll(cfg, args, pos + n, off'))
  {
    hide Scan;
    ScanAdvances(cfg, args, pos, off);
    assert Marks(pos, 0, pos + n) == seq(n, _ => true);
  }

  /** A skipped argument is in front of what is passed next. */
  lemma RunSkips(cfg: Config, args: seq<string>, pos: nat)
    requires cfg.Valid() && pos < |args| && Ordinary(cfg, args[pos]) && cfg.permute && !cfg.allArgs
    ensures ScanAll(cfg, args, pos, 0) == Prepend([], [false], ScanAll(cfg, args, pos + 1, 0))
  {
    hide Scan, Marks;
    OtherElements(cfg, args, pos);
    ScanAdvances(cfg, args, pos + 1, 0);
    match Scan(cfg, args, pos + 1, 0)
    case Found(r, k, end, off) =>
      MarksSkip(pos, k, end);
      PrependTwice([], [false], [r], Marks(pos + 1, k, end), ScanAll(cfg, args, end, off));
    case EndOfArgs(k) => MarksSkip(pos, k, pos + 1 + k);
    case DashDash(k, end) => MarksSkip(pos, k, end);
    case _ =>
  }

  lemma MarksSkip(pos: nat, k: nat, end: nat)
    ensures Marks(pos, k + 1, end) == [false] + Marks(pos + 1, k, end)
  {
  }

  /** Letters without argument, one after the other. */
  lemma {:induction false} RunFlags(cfg: Config, args: seq<string>, pos: nat, head: string, flags: string, more: string)
    requires cfg.Valid() && !cfg.longOnly && pos < |args| && args[pos] == head + flags + more && head != "" && more != ""
    requires forall c :: c in flags ==> Takes(cfg, c, NoArgument)
    ensures |head + flags| < |args[pos]|
    ensures ScanAll(cfg, args, pos, |head|) == Prepend(FlagReports(flags), [], ScanAll(cfg, args, pos, |head + flags|))
    decreases |flags|
  {
    hide Scan, ScanAll, Takes;
    if flags == "" {
      assert FlagReports(flags) == [] && head + flags == head;
      PrependNothing(ScanAll(cfg, args, pos, |head|));
    } else {
      var c, rest := flags[0], flags[1..] + more;
      var r := Report(c as int, None, None, None, None);
      assert args[pos] == head + [c] + rest;
      FlagStep(cfg, args, pos, head, c, rest);
      RunFound(cfg, args, pos, |head|, r, 0, |head| + 1);
      assert args[pos] == head + [c] + flags[1..] + more;
      RunFlags(cfg, args, pos, head + [c], flags[1..], more);
      assert head + [c] + flags[1..] == head + flags;
      assert FlagReports(flags) == [r] + FlagReports(flags[1..]);
      assert seq(0, _ => true) == [];
      PrependTwice([r], [], FlagReports(flags[1..]), [], ScanAll(cfg, args, pos, |head + flags|));
    }
  }

  lemma SplitAt<T>(s: seq<T>, k: nat)
    requires k < |s|
    ensures s == s[..k] + [s[k]] + s[k + 1..]
  {
  }

  lemma FlagStep(cfg: Config, args: seq<string>, pos: nat, head: string, c: char, rest: string)
    requires !cfg.longOnly && pos < |args| && args[pos] == head + [c] + rest && head != "" && rest != ""
    requires Takes(cfg, c, NoArgument)
    ensures |head| < |args[pos]|
    ensures Scan(cfg, args, pos, |head|) == Found(Report(c as int, None, None, None, None), 0, pos, |head| + 1)
  {
    hide Scan;
    var k: nat :| Lists(cfg, c, NoArgument, k);
    SplitAt(cfg.options, k);
    ShortOption(cfg, args, pos, head, c, rest, cfg.options[..k], cfg.options[k + 1..]);
  }

  /** The last letter, with its argument. */
  lemma LastStep(cfg: Config, args: seq<string>, pos: nat, head: string, p: Part)
    requires !cfg.longOnly && p.Letters? && Fits(cfg, p) && head != ""
    requires pos + |Elements(p)| <= |args|
    requires args[pos] == head + [p.last] + if p.arg.Some? && p.attached then p.arg.value else ""
    requires p.arg.Some? && !p.attached ==> args[pos + 1] == p.arg.value
    ensures |head| < |args[pos]|
    ensures Scan(cfg, args, pos, |head|) == Found(Report(p.last as int, p.arg, None, None, None), 0, pos + |Elements(p)|, 0)
  {
    hide Scan, Takes, Lists;
    var h := if p.arg.None? then if Takes(cfg, p.last, NoArgument) then NoArgument else OptionalArgument
             else if Takes(cfg, p.last, RequiredArgument) then RequiredArgument else OptionalArgument;
    var rest := if p.arg.Some? && p.attached then p.arg.value else "";
    var k := ListedAt(cfg, p.last, h);
    ListedStep(cfg, args, pos, head, p.last, rest, h, k);
  }

  lemma ListedAt(cfg: Config, c: char, hasArg: HasArg) returns (k: nat)
    requires Takes(cfg, c, hasArg)
    ensures Lists(cfg, c, hasArg, k)
  {
    hide Lists;
    k :| Lists(cfg, c, hasArg, k);
  }

  lemma ListedStep(cfg: Config, args: seq<string>, pos: nat, head: string, c: char, rest: string, hasArg: HasArg, k: nat)
    requires !cfg.longOnly && pos < |args| && args[pos] == head + [c] + rest && head != ""
    requires Lists(cfg, c, hasArg, k)
    ensures |head| < |args[pos]|
    ensures
      var next := Scan(cfg, args, pos, |head|);
      && (!hasArg.NoArgument? && rest != "" ==> next == Found(Report(c as int, Some(rest), None, None, None), 0, pos + 1, 0))
      && (hasArg.NoArgument? && rest == "" ==> next == Found(Report(c as int, None, None, None, None), 0, pos + 1, 0))
      && (hasArg.OptionalArgument? && rest == "" && cfg.permute ==> next == Found(Report(c as int, None, None, None, None), 0, pos + 1, 0))
      && (rest == "" && pos + 1 < |args| && hasArg.RequiredArgument? ==>
            next == Found(Report(c as int, Some(args[pos + 1]), None, None, None), 0, pos + 2, 0))
      && (rest == "" && pos + 1 < |args| && hasArg.OptionalArgument? && !cfg.permute && !("-" <= args[pos + 1]) ==>
            next == Found(Report(c as int, Some(args[pos + 1]), None, None, None), 0, pos + 2, 0))
  {
    hide Scan;
    SplitAt(cfg.options, k);
    ShortOption(cfg, args, pos, head, c, rest, cfg.options[..k], cfg.options[k + 1..]);
  }

  lemma Enters(cfg: Config, args: seq<string>, pos: nat, text: string)
    requires cfg.Valid() && pos < |args| && args[pos] == "-" + text && text != "" && text != "-"
    ensures ScanAll(cfg, args, pos, 0) == ScanAll(cfg, args, pos, 1)
  {
    hide Scan;
    FirstLetter(cfg, args, pos, text);
    ScanAdvances(cfg, args, pos, 0);
  }

  lemma RunLetters(cfg: Config, args: seq<string>, pos: nat, p: Part)
    requires cfg.Valid() && !cfg.longOnly && p.Letters? && Fits(cfg, p)
    requires pos + |Elements(p)| <= |args|
    requires args[pos] == Elements(p)[0] && (|Elements(p)| > 1 ==> args[pos + 1] == Elements(p)[1])
    ensures ScanAll(cfg, args, pos, 0) == Prepend(Says(cfg, p), Marked(cfg, p), ScanAll(cfg, args, pos + |Elements(p)|, 0))
  {
    hide Scan, ScanAll, Takes;
    var more := [p.last] + if p.arg.Some? && p.attached then p.arg.value else "";
    var r := Report(p.last as int, p.arg, None, None, None);
    var n := |Elements(p)|;
    assert args[pos] == "-" + (p.flags + more) && args[pos] == "-" + p.flags + more;
    NoDash(cfg, p, more);
    Enters(cfg, args, pos, p.flags + more);
    RunFlags(cfg, args, pos, "-", p.flags, more);
    LastStep(cfg, args, pos, "-" + p.flags, p);
    RunFound(cfg, args, pos, |"-" + p.flags|, r, n, 0);
    PrependTwice(FlagReports(p.flags), [], [r], Marked(cfg, p), ScanAll(cfg, args, pos + n, 0));
    assert Marked(cfg, p) == seq(n, _ => true) == [] + Marked(cfg, p);
  }

  lemma NoDash(cfg: Config, p: Part, more: string)
    requires p.Letters? && Fits(cfg, p) && more != "" && more[0] == p.last
    ensures p.flags + more != "" && p.flags + more != "-"
  {
    assert p.flags != "" ==> p.flags[0] in p.flags && (p.flags + more)[0] == p.flags[0];
    assert p.flags == "" ==> (p.flags + more)[0] == p.last;
  }

  lemma RunNamed(cfg: Config, args: seq<string>, pos: nat, p: Part)
    requires cfg.Valid() && p.Named? && Fits(cfg, p)
    requires pos + |Elements(p)| <= |args|
    requires args[pos] == Elements(p)[0] && (|Elements(p)| > 1 ==> args[pos + 1] == Elements(p)[1])
    ensures ScanAll(cfg, args, pos, 0) == Prepend(Says(cfg, p), Marked(cfg, p), ScanAll(cfg, args, pos + |Elements(p)|, 0))
  {
    hide Scan, ScanAll, StandsFor;
    var n := |Elements(p)|;
    var given := if p.attached then p.arg else None;
    var text := match given case None => p.name case Some(value) => p.name + "=" + value;
    assert args[pos] == "-" + ("-" + text) && args[pos] == "-" + "-" + text;
    assert |"-" + text| > 1;
    Enters(cfg, args, pos, "-" + text);
    LongElement(cfg, args, pos, "-", "-", text, p.name, given, p.i);
    RunFound(cfg, args, pos, 1, Says(cfg, p)[0], n, 0);
    assert Marked(cfg, p) == seq(n, _ => true);
  }

  /** The elements of one part are read as what it says. */
  lemma RunPart(cfg: Config, args: seq<string>, pos: nat, p: Part)
    requires cfg.Valid() && !cfg.longOnly && Fits(cfg, p)
    requires pos + |Elements(p)| <= |args| && args[pos..pos + |Elements(p)|] == Elements(p)
    ensures ScanAll(cfg, args, pos, 0) == Prepend(Says(cfg, p), Marked(cfg, p), ScanAll(cfg, args, pos + |Elements(p)|, 0))
  {
    hide Scan, ScanAll, Takes, StandsFor, Ordinary;
    var n := |Elements(p)|;
    assert forall k :: 0 <= k < n ==> args[pos + k] == args[pos..pos + n][k] == Elements(p)[k];
    match p
    case Letters(flags, last, arg, attached) => RunLetters(cfg, args, pos, p);
    case Named(name, i, arg, attached) => RunNamed(cfg, args, pos, p);
    case Operand(text) =>
      assert args[pos + 0] == text;
      if cfg.allArgs {
        OtherElements(cfg, args, pos);
        RunFound(cfg, args, pos, 0, Report(1, Some(text), None, None, None), 1, 0);
        assert Marked(cfg, p) == seq(1, _ => true);
      } else {
        RunSkips(cfg, args, pos);
        assert Marked(cfg, p) == [false];
      }
  }

  // ---------------------------------------------------------------- round trip

  /** Where a run ends: at the end, at "--", or at an argument that is no option if they may not be
      moved. */
  ghost predicate Ends(cfg: Config, tail: seq<string>) {
    tail == [] || tail[0] == "--" || (Ordinary(cfg, tail[0]) && !cfg.allArgs && !cfg.permute)
  }

  lemma RunEnds(cfg: Config, args: seq<string>, pos: nat)
    requires cfg.Valid() && pos <= |args| && Ends(cfg, args[pos..])
    ensures ScanAll(cfg, args, pos, 0) ==
      if pos == |args| then Trace([], [], AtEnd, pos)
      else if args[pos] == "--" then Trace([], [true], AtDashDash, pos + 1)
      else Trace([], [], AtNonOption, pos)
  {
    hide Scan;
    OtherElements(cfg, args, pos);
    ScanAdvances(cfg, args, pos, 0);
  }

  lemma {:induction false} RunWritten(cfg: Config, args: seq<string>, pos: nat, parts: seq<Part>, tail: seq<string>)
    requires cfg.Valid() && !cfg.longOnly && forall p :: p in parts ==> Fits(cfg, p)
    requires pos <= |args| && args[pos..] == Written(parts) + tail && Ends(cfg, tail)
    ensures pos + |Written(parts)| <= |args|
    ensures ScanAll(cfg, args, pos, 0) ==
      Prepend(AllSay(cfg, parts), AllMarked(cfg, parts), ScanAll(cfg, args, pos + |Written(parts)|, 0))
    decreases |parts|
  {
    hide *;
    if parts == [] {
      Unwritten(cfg);
      PrependNothing(ScanAll(cfg, args, pos, 0));
    } else {
      var p, rest := parts[0], parts[1..];
      var n := |Elements(p)|;
      WrittenNext(cfg, parts);
      NextPart(args, pos, Elements(p), Written(rest), tail);
      RunPart(cfg, args, pos, p);
      RunWritten(cfg, args, pos + n, rest, tail);
      PrependTwice(Says(cfg, p), Marked(cfg, p), AllSay(cfg, rest), AllMarked(cfg, rest), ScanAll(cfg, args, pos + |Written(parts)|, 0));
    }
  }

  lemma Unwritten(cfg: Config)
    ensures Written([]) == [] && AllSay(cfg, []) == [] && AllMarked(cfg, []) == []
  {
  }

  lemma WrittenNext(cfg: Config, parts: seq<Part>)
    requires parts != [] && forall p :: p in parts ==> Fits(cfg, p)
    ensures Written(parts) == Elements(parts[0]) + Written(parts[1..])
    ensures AllSay(cfg, parts) == Says(cfg, parts[0]) + AllSay(cfg, parts[1..])
    ensures AllMarked(cfg, parts) == Marked(cfg, parts[0]) + AllMarked(cfg, parts[1..])
  {
    hide Fits, Says, Elements, Marked;
  }

  lemma NextPart<T>(args: seq<T>, pos: nat, a: seq<T>, b: seq<T>, c: seq<T>)
    requires pos <= |args| && args[pos..] == a + b + c
    ensures pos + |a| <= |args| && args[pos..pos + |a|] == a && args[pos + |a|..] == b + c
  {
    assert args[pos..][..|a|] == a;
    assert args[pos..][|a|..] == b + c;
  }

  /** Round trip: what was written into a vector is reported, part for part, and everything up to the
      end has been passed. */
  lemma RoundTrip(cfg: Config, before: seq<string>, parts: seq<Part>, tail: seq<string>)
    requires cfg.Valid() && !cfg.longOnly && forall p :: p in parts ==> Fits(cfg, p)
    requires Ends(cfg, tail)
    ensures
      var t := ScanAll(cfg, before + Written(parts) + tail, |before|, 0);
      var end := |before| + |Written(parts)|;
      && t.reports == AllSay(cfg, parts)
      && (tail == [] ==> t.taken == AllMarked(cfg, parts) && t.exit == AtEnd && t.pos == end)
      && (tail != [] && tail[0] == "--" ==> t.taken == AllMarked(cfg, parts) + [true] && t.exit == AtDashDash && t.pos == end + 1)
      && (tail != [] && tail[0] != "--" ==> t.taken == AllMarked(cfg, parts) && t.exit == AtNonOption && t.pos == end)
  {
    hide Fits, ScanAll, AllSay, AllMarked, Written;
    var args := before + Written(parts) + tail;
    assert args[|before|..] == Written(parts) + tail;
    RunWritten(cfg, args, |before|, parts, tail);
    assert args[|before + Written(parts)|..] == tail;
    RunEnds(cfg, args, |before| + |Written(parts)|);
  }

  // ---------------------------------------------------------------- the vector afterwards

  function Options(parts: seq<Part>): seq<Part> {
    if parts == [] then [] else (if parts[0].Operand? then [] else [parts[0]]) + Options(parts[1..])
  }

  function Operands(parts: seq<Part>): seq<string> {
    if parts == [] then [] else (if parts[0].Operand? then [parts[0].text] else []) + Operands(parts[1..])
  }

  lemma {:induction false} PickJoin<T>(a: seq<T>, m: seq<bool>, b: seq<T>, n: seq<bool>, want: bool)
    requires |a| == |m| && |b| == |n|
    ensures Pick(a + b, m + n, want) == Pick(a, m, want) + Pick(b, n, want)
  {
    if b == [] {
      assert a + b == a && m + n == m;
    } else {
      var k := |b| - 1;
      PickJoin(a, m, b[..k], n[..k], want);
      assert (a + b)[..|a + b| - 1] == a + b[..k] && (m + n)[..|a + b| - 1] == m + n[..k];
    }
  }

  lemma {:induction false} PickSame<T>(s: seq<T>, mark: bool, want: bool)
    ensures Pick(s, seq(|s|, _ => mark), want) == if mark == want then s else []
  {
    if s != [] {
      var k := |s| - 1;
      PickSame(s[..k], mark, want);
      assert seq(|s|, _ => mark)[..k] == seq(k, _ => mark);
      assert s[..k] + [s[k]] == s;
    }
  }

  lemma PickPart(cfg: Config, p: Part)
    requires !cfg.allArgs
    ensures Pick(Elements(p), Marked(cfg, p), true) == if p.Operand? then [] else Elements(p)
    ensures Pick(Elements(p), Marked(cfg, p), false) == if p.Operand? then Elements(p) else []
  {
    hide Pick, Elements;
    PickSame(Elements(p), !p.Operand?, true);
    PickSame(Elements(p), !p.Operand?, false);
    assert Marked(cfg, p) == seq(|Elements(p)|, _ => !p.Operand?);
  }

  lemma WrittenFirst(p: Part, rest: seq<Part>)
    ensures Written([p] + rest) == Elements(p) + Written(rest)
    ensures Written([] + rest) == Written(rest)
  {
    assert ([p] + rest)[0] == p && ([p] + rest)[1..] == rest && [] + rest == rest;
  }

  /** The consumed elements are those of the options, the skipped ones the operands. */
  lemma {:induction false} PickWritten(cfg: Config, parts: seq<Part>)
    requires !cfg.allArgs
    ensures Pick(Written(parts), AllMarked(cfg, parts), true) == Written(Options(parts))
    ensures Pick(Written(parts), AllMarked(cfg, parts), false) == Operands(parts)
  {
    if parts != [] {
      hide Pick, Marked, Elements;
      var p, rest := parts[0], parts[1..];
      PickWritten(cfg, rest);
      PickPart(cfg, p);
      WrittenFirst(p, Options(rest));
      PickJoin(Elements(p), Marked(cfg, p), Written(rest), AllMarked(cfg, rest), true);
      PickJoin(Elements(p), Marked(cfg, p), Written(rest), AllMarked(cfg, rest), false);
      OperandElements(p);
    }
  }

  lemma OperandElements(p: Part)
    ensures p.Operand? ==> Elements(p) == [p.text]
  {
  }

  /** A vector of these arguments. */
  function Pointers(args: seq<string>): (r: seq<Arg>) {
    seq(|args|, i requires 0 <= i < |args| => Some(args[i]))
  }

  lemma {:induction false} PickPointers(s: seq<string>, m: seq<bool>, want: bool)
    requires |s| == |m|
    ensures Pick(Pointers(s), m, want) == Pointers(Pick(s, m, want))
  {
    if s != [] {
      var k := |s| - 1;
      PickPointers(s[..k], m[..k], want);
      assert Pointers(s)[..k] == Pointers(s[..k]);
    }
  }

  /** A partitioned vector, in terms of its arguments. */
  lemma PartitionedPointers(argv: seq<Arg>, before: seq<string>, passed: seq<string>, rest: seq<string>, taken: seq<bool>, optind: int)
    requires |passed| == |taken|
    requires Partitioned(argv, Pointers(before + passed + rest) + [None], |before|, taken, |before + passed|, optind)
    ensures argv == Pointers(before + Pick(passed, taken, true) + Pick(passed, taken, false) + rest) + [None]
    ensures optind == |before| + |Pick(passed, taken, true)|
  {
    hide Pick;
    var orig := Pointers(before + passed + rest) + [None];
    var i, j := |before|, |before + passed|;
    assert orig[..i] == Pointers(before) && orig[i..j] == Pointers(passed) && orig[j..] == Pointers(rest) + [None];
    PickPointers(passed, taken, true);
    PickPointers(passed, taken, false);
    JoinedPointers(before, Pick(passed, taken, true), Pick(passed, taken, false), rest);
  }

  lemma JoinedPointers(a: seq<string>, b: seq<string>, c: seq<string>, d: seq<string>)
    ensures Pointers(a) + Pointers(b) + Pointers(c) + (Pointers(d) + [None]) == Pointers(a + b + c + d) + [None]
  {
  }

  /** What the option string and the environment say about the modes: '+' in front, or
      POSIXLY_CORRECT, for no moving of arguments; '-' in front for reporting each of them. */
  lemma Configured(letters: string, flags: Flags, posixlyCorrect: bool, long: Option<seq<LongOption>>)
    ensures !("+" <= letters) && !("-" <= letters) ==>
      Configure(letters, flags, posixlyCorrect, long) ==
        Config(letters, flags.permute && !posixlyCorrect, flags.allArgs, flags.longOnly, long)
    ensures Configure("+" + letters, flags, posixlyCorrect, long) == Config(letters, false, flags.allArgs, flags.longOnly, long)
    ensures Configure("-" + letters, flags, posixlyCorrect, long) ==
      Config(letters, flags.permute && !posixlyCorrect, flags.allArgs || !posixlyCorrect, flags.longOnly, long)
  {
    assert ("+" + letters)[1..] == letters && ("-" + letters)[1..] == letters;
  }

  /** What getopt_long makes of a vector that was written from parts: the results are, one after the
      other, what the parts say.  If arguments may be moved, the vector ends as the elements of the
      options in their order, then the operands in theirs, and optind is the place of the first
      operand. */
  lemma WrittenIsParsed(s: Scanner, cfg: Config, before: seq<string>, parts: seq<Part>, tail: seq<string>,
                        argv: seq<Arg>, results: seq<(int, Arg)>)
    requires cfg.Valid() && !cfg.longOnly && (forall p :: p in parts ==> Fits(cfg, p)) && Ends(cfg, tail)
    requires
      var args := before + Written(parts) + tail;
      var t := ScanAll(cfg, args, |before|, 0);
      results == Results(t.reports) && s.EndsAs(t, Pointers(args) + [None], |before|, cfg, |args|, argv)
    ensures |results| == |AllSay(cfg, parts)| &&
      forall i :: 0 <= i < |results| ==> results[i] == (AllSay(cfg, parts)[i].ret, AllSay(cfg, parts)[i].optarg)
    ensures cfg.permute && !cfg.allArgs && tail == [] ==>
      && argv == Pointers(before + Written(Options(parts)) + Operands(parts)) + [None]
      && s.optind == |before + Written(Options(parts))|
    ensures cfg.permute && !cfg.allArgs && tail != [] ==>
      && argv == Pointers(before + Written(Options(parts)) + ["--"] + Operands(parts) + tail[1..]) + [None]
      && s.optind == |before + Written(Options(parts)) + ["--"]|
    ensures !cfg.permute && !cfg.allArgs && tail != [] && tail[0] != "--" ==>
      argv == Pointers(before + Written(parts) + tail) + [None] && s.optind == |before + Written(parts)|
  {
    hide Fits, ScanAll, AllSay, AllMarked, Written, Pick, Options, Operands, Partitioned, Pointers, Ordinary;
    RoundTrip(cfg, before, parts, tail);
    var args := before + Written(parts) + tail;
    assert |Pointers(args)| == |args| by { PointersSize(args); }
    if cfg.permute && !cfg.allArgs {
      PickWritten(cfg, parts);
      if tail == [] {
        assert args == before + Written(parts) + [];
        PartitionedPointers(argv, before, Written(parts), [], AllMarked(cfg, parts), s.optind);
        assert before + Written(Options(parts)) + Operands(parts) + [] == before + Written(Options(parts)) + Operands(parts);
      } else {
        var passed, taken := Written(parts) + ["--"], AllMarked(cfg, parts) + [true];
        PickLast(Written(parts), AllMarked(cfg, parts), "--");
        Regroup(before, Written(parts), tail, Written(Options(parts)), Operands(parts));
        PartitionedPointers(argv, before, passed, tail[1..], taken, s.optind);
      }
    }
  }

  lemma PointersSize(args: seq<string>)
    ensures |Pointers(args)| == |args|
  {
  }

  lemma PickLast(s: seq<string>, m: seq<bool>, x: string)
    requires |s| == |m|
    ensures Pick(s + [x], m + [true], true) == Pick(s, m, true) + [x]
    ensures Pick(s + [x], m + [true], false) == Pick(s, m, false)
  {
    assert (s + [x])[..|s|] == s && (m + [true])[..|s|] == m;
  }

  lemma Regroup(before: seq<string>, written: seq<string>, tail: seq<string>, options: seq<string>, operands: seq<string>)
    requires tail != []
    ensures before + written + tail == before + (written + [tail[0]]) + tail[1..]
    ensures before + (options + [tail[0]]) + operands + tail[1..] == before + options + [tail[0]] + operands + tail[1..]
    ensures |before + (options + [tail[0]])| == |before + options + [tail[0]]|
  {
  }
}
