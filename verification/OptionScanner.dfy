/** What getopt_long reports (ecos/ecosap/shell/getopt_long.c), as a pure scan of an argument
    vector from left to right.  The scan has a position and an offset into the element there;
    it never moves an argument.  Getopt.dfy proves that the permuting scanner reports the same. */
module OptionScanner {

  import opened Common

  datatype HasArg = NoArgument | RequiredArgument | OptionalArgument

  /** struct option; flag names the variable to store val in, if any. */
  datatype LongOption = LongOption(name: string, hasArg: HasArg, flag: Option<nat>, val: int)

  /** The option string without its leading '+' or '-', and the modes in force. */
  datatype Config = Config(options: string, permute: bool, allArgs: bool, longOnly: bool, long: Option<seq<LongOption>>)
  {
    /** No long option may be given the value that means "no more options". */
    predicate Valid() {
      long.Some? ==> forall i :: 0 <= i < |long.value| ==> long.value[i].val != -1
    }
    /** What a missing or unwanted argument is reported as. */
    function BadArg(): int {
      if |options| > 0 && options[0] == ':' then ':' as int else '?' as int
    }
  }

  const BADCH := '?' as int
  const INORDER := 1

  /** One result: the value returned and what optarg, optopt, *idx and *flag become
      (None: left as they were, except that optarg None is the null pointer). */
  datatype Report = Report(ret: int, optarg: Option<string>, optopt: Option<int>,
                           index: Option<nat>, store: Option<(nat, int)>)

  function Plain(ret: int, optarg: Option<string>): Report {
    Report(ret, optarg, None, None, None)
  }

  function Problem(ret: int, optopt: int): Report {
    Report(ret, None, Some(optopt), None, None)
  }

  /** The end of one scan. */
  datatype Outcome =
    | Found(report: Report, skipped: nat, pos: nat, off: nat)
    | EndOfArgs(skipped: nat)
    | DashDash(skipped: nat, pos: nat)
    | NonOption(pos: nat)
    | TrailingDash(pos: nat)

  // ---------------------------------------------------------------- strchr

  /** The first index of c in s, or |s|. */
  function Find(s: string, c: char): (i: nat)
    ensures i <= |s| && (i < |s| ==> s[i] == c) && forall k :: 0 <= k < i ==> s[k] != c
  {
    if s == [] || s[0] == c then 0 else 1 + Find(s[1..], c)
  }

  // ---------------------------------------------------------------- long options

  datatype Match = Ambiguous | Match(i: nat) | NoMatch

  predicate Exact(o: LongOption, name: string) {
    o.name == name
  }

  /** An abbreviation; a single letter that is also a short option does not count. */
  predicate Abbreviates(o: LongOption, name: string, shortToo: bool) {
    name <= o.name && |name| < |o.name| && !(shortToo && |name| == 1)
  }

  /** The position of the first exact match, or the length of the table. */
  function FirstExact(long: seq<LongOption>, name: string): (i: nat)
    ensures i <= |long| && (i < |long| ==> Exact(long[i], name))
    ensures forall k :: 0 <= k < i ==> !Exact(long[k], name)
  {
    if long == [] || Exact(long[0], name) then 0 else 1 + FirstExact(long[1..], name)
  }

  /** The positions below n that the name abbreviates, in order. */
  function Abbreviated(long: seq<LongOption>, name: string, shortToo: bool, n: nat): (r: seq<nat>)
    requires n <= |long|
    ensures forall i :: 0 <= i < n ==> (Abbreviates(long[i], name, shortToo) <==> i in r)
    ensures forall k :: 0 <= k < |r| ==> r[k] < n
  {
    if n == 0 then []
    else Abbreviated(long, name, shortToo, n - 1) + if Abbreviates(long[n - 1], name, shortToo) then [n - 1] else []
  }

  /** Two abbreviations ahead of the first exact match are already ambiguous; otherwise the
      exact match wins, and then a lone abbreviation. */
  function Lookup(long: seq<LongOption>, name: string, shortToo: bool): (m: Match)
    ensures m.Match? ==> m.i < |long|
  {
    var e := FirstExact(long, name);
    var a := Abbreviated(long, name, shortToo, e);
    if |a| >= 2 then Ambiguous
    else if e < |long| then Match(e)
    else if |a| == 1 then Match(a[0])
    else NoMatch
  }

  datatype LongOutcome = Long(report: Report, pos: nat) | NotLong

  function ErrorOpt(o: LongOption): int {
    if o.flag.None? then o.val else 0
  }

  /** Option i of the table, found at position pos with or without "=argument". */
  function UseLong(cfg: Config, o: LongOption, i: nat, args: seq<string>, pos: nat, given: Option<string>): (r: LongOutcome)
    requires pos < |args|
    ensures r.Long? && pos < r.pos <= |args|
  {
    var separate := o.hasArg.RequiredArgument? && given.None?;
    if (o.hasArg.NoArgument? && given.Some?) || (separate && pos + 1 == |args|) then
      Long(Problem(cfg.BadArg(), ErrorOpt(o)), pos + 1)
    else
      var optarg := if separate then Some(args[pos + 1]) else given;
      var ret := if o.flag.Some? then 0 else o.val;
      var store := if o.flag.Some? then Some((o.flag.value, o.val)) else None;
      Long(Report(ret, optarg, None, Some(i), store), if separate then pos + 2 else pos + 1)
  }

  /** The text cur is read as a long option; pos is the position of the element it ends in. */
  function ParseLong(cfg: Config, long: seq<LongOption>, args: seq<string>, pos: nat, cur: string, shortToo: bool): (r: LongOutcome)
    requires pos < |args|
    ensures r.Long? ==> pos < r.pos <= |args|
    ensures !shortToo ==> r.Long?
  {
    var eq := Find(cur, '=');
    var given := if eq < |cur| then Some(cur[eq + 1..]) else None;
    match Lookup(long, cur[..eq], shortToo)
    case Ambiguous => Long(Problem(BADCH, 0), pos + 1)
    case NoMatch => if shortToo then NotLong else Long(Problem(BADCH, 0), pos + 1)
    case Match(i) => UseLong(cfg, long[i], i, args, pos, given)
  }

  // ---------------------------------------------------------------- one element

  /** The scan after a letter at offset off: in the same element, or at the next one. */
  function After(r: Report, args: seq<string>, pos: nat, off: nat): Outcome
    requires pos < |args|
  {
    if off + 1 == |args[pos]| then Found(r, 0, pos + 1, 0) else Found(r, 0, pos, off + 1)
  }

  /** "-W name": a long option in the rest of the element or in the next one. */
  function DashW(cfg: Config, long: seq<LongOption>, args: seq<string>, pos: nat, off: nat): (r: Outcome)
    requires pos < |args| && off < |args[pos]|
    ensures r.Found?
  {
    if off + 1 < |args[pos]| then
      var l := ParseLong(cfg, long, args, pos, args[pos][off + 1..], false);
      Found(l.report, 0, l.pos, 0)
    else if pos + 1 < |args| then
      var l := ParseLong(cfg, long, args, pos + 1, args[pos + 1], false);
      Found(l.report, 0, l.pos, 0)
    else
      Found(Problem(cfg.BadArg(), args[pos][off] as int), 0, pos + 1, 0)
  }

  /** A letter of the option string; next is what follows it there. */
  function UseShort(cfg: Config, args: seq<string>, pos: nat, off: nat, next: string): (r: Outcome)
    requires pos < |args| && off < |args[pos]|
    ensures r.Found?
  {
    var c := args[pos][off] as int;
    if next == [] || next[0] != ':' then After(Plain(c, None), args, pos, off)
    else if off + 1 < |args[pos]| then Found(Plain(c, Some(args[pos][off + 1..])), 0, pos + 1, 0)
    else if |next| < 2 || next[1] != ':' then
      if pos + 1 == |args| then Found(Problem(cfg.BadArg(), c), 0, pos + 1, 0)
      else Found(Plain(c, Some(args[pos + 1])), 0, pos + 2, 0)
    else if !cfg.permute && pos + 1 < |args| && (args[pos + 1] == [] || args[pos + 1][0] != '-') then
      Found(Plain(c, Some(args[pos + 1])), 0, pos + 2, 0)
    else Found(Plain(c, None), 0, pos + 1, 0)
  }

  function ParseShort(cfg: Config, args: seq<string>, pos: nat, off: nat): (r: Outcome)
    requires pos < |args| && off < |args[pos]|
    ensures r.Found? || r.TrailingDash?
  {
    var c := args[pos][off];
    var last := off + 1 == |args[pos]|;
    var o := Find(cfg.options, c);
    if c == ':' || (c == '-' && !last) || o == |cfg.options| then
      if c == '-' && last then TrailingDash(pos)
      else After(Problem(BADCH, c as int), args, pos, off)
    else
      var next := cfg.options[o + 1..];
      if cfg.long.Some? && c == 'W' && next != [] && next[0] == ';' then DashW(cfg, cfg.long.value, args, pos, off)
      else UseShort(cfg, args, pos, off, next)
  }

  function ParseElement(cfg: Config, args: seq<string>, pos: nat, off: nat): (r: Outcome)
    requires pos < |args| && off < |args[pos]|
    ensures r.Found? || r.TrailingDash?
  {
    var c := args[pos][off];
    if cfg.long.Some? && off != 0 && (c == '-' || cfg.longOnly) then
      var shortToo := c != '-' && c != ':' && Find(cfg.options, c) < |cfg.options|;
      var cur := if c == '-' then args[pos][off + 1..] else args[pos][off..];
      match ParseLong(cfg, cfg.long.value, args, pos, cur, shortToo)
      case Long(report, pos') => Found(report, 0, pos', 0)
      case NotLong => ParseShort(cfg, args, pos, off)
    else ParseShort(cfg, args, pos, off)
  }

  predicate IsNonOption(cfg: Config, arg: string) {
    arg == [] || arg[0] != '-' || (|arg| == 1 && Find(cfg.options, '-') == |cfg.options|)
  }

  // ---------------------------------------------------------------- one call

  /** The same outcome after n more skipped arguments. */
  function Skip(r: Outcome, n: nat): Outcome {
    match r
    case Found(report, k, pos, off) => Found(report, k + n, pos, off)
    case EndOfArgs(k) => EndOfArgs(k + n)
    case DashDash(k, pos) => DashDash(k + n, pos)
    case _ => r
  }

  /** The next result from position pos; off > 0 continues inside the element there. */
  function Scan(cfg: Config, args: seq<string>, pos: nat, off: nat): Outcome
    requires off > 0 ==> pos < |args| && off < |args[pos]|
    decreases |args| - pos
  {
    if off > 0 then ParseElement(cfg, args, pos, off)
    else if pos >= |args| then EndOfArgs(0)
    else if IsNonOption(cfg, args[pos]) then
      if cfg.allArgs then Found(Plain(INORDER, Some(args[pos])), 0, pos + 1, 0)
      else if !cfg.permute then NonOption(pos)
      else Skip(Scan(cfg, args, pos + 1, 0), 1)
    else if args[pos] == "--" then DashDash(0, pos + 1)
    else ParseElement(cfg, args, pos, if |args[pos]| == 1 then 0 else 1)
  }

  lemma ScanCases(cfg: Config, args: seq<string>, pos: nat)
    ensures pos >= |args| ==> Scan(cfg, args, pos, 0) == EndOfArgs(0)
    ensures pos < |args| && IsNonOption(cfg, args[pos]) ==>
      Scan(cfg, args, pos, 0) ==
        if cfg.allArgs then Found(Plain(INORDER, Some(args[pos])), 0, pos + 1, 0)
        else if !cfg.permute then NonOption(pos)
        else Skip(Scan(cfg, args, pos + 1, 0), 1)
    ensures pos < |args| && !IsNonOption(cfg, args[pos]) ==>
      Scan(cfg, args, pos, 0) ==
        if args[pos] == "--" then DashDash(0, pos + 1)
        else ParseElement(cfg, args, pos, if |args[pos]| == 1 then 0 else 1)
  {
  }

  /** The measure every reported option decreases: elements left, then characters left. */
  function CharsLeft(args: seq<string>, pos: nat, off: nat): nat
  {
    if pos < |args| && off < |args[pos]| then |args[pos]| - off else 0
  }

  ghost predicate Decreases(args: seq<string>, pos: nat, off: nat, pos': nat, off': nat) {
    pos < pos' <= |args| || (pos == pos' && pos < |args| && off < off' < |args[pos]|)
  }

  lemma ParseLongReports(cfg: Config, args: seq<string>, pos: nat, cur: string, shortToo: bool)
    requires cfg.Valid() && cfg.long.Some? && pos < |args|
    ensures var r := ParseLong(cfg, cfg.long.value, args, pos, cur, shortToo);
      r.Long? ==> r.report.ret != -1
  {
  }

  lemma ParseShortAdvances(cfg: Config, args: seq<string>, pos: nat, off: nat)
    requires cfg.Valid() && pos < |args| && off < |args[pos]|
    ensures match ParseShort(cfg, args, pos, off)
      case Found(r, k, pos', off') =>
        k == 0 && r.ret != -1 && (off' > 0 ==> pos' == pos) && Decreases(args, pos, off, pos', off')
      case TrailingDash(pos') =>
        pos' == pos && off + 1 == |args[pos]| && args[pos][off] == '-' && Find(cfg.options, '-') == |cfg.options|
      case _ => false
  {
    var c := args[pos][off];
    var o := Find(cfg.options, c);
    if cfg.long.Some? && c == 'W' && o + 1 < |cfg.options| && cfg.options[o + 1] == ';' {
      if off + 1 < |args[pos]| {
        ParseLongReports(cfg, args, pos, args[pos][off + 1..], false);
      } else if pos + 1 < |args| {
        ParseLongReports(cfg, args, pos + 1, args[pos + 1], false);
      }
    }
  }

  lemma ParseElementAdvances(cfg: Config, args: seq<string>, pos: nat, off: nat)
    requires cfg.Valid() && pos < |args| && off < |args[pos]|
    requires off == 0 ==> !IsNonOption(cfg, args[pos]) && |args[pos]| == 1
    ensures match ParseElement(cfg, args, pos, off)
      case Found(r, k, pos', off') =>
        k == 0 && r.ret != -1 && (off' > 0 ==> pos' == pos) && Decreases(args, pos, off, pos', off')
      case TrailingDash(pos') =>
        pos' == pos && off > 0 && off + 1 == |args[pos]| && cfg.long.None? && args[pos][off] == '-'
      case _ => false
  {
    var c := args[pos][off];
    ParseShortAdvances(cfg, args, pos, off);
    if cfg.long.Some? {
      ParseLongReports(cfg, args, pos, args[pos][off + 1..], false);
      ParseLongReports(cfg, args, pos, args[pos][off..], c != '-' && c != ':' && Find(cfg.options, c) < |cfg.options|);
    }
  }

  /** Every result other than "no more options" consumes something, and nothing but
      non-options is skipped on the way. */
  lemma {:induction false} ScanAdvances(cfg: Config, args: seq<string>, pos: nat, off: nat)
    requires cfg.Valid()
    requires off > 0 ==> pos < |args| && off < |args[pos]|
    ensures match Scan(cfg, args, pos, off)
      case Found(r, k, pos', off') =>
        && r.ret != -1 && pos + k < |args| && Decreases(args, pos + k, if k == 0 then off else 0, pos', off')
        && (off' > 0 ==> pos' == pos + k)
        && (k > 0 ==> off == 0 && !IsNonOption(cfg, args[pos + k]))
        && forall i :: pos <= i < pos + k ==> IsNonOption(cfg, args[i])
      case EndOfArgs(k) =>
        off == 0 && (if pos <= |args| then pos + k == |args| else k == 0) &&
        forall i :: pos <= i < pos + k ==> IsNonOption(cfg, args[i])
      case DashDash(k, pos') =>
        && off == 0 && pos' == pos + k + 1 <= |args| && args[pos + k] == "--"
        && forall i :: pos <= i < pos + k ==> IsNonOption(cfg, args[i])
      case NonOption(pos') => pos' == pos < |args| && off == 0 && !cfg.permute && IsNonOption(cfg, args[pos])
      case TrailingDash(pos') => pos' == pos && off > 0 && cfg.long.None?
    decreases |args| - pos
  {
    if off > 0 {
      ParseElementAdvances(cfg, args, pos, off);
    } else if pos < |args| {
      if IsNonOption(cfg, args[pos]) {
        if !cfg.allArgs && cfg.permute {
          ScanAdvances(cfg, args, pos + 1, 0);
        }
      } else if args[pos] != "--" {
        ParseElementAdvances(cfg, args, pos, if |args[pos]| == 1 then 0 else 1);
      }
    }
  }

  // ---------------------------------------------------------------- a whole run

  datatype Exit = AtEnd | AtDashDash | AtNonOption | AtTrailingDash

  /** A whole run: what was reported, for every position passed whether it was consumed
      (true) or skipped (false), how the run ended and where. */
  datatype Trace = Trace(reports: seq<Report>, taken: seq<bool>, exit: Exit, pos: nat)

  function Repeat(n: nat, b: bool): (r: seq<bool>) {
    seq(n, _ => b)
  }

  /** The positions from pos to end, k of them skipped and the rest consumed. */
  function Marks(pos: nat, k: nat, end: nat): (r: seq<bool>) {
    Repeat(k, false) + if pos + k <= end then Repeat(end - pos - k, true) else []
  }

  function MarksOf(o: Outcome, pos: nat): seq<bool> {
    match o
    case Found(_, k, end, _) => Marks(pos, k, end)
    case EndOfArgs(k) => Marks(pos, k, pos + k)
    case DashDash(k, end) => Marks(pos, k, end)
    case _ => []
  }

  function Prepend(reports: seq<Report>, taken: seq<bool>, t: Trace): Trace {
    t.(reports := reports + t.reports, taken := taken + t.taken)
  }

  function ScanAll(cfg: Config, args: seq<string>, pos: nat, off: nat): (t: Trace)
    requires cfg.Valid()
    requires off > 0 ==> pos < |args| && off < |args[pos]|
    decreases if pos <= |args| then |args| - pos else 0, if off > 0 then 0 else 1, CharsLeft(args, pos, off)
  {
    hide ParseElement;
    ScanAdvances(cfg, args, pos, off);
    match Scan(cfg, args, pos, off)
    case Found(r, k, pos', off') =>
      Prepend([r], Marks(pos, k, pos'), ScanAll(cfg, args, pos', off'))
    case EndOfArgs(k) => Trace([], Marks(pos, k, pos + k), AtEnd, pos + k)
    case DashDash(k, pos') => Trace([], Marks(pos, k, pos'), AtDashDash, pos')
    case NonOption(_) => Trace([], [], AtNonOption, pos)
    case TrailingDash(_) => Trace([], [], AtTrailingDash, pos)
  }

  /** Every position passed has been classified, and only non-options were skipped. */
  ghost predicate Classified(cfg: Config, args: seq<string>, pos: nat, taken: seq<bool>, end: nat)
  {
    && end == pos + |taken|
    && (pos <= |args| ==> end <= |args|)
    && (forall i :: 0 <= i < |taken| && !taken[i] ==> pos + i < |args| && IsNonOption(cfg, args[pos + i]))
    && (!cfg.permute || cfg.allArgs ==> forall i :: 0 <= i < |taken| ==> taken[i])
  }

  lemma ClassifiedJoin(cfg: Config, args: seq<string>, pos: nat, a: seq<bool>, mid: nat, b: seq<bool>, end: nat)
    requires Classified(cfg, args, pos, a, mid) && Classified(cfg, args, mid, b, end)
    ensures Classified(cfg, args, pos, a + b, end)
  {
    forall i | 0 <= i < |a + b| && !(a + b)[i]
      ensures pos + i < |args| && IsNonOption(cfg, args[pos + i])
    {
      if i >= |a| {
        assert !b[i - |a|];
        assert pos + i == mid + (i - |a|);
      }
    }
  }

  lemma ClassifiedSkips(cfg: Config, args: seq<string>, pos: nat, k: nat, n: nat)
    requires k > 0 ==> cfg.permute && !cfg.allArgs
    requires pos <= |args| ==> pos + k + n <= |args|
    requires k > 0 ==> pos + k <= |args| && forall i :: pos <= i < pos + k ==> IsNonOption(cfg, args[i])
    ensures Classified(cfg, args, pos, Marks(pos, k, pos + k + n), pos + k + n)
  {
    var m := Marks(pos, k, pos + k + n);
    forall i | 0 <= i < |m| && !m[i]
      ensures pos + i < |args| && IsNonOption(cfg, args[pos + i])
    {
      assert i < k;
    }
  }

  /** What a run passes over it classifies, everything it skips is a non-option, and it stops
      at the end, just behind "--", or (when not permuting) at the first non-option. */
  lemma {:induction false} ScanAllClassifies(cfg: Config, args: seq<string>, pos: nat, off: nat)
    requires cfg.Valid()
    requires off > 0 ==> pos < |args| && off < |args[pos]|
    ensures var t := ScanAll(cfg, args, pos, off);
      && Classified(cfg, args, pos, t.taken, t.pos)
      && (t.exit.AtEnd? ==> t.pos >= |args|)
      && (t.exit.AtDashDash? ==> pos < t.pos <= |args| && args[t.pos - 1] == "--")
      && (t.exit.AtNonOption? ==> !cfg.permute && t.pos < |args| && IsNonOption(cfg, args[t.pos]))
      && (t.exit.AtTrailingDash? ==> cfg.long.None?)
    decreases if pos <= |args| then |args| - pos else 0, if off > 0 then 0 else 1, CharsLeft(args, pos, off)
  {
    hide Scan, ParseElement, Classified, IsNonOption, Marks;
    ScanAdvances(cfg, args, pos, off);
    NothingSkipped(cfg, args, pos, off);
    match Scan(cfg, args, pos, off)
    case Found(r, k, pos', off') =>
      ScanAllClassifies(cfg, args, pos', off');
      ClassifiedSkips(cfg, args, pos, k, pos' - pos - k);
      ClassifiedJoin(cfg, args, pos, Marks(pos, k, pos'), pos',
                     ScanAll(cfg, args, pos', off').taken, ScanAll(cfg, args, pos', off').pos);
    case EndOfArgs(k) =>
      ClassifiedSkips(cfg, args, pos, k, 0);
    case DashDash(k, pos') =>
      ClassifiedSkips(cfg, args, pos, k, 1);
    case _ =>
      ClassifiedSkips(cfg, args, pos, 0, 0);
      NoMarks(pos);
  }

  lemma NoMarks(pos: nat)
    ensures Marks(pos, 0, pos) == []
  {
  }

  lemma ScanInside(cfg: Config, args: seq<string>, pos: nat, off: nat)
    requires cfg.Valid() && (off > 0 ==> pos < |args| && off < |args[pos]|)
    ensures off > 0 ==> Scan(cfg, args, pos, off) == ParseElement(cfg, args, pos, off)
    ensures off == 0 ==> !Scan(cfg, args, pos, off).TrailingDash?
  {
    ScanAdvances(cfg, args, pos, off);
  }

  lemma NothingSkipped(cfg: Config, args: seq<string>, pos: nat, off: nat)
    requires off > 0 ==> pos < |args| && off < |args[pos]|
    requires cfg.Valid()
    ensures !cfg.permute || cfg.allArgs ==>
      match Scan(cfg, args, pos, off) case Found(_, k, _, _) => k == 0 case EndOfArgs(k) => k == 0 case DashDash(k, _) => k == 0 case _ => true
  {
    if off > 0 {
      ParseElementAdvances(cfg, args, pos, off);
    } else if pos < |args| && !IsNonOption(cfg, args[pos]) && args[pos] != "--" {
      ParseElementAdvances(cfg, args, pos, if |args[pos]| == 1 then 0 else 1);
    }
  }

  /** An exact match may come too late: two abbreviations ahead of it are reported first. */
  lemma AmbiguousDespiteExactMatch()
    ensures var v := LongOption("verbose", NoArgument, None, 1);
            var w := LongOption("version", NoArgument, None, 2);
            var x := LongOption("ver", NoArgument, None, 3);
            Lookup([v, w, x], "ver", false) == Ambiguous && Lookup([v, x, w], "ver", false) == Match(1)
  {
    var v := LongOption("verbose", NoArgument, None, 1);
    var w := LongOption("version", NoArgument, None, 2);
    var x := LongOption("ver", NoArgument, None, 3);
    assert "ver" <= "verbose" && "ver" <= "version";
    assert [v, w, x][1..] == [w, x] && [v, w, x][1..][1..] == [x] && [v, x, w][1..] == [x, w];
    assert FirstExact([v, w, x], "ver") == 2 && FirstExact([v, x, w], "ver") == 1;
    assert Abbreviated([v, w, x], "ver", false, 1) == [0];
    assert Abbreviated([v, w, x], "ver", false, 2) == [0, 1];
  }

  /** A name listed in the table is found as itself exactly when fewer than two of the entries
      ahead of it are longer names it abbreviates. */
  lemma ExactMatchFound(long: seq<LongOption>, name: string, shortToo: bool, e: nat)
    requires e < |long| && Exact(long[e], name) && forall k :: 0 <= k < e ==> !Exact(long[k], name)
    ensures Lookup(long, name, shortToo) == Match(e) <==>
      forall i, j :: 0 <= i < j < e ==> !(Abbreviates(long[i], name, shortToo) && Abbreviates(long[j], name, shortToo))
  {
    assert FirstExact(long, name) == e;
    AbbreviatedIncreasing(long, name, shortToo, e);
    var a := Abbreviated(long, name, shortToo, e);
    if |a| >= 2 {
      assert a[0] in a && a[1] in a;
      assert a[0] < a[1] && Abbreviates(long[a[0]], name, shortToo) && Abbreviates(long[a[1]], name, shortToo);
    } else {
      forall i, j | 0 <= i < j < e
        ensures !(Abbreviates(long[i], name, shortToo) && Abbreviates(long[j], name, shortToo))
      {
        assert !(i in a && j in a);
      }
    }
  }

  ghost predicate Increasing(s: seq<nat>) {
    forall i, j :: 0 <= i < j < |s| ==> s[i] < s[j]
  }

  lemma {:induction false} AbbreviatedIncreasing(long: seq<LongOption>, name: string, shortToo: bool, n: nat)
    requires n <= |long|
    ensures Increasing(Abbreviated(long, name, shortToo, n))
  {
    if n > 0 {
      AbbreviatedIncreasing(long, name, shortToo, n - 1);
      assert Increasing(Abbreviated(long, name, shortToo, n - 1) + [n - 1]);
    }
  }

  /** The one way a run can stop inside an element: a '-' at its end that is not an option
      letter, and only without long options.  The non-options skipped so far are then not moved
      behind the options. */
  lemma TrailingDashExactly(cfg: Config, args: seq<string>, pos: nat, off: nat)
    requires cfg.Valid() && pos < |args| && 0 < off < |args[pos]|
    ensures Scan(cfg, args, pos, off).TrailingDash? <==>
      cfg.long.None? && off + 1 == |args[pos]| && args[pos][off] == '-' && Find(cfg.options, '-') == |cfg.options|
  {
    ScanInside(cfg, args, pos, off);
    ParseElementAdvances(cfg, args, pos, off);
    ParseShortAdvances(cfg, args, pos, off);
  }

  /** What a scan is in the middle of is an option element other than "--". */
  ghost predicate InElement(args: seq<string>, pos: nat, off: nat) {
    off > 0 ==> pos < |args| && off < |args[pos]| && args[pos][0] == '-' && args[pos] != "--"
  }

  lemma {:induction false} ScanStaysInElements(cfg: Config, args: seq<string>, pos: nat, off: nat)
    requires cfg.Valid() && InElement(args, pos, off)
    ensures var o := Scan(cfg, args, pos, off); o.Found? ==> InElement(args, o.pos, o.off)
    decreases |args| - pos
  {
    ScanAdvances(cfg, args, pos, off);
    if off > 0 {
      ScanInside(cfg, args, pos, off);
    } else if pos < |args| {
      ScanCases(cfg, args, pos);
      if IsNonOption(cfg, args[pos]) {
        if !cfg.allArgs && cfg.permute {
          ScanStaysInElements(cfg, args, pos + 1, 0);
        }
      } else if args[pos] != "--" {
        ParseElementAdvances(cfg, args, pos, if |args[pos]| == 1 then 0 else 1);
      }
    }
  }

  /** Elements like "-a-", with a '-' that is no option letter, can stop a run. */
  predicate StopsRun(cfg: Config, arg: string) {
    cfg.long.None? && '-' !in cfg.options && |arg| >= 3 && arg[0] == '-' && arg[|arg| - 1] == '-'
  }

  /** Nothing but such an element stops a run inside an element, and the run stops there. */
  lemma {:induction false} StoppedAt(cfg: Config, args: seq<string>, pos: nat, off: nat)
    requires cfg.Valid() && InElement(args, pos, off)
    ensures var t := ScanAll(cfg, args, pos, off);
      t.exit.AtTrailingDash? ==> pos <= t.pos < |args| && StopsRun(cfg, args[t.pos])
    decreases if pos <= |args| then |args| - pos else 0, if off > 0 then 0 else 1, CharsLeft(args, pos, off)
  {
    hide Scan, ParseElement;
    ScanAdvances(cfg, args, pos, off);
    ScanStaysInElements(cfg, args, pos, off);
    if off > 0 {
      TrailingDashExactly(cfg, args, pos, off);
    }
    var o := Scan(cfg, args, pos, off);
    if o.Found? {
      StoppedAt(cfg, args, o.pos, o.off);
    }
  }

  /** Without such an element ahead, in particular with long options, a permuting run ends at
      the end of the vector or behind "--". */
  lemma PermutingRunEnds(cfg: Config, args: seq<string>, pos: nat)
    requires cfg.Valid() && cfg.permute
    requires forall k :: pos <= k < |args| ==> !StopsRun(cfg, args[k])
    ensures ScanAll(cfg, args, pos, 0).exit.AtEnd? || ScanAll(cfg, args, pos, 0).exit.AtDashDash?
  {
    hide ScanAll, StopsRun;
    StoppedAt(cfg, args, pos, 0);
    ScanAllClassifies(cfg, args, pos, 0);
  }

  lemma TrailingDashScans()
    ensures var cfg := Config("a", true, false, false, None);
      && Scan(cfg, ["x", "-a-"], 0, 0) == Found(Plain('a' as int, None), 1, 1, 2)
      && Scan(cfg, ["x", "-a-"], 1, 2) == TrailingDash(1)
  {
    var cfg, args := Config("a", true, false, false, None), ["x", "-a-"];
    assert Find("a", '-') == 1 && Find("a", 'a') == 0;
    assert !IsNonOption(cfg, args[1]) && IsNonOption(cfg, args[0]) && args[1] != "--";
    assert ParseElement(cfg, args, 1, 1) == Found(Plain('a' as int, None), 0, 1, 2);
    assert ParseElement(cfg, args, 1, 2) == TrailingDash(1);
    hide ParseElement, IsNonOption, Find;
    assert Scan(cfg, args, 1, 0) == Found(Plain('a' as int, None), 0, 1, 2);
  }

  /** A run that stops so: "x" has been skipped and stays ahead of the option. */
  lemma TrailingDashExample()
    ensures var cfg := Config("a", true, false, false, None);
      ScanAll(cfg, ["x", "-a-"], 0, 0).exit == AtTrailingDash && ScanAll(cfg, ["x", "-a-"], 0, 0).pos == 1
  {
    hide Scan, ParseElement, Marks;
    var cfg, args := Config("a", true, false, false, None), ["x", "-a-"];
    TrailingDashScans();
    assert ScanAll(cfg, args, 1, 2) == Trace([], [], AtTrailingDash, 1);
  }
}
