/** getopt_long with its static scan state and in-place permutation
    (ecos/ecosap/shell/getopt_long.c). */
module Getopt {
  import opened Common
  import opened OptionScanner
  import opened ArgvLayout
  import PermuteArgs

  type Arg = Option<string>

  datatype Flags = Flags(permute: bool, allArgs: bool, longOnly: bool)

  /** A char pointer: a string and an offset into it; reading at the end gives the terminator. */
  datatype Pointer = Pointer(text: string, off: nat)
  {
    predicate AtEnd() { off >= |text| }
    function Rest(): string {
      if AtEnd() then "" else text[off..]
    }
  }

  const EMSG := Pointer("", 0)

  /** A vector of argc arguments closed by a null pointer. */
  predicate IsArgv(nargc: nat, argv: seq<Arg>) {
    nargc < |argv| && argv[nargc].None? && forall i :: 0 <= i < nargc ==> argv[i].Some?
  }

  /** The arguments from a position on, as the scan sees them. */
  function Args(nargc: nat, argv: seq<Arg>): (r: seq<string>)
    requires IsArgv(nargc, argv)
    ensures |r| == nargc && forall i :: 0 <= i < nargc ==> r[i] == argv[i].value
  {
    seq(nargc, i requires 0 <= i < nargc => argv[i].value)
  }

  /** argv holds args from position pos on, and the closing null pointer. */
  ghost predicate TailOf(argv: seq<Arg>, nargc: nat, args: seq<string>, pos: nat) {
    && |args| == nargc < |argv| && argv[nargc].None?
    && forall i :: pos <= i < nargc ==> argv[i] == Some(args[i])
  }

  /** The modes in force, from the option string and the environment. */
  function Configure(options: string, flags: Flags, posixlyCorrect: bool, long: Option<seq<LongOption>>): Config
  {
    var plus := options != [] && options[0] == '+';
    var minus := options != [] && options[0] == '-';
    Config(if plus || minus then options[1..] else options,
           flags.permute && !posixlyCorrect && !plus,
           flags.allArgs || (minus && !posixlyCorrect),
           flags.longOnly, long)
  }

  function Results(reports: seq<Report>): (r: seq<(int, Arg)>)
  {
    seq(|reports|, i requires 0 <= i < |reports| => (reports[i].ret, reports[i].optarg))
  }

  /** Where a run stands: the vector it began with, its first position, and for each position
      passed since whether the element was consumed or skipped. */
  datatype Run = Run(orig: seq<Arg>, first: nat, taken: seq<bool>)

  class Scanner {
    var optind: nat
    var optarg: Arg
    var optopt: int
    var optreset: bool
    var place: Pointer
    var nonoptStart: int
    var nonoptEnd: int
    /** *idx, and the variables long options store into. */
    var index: int
    var flagVars: map<nat, int>
    const posixlyCorrect: bool

    constructor (posixlyCorrect: bool)
      ensures optind == 0 && this.posixlyCorrect == posixlyCorrect
    {
      this.posixlyCorrect := posixlyCorrect;
      optind, optarg, optopt, optreset := 0, None, 0, false;
      place, nonoptStart, nonoptEnd := EMSG, -1, -1;
      index, flagVars := 0, map[];
    }

    // -------------------------------------------------------------- state

    /** The position and offset the next call starts from; optind 0 or optreset restart the scan. */
    ghost function Pos(): nat reads this { if optind == 0 then 1 else optind }

    ghost predicate Resets() reads this { optreset || optind == 0 }

    ghost function Off(): nat
      reads this
    {
      if Resets() || place.AtEnd() then 0 else place.off
    }

    /** The state between two calls of the same run. */
    ghost predicate InRun(run: Run, cfg: Config, nargc: nat, argv: seq<Arg>)
      reads this
    {
      && |argv| == |run.orig| && IsArgv(nargc, run.orig)
      && ScanState(run, cfg, nargc, argv, Pos(), Off(),
                   if Resets() then -1 else nonoptStart, if Resets() then -1 else nonoptEnd)
      && (Resets() || place.AtEnd() || (place.off > 0 && run.orig[Pos()] == Some(place.text)))
    }

    /** The state after a run that reached the end or "--": argv is partitioned, optind is the
        first entry behind the consumed ones, and the next call begins a new run. */
    ghost predicate Finished(run: Run, nargc: nat, argv: seq<Arg>, pos: nat)
      reads this
    {
      && |argv| == |run.orig| && place.AtEnd() && nonoptStart == -1 && nonoptEnd == -1 && !optreset
      && if pos <= nargc then Partitioned(argv, run.orig, run.first, run.taken, pos, optind)
         else argv == run.orig && optind == pos
    }

    /** What one call leaves, for the outcome o of the pure scan; now is the run extended by
        what o passes over. */
    ghost predicate Leaves(o: Outcome, now: Run, cfg: Config, nargc: nat, argv: seq<Arg>, ret: int,
                            pos0: nat, optopt0: int, index0: int, flagVars0: map<nat, int>)
      reads this
    {
      match o
      case Found(r, _, pos, off) =>
        ret == r.ret && Reported(r, optopt0, index0, flagVars0) &&
        InRun(now, cfg, nargc, argv) && !Resets() && Pos() == pos && Off() == off
      case EndOfArgs(k) =>
        ret == -1 && Reported(Plain(-1, None), optopt0, index0, flagVars0) && Finished(now, nargc, argv, pos0 + k)
      case DashDash(_, pos) =>
        ret == -1 && Reported(Plain(-1, None), optopt0, index0, flagVars0) && Finished(now, nargc, argv, pos)
      case _ =>
        ret == -1 && Reported(Plain(-1, None), optopt0, index0, flagVars0) &&
        InRun(now, cfg, nargc, argv) && !Resets() && Pos() == pos0 && Off() == 0
    }

    // -------------------------------------------------------------- parse_long_options

    method FindLongOption(long: seq<LongOption>, name: string, shortToo: bool) returns (m: Match)
      ensures m == Lookup(long, name, shortToo)
    {
      hide *;
      ghost var e := FirstExact(long, name);
      ghost var a: seq<nat> := Abbreviated(long, name, shortToo, 0);
      LookupCases(long, name, shortToo);
      var match_ := -1;
      var i := 0;
      while i < |long|
        invariant 0 <= i <= e
        invariant a == Abbreviated(long, name, shortToo, i) && |a| <= 1
        invariant match_ == if a == [] then -1 else a[0]
      {
        AbbreviatedStep(long, name, shortToo, i);
        a := Abbreviated(long, name, shortToo, i + 1);
        if name <= long[i].name {
          if |long[i].name| == |name| {
            return Match(i);
          }
          if !(shortToo && |name| == 1) {
            if match_ == -1 {
              match_ := i;
            } else {
              AbbreviatedPrefix(long, name, shortToo, i + 1, e);
              return Ambiguous;
            }
          }
        }
        i := i + 1;
      }
      return if match_ == -1 then NoMatch else Match(match_);
    }

    /** parse_long_options once an option has been found; optind is already past the element. */
    method TakeLongOption(nargc: nat, nargv: array<Arg>, ghost args: seq<string>, cfg: Config, o: LongOption, i: nat,
                          hasEqual: Arg) returns (ret: int)
      requires o.val != -1
      requires |args| == nargc
      requires TailOf(nargv[..], nargc, args, optind) && 0 < optind <= nargc && optarg == None
      modifies this`optind, this`optarg, this`optopt, this`index, this`flagVars
      ensures var g := UseLong(cfg, o, i, args, old(optind) - 1, hasEqual);
        ret == g.report.ret && optind == g.pos && Reported(g.report, old(optopt), old(index), old(flagVars))
    {
      if o.hasArg.NoArgument? && hasEqual.Some? {
        optopt := ErrorOpt(o);
        return cfg.BadArg();
      }
      if !o.hasArg.NoArgument? {
        if hasEqual.Some? {
          optarg := hasEqual;
        } else if o.hasArg.RequiredArgument? {
          optarg := nargv[optind];
          optind := optind + 1;
        }
      }
      if o.hasArg.RequiredArgument? && optarg == None {
        optopt := ErrorOpt(o);
        optind := optind - 1;
        return cfg.BadArg();
      }
      index := i;
      if o.flag.Some? {
        flagVars := flagVars[o.flag.value := o.val];
        return 0;
      }
      return o.val;
    }

    /** parse_long_options; ret is -1 exactly when the text may be short options instead. */
    method ParseLongOptions(nargc: nat, nargv: array<Arg>, ghost args: seq<string>, cfg: Config, shortToo: bool) returns (ret: int)
      requires cfg.Valid() && cfg.long.Some?
      requires TailOf(nargv[..], nargc, args, optind) && optind < nargc && optarg == None
      modifies this`optind, this`optarg, this`optopt, this`index, this`flagVars
      ensures match ParseLong(cfg, cfg.long.value, args, old(optind), place.Rest(), shortToo)
        case Long(r, pos) =>
          ret == r.ret != -1 && optind == pos && Reported(r, old(optopt), old(index), old(flagVars))
        case NotLong =>
          ret == -1 && optind == old(optind) && Reported(Plain(-1, None), old(optopt), old(index), old(flagVars))
    {
      hide Lookup, Find, FirstExact, Abbreviated, UseLong, Reported;
      ParseLongReports(cfg, args, optind, place.Rest(), shortToo);
      var current := place.Rest();
      optind := optind + 1;
      var eq := Find(current, '=');
      var hasEqual := if eq < |current| then Some(current[eq + 1..]) else None;
      var m := FindLongOption(cfg.long.value, current[..eq], shortToo);
      if m.Match? {
        ret := TakeLongOption(nargc, nargv, args, cfg, cfg.long.value[m.i], m.i, hasEqual);
      } else if m.NoMatch? && shortToo {
        optind := optind - 1;
        ret := -1;
        NothingReported();
      } else {
        optopt := 0;
        ret := BADCH;
        ProblemReported(old(optopt));
      }
    }

    lemma NothingReported()
      requires optarg == None
      ensures Reported(Plain(-1, None), optopt, index, flagVars)
    {
    }

    lemma ProblemReported(optopt0: int)
      requires optarg == None && optopt == 0
      ensures Reported(Problem(BADCH, 0), optopt0, index, flagVars)
    {
    }

    /** What a finished element leaves behind. */
    ghost predicate Settled(o: Outcome, args: seq<string>, ret: int, optopt0: int, index0: int, flagVars0: map<nat, int>, optind0: nat)
      reads this
    {
      match o
      case Found(r, _, pos, off) =>
        && ret == r.ret && optind == pos && Reported(r, optopt0, index0, flagVars0)
        && (if off > 0 then pos < |args| && place == Pointer(args[pos], off) else place.AtEnd())
      case TrailingDash(_) =>
        ret == -1 && optind == optind0 && place.AtEnd() && Reported(Plain(-1, None), optopt0, index0, flagVars0)
      case _ => false
    }

    /** "-W name", with place behind the W. */
    method TakeDashW(nargc: nat, nargv: array<Arg>, ghost args: seq<string>, cfg: Config) returns (ret: int)
      requires cfg.Valid() && cfg.long.Some? && TailOf(nargv[..], nargc, args, optind) && optind < nargc && optarg == None
      requires 0 < place.off <= |place.text| && nargv[optind] == Some(place.text)
      modifies this`optind, this`optarg, this`optopt, this`index, this`flagVars, this`place
      ensures Settled(DashW(cfg, cfg.long.value, args, old(optind), old(place.off) - 1), args, ret,
                old(optopt), old(index), old(flagVars), old(optind))
    {
      hide ParseLong;
      var optchar := place.text[place.off - 1];
      if place.AtEnd() {
        optind := optind + 1;
        if optind >= nargc {
          place := EMSG;
          optopt := optchar as int;
          return cfg.BadArg();
        }
        place := Pointer(nargv[optind].value, 0);
      }
      assert place.Rest() == place.text[place.off..];
      ret := ParseLongOptions(nargc, nargv, args, cfg, false);
      place := EMSG;
    }

    /** A letter of the option string, with place behind it and oli at what follows it there. */
    method TakeShortOption(nargc: nat, nargv: array<Arg>, ghost args: seq<string>, cfg: Config, oli: nat) returns (ret: int)
      requires cfg.Valid() && TailOf(nargv[..], nargc, args, optind) && optind < nargc && optarg == None
      requires 0 < place.off <= |place.text| && nargv[optind] == Some(place.text) && oli <= |cfg.options|
      modifies this`optind, this`optarg, this`optopt, this`place
      ensures Settled(UseShort(cfg, args, old(optind), old(place.off) - 1, cfg.options[oli..]), args, ret,
                old(optopt), old(index), old(flagVars), old(optind))
    {
      var optchar := place.text[place.off - 1];
      if oli == |cfg.options| || cfg.options[oli] != ':' {
        if place.AtEnd() {
          optind := optind + 1;
        }
      } else {
        optarg := None;
        if !place.AtEnd() {
          optarg := Some(place.Rest());
        } else if oli + 1 == |cfg.options| || cfg.options[oli + 1] != ':' {
          optind := optind + 1;
          if optind >= nargc {
            place := EMSG;
            optopt := optchar as int;
            return cfg.BadArg();
          }
          optarg := nargv[optind];
        } else if !cfg.permute {
          if optind + 1 < nargc && (nargv[optind + 1].value == [] || nargv[optind + 1].value[0] != '-') {
            optind := optind + 1;
            optarg := nargv[optind];
          }
        }
        place := EMSG;
        optind := optind + 1;
      }
      return optchar as int;
    }

    /** The letter at place, as a short option. */
    method ParseShortOption(nargc: nat, nargv: array<Arg>, ghost args: seq<string>, cfg: Config) returns (ret: int)
      requires cfg.Valid() && TailOf(nargv[..], nargc, args, optind) && optind < nargc && optarg == None
      requires !place.AtEnd() && nargv[optind] == Some(place.text)
      modifies this`optind, this`optarg, this`optopt, this`index, this`flagVars, this`place
      ensures Settled(ParseShort(cfg, args, old(optind), old(place.off)), args, ret,
                old(optopt), old(index), old(flagVars), old(optind))
    {
      hide UseShort, DashW, Find;
      var optchar := place.text[place.off];
      place := place.(off := place.off + 1);
      var oli := Find(cfg.options, optchar);
      if optchar == ':' || (optchar == '-' && !place.AtEnd()) || oli == |cfg.options| {
        if optchar == '-' && place.AtEnd() {
          return -1;
        }
        if place.AtEnd() {
          optind := optind + 1;
        }
        optopt := optchar as int;
        return BADCH;
      }
      if cfg.long.Some? && optchar == 'W' && oli + 1 < |cfg.options| && cfg.options[oli + 1] == ';' {
        ret := TakeDashW(nargc, nargv, args, cfg);
      } else {
        ret := TakeShortOption(nargc, nargv, args, cfg, oli + 1);
      }
    }

    /** The element at place: a long option if it can be one, and otherwise a short option. */
    method ParseHere(nargc: nat, nargv: array<Arg>, ghost args: seq<string>, cfg: Config) returns (ret: int)
      requires cfg.Valid() && TailOf(nargv[..], nargc, args, optind) && optind < nargc && optarg == None
      requires !place.AtEnd() && nargv[optind] == Some(place.text)
      modifies this`optind, this`optarg, this`optopt, this`index, this`flagVars, this`place
      ensures Settled(ParseElement(cfg, args, old(optind), old(place.off)), args, ret,
                old(optopt), old(index), old(flagVars), old(optind))
    {
      hide ParseLong, ParseShort, Find;
      if cfg.long.Some? && place.off != 0 && (place.text[place.off] == '-' || cfg.longOnly) {
        var c := place.text[place.off];
        var shortToo := false;
        if c == '-' {
          place := place.(off := place.off + 1);
        } else if c != ':' && Find(cfg.options, c) < |cfg.options| {
          shortToo := true;
        }
        assert place.Rest() == place.text[place.off..];
        ret := ParseLongOptions(nargc, nargv, args, cfg, shortToo);
        if ret != -1 {
          place := EMSG;
          return;
        }
      }
      ret := ParseShortOption(nargc, nargv, args, cfg);
    }

    /** The caller-visible effect of a report on optarg, optopt, *idx and the flag variables. */
    ghost predicate Reported(r: Report, optopt0: int, index0: int, flagVars0: map<nat, int>)
      reads this
    {
      && optarg == r.optarg
      && optopt == (if r.optopt.Some? then r.optopt.value else optopt0)
      && index == (if r.index.Some? then r.index.value else index0)
      && flagVars == (if r.store.Some? then flagVars0[r.store.value.0 := r.store.value.1] else flagVars0)
    }

    // -------------------------------------------------------------- the scan

    /** The statics while getopt_internal runs, between elements. */
    ghost predicate Scanning(run: Run, cfg: Config, nargc: nat, argv: seq<Arg>)
      reads this
    {
      && optind > 0 && !optreset && |argv| == |run.orig| && IsArgv(nargc, run.orig)
      && ScanState(run, cfg, nargc, argv, optind, 0, nonoptStart, nonoptEnd)
    }

    /** An option element has been found and is ready to be parsed. */
    ghost predicate AtElement(run: Run, cfg: Config, nargc: nat, argv: seq<Arg>)
      reads this
    {
      && Scanning(run, cfg, nargc, argv) && optind < nargc && (nonoptStart == -1 || nonoptEnd != -1)
      && !place.AtEnd() && run.orig[optind] == Some(place.text) && !IsNonOption(cfg, place.text)
    }

    /** The end of a scan: the skipped block goes behind the options met since, if there are
        any, and optind to its first entry. */
    method Finish(nargc: nat, nargv: array<Arg>, ghost cfg: Config, ghost run: Run)
      requires Scanning(run, cfg, nargc, nargv[..]) && place.AtEnd()
      requires optind >= nargc || nonoptEnd != optind
      modifies this`optind, this`nonoptStart, this`nonoptEnd, nargv
      ensures Finished(run, nargc, nargv[..], old(optind))
    {
      hide Partitioned, PermuteArgs.Exchanged;
      if nonoptEnd != -1 {
        LayoutExchange(nargv[..], run.orig, run.first, run.taken, optind, nonoptStart, nonoptEnd);
        PermuteArgs.Permute(nonoptStart, nonoptEnd, optind, nargv);
        LayoutFinish(nargv[..], run.orig, run.first, run.taken, optind, optind - (nonoptEnd - nonoptStart));
        optind := optind - (nonoptEnd - nonoptStart);
      } else {
        if optind <= nargc {
          LayoutFinish(nargv[..], run.orig, run.first, run.taken, optind, nonoptStart);
        }
        if nonoptStart != -1 {
          optind := nonoptStart;
        }
      }
      nonoptStart, nonoptEnd := -1, -1;
    }

    lemma BetweenElements(run: Run, cfg: Config, nargc: nat, argv: seq<Arg>)
      requires Scanning(run, cfg, nargc, argv) && place.AtEnd()
      ensures InRun(run, cfg, nargc, argv) && !Resets() && Pos() == optind && Off() == 0
    {
    }

    /** A non-option is passed over; if options came after the skipped block, the block is
        first moved behind them. */
    method SkipNonOption(nargc: nat, nargv: array<Arg>, ghost cfg: Config, ghost run: Run) returns (ghost now: Run)
      requires Scanning(run, cfg, nargc, nargv[..]) && optind < nargc
      requires cfg.permute && !cfg.allArgs && IsNonOption(cfg, run.orig[optind].value)
      modifies this`optind, this`nonoptStart, this`nonoptEnd, nargv
      ensures now == run.(taken := run.taken + [false]) && optind == old(optind) + 1
      ensures Scanning(now, cfg, nargc, nargv[..])
    {
      hide Layout, ScanState, IsNonOption, PermuteArgs.Exchanged;
      now := run.(taken := run.taken + [false]);
      SkipState(run, cfg, nargc, nargv[..], optind, nonoptStart, nonoptEnd);
      if nonoptStart == -1 {
        nonoptStart := optind;
      } else if nonoptEnd != -1 {
        PermuteArgs.Permute(nonoptStart, nonoptEnd, optind, nargv);
        nonoptStart := optind - (nonoptEnd - nonoptStart);
        nonoptEnd := -1;
      }
      optind := optind + 1;
    }

    /** An element is consumed whole. */
    method TakeElement(nargc: nat, nargv: array<Arg>, ghost cfg: Config, ghost run: Run) returns (ghost now: Run)
      requires Scanning(run, cfg, nargc, nargv[..]) && optind < nargc && (nonoptStart == -1 || nonoptEnd != -1)
      modifies this`optind
      ensures now == run.(taken := run.taken + [true]) && optind == old(optind) + 1
      ensures Scanning(now, cfg, nargc, nargv[..]) && nonoptEnd != optind
    {
      hide ScanState;
      TakeState(run, cfg, nargc, nargv[..], optind, nonoptStart, nonoptEnd, 1);
      assert Repeat(1, true) == [true];
      now := run.(taken := run.taken + [true]);
      optind := optind + 1;
    }

    /** One element in front of the scan: a non-option is skipped, reported or stops the scan,
        "--" ends it, and an option is made ready to be parsed. */
    method ExamineElement(nargc: nat, nargv: array<Arg>, cfg: Config, ghost run: Run)
      returns (step: Step, ret: int, ghost now: Run)
      requires cfg.Valid() && optarg == None && Scanning(run, cfg, nargc, nargv[..]) && optind < nargc
      modifies this`optind, this`optarg, this`place, this`nonoptStart, this`nonoptEnd, nargv
      ensures
        var args := Args(nargc, run.orig);
        var o := Scan(cfg, args, old(optind), 0);
        match step
        case Skipped =>
          && cfg.permute && !cfg.allArgs && IsNonOption(cfg, args[old(optind)]) && optarg == None
          && optind == old(optind) + 1 && now == run.(taken := run.taken + [false])
          && Scanning(now, cfg, nargc, nargv[..])
        case Ready =>
          && AtElement(run, cfg, nargc, nargv[..]) && optarg == None && now == run && optind == old(optind)
          && o == ParseElement(cfg, args, optind, place.off) && place.off == if |place.text| == 1 then 0 else 1
        case Done =>
          && now == run.(taken := run.taken + MarksOf(o, old(optind)))
          && Leaves(o, now, cfg, nargc, nargv[..], ret, old(optind), optopt, index, flagVars)
    {
      hide Layout, Scan, ParseElement, ScanState, Finished, InRun, IsNonOption, Find;
      ScanCases(cfg, Args(nargc, run.orig), optind);
      MarksAfterSkips(run.taken, optind, 0);
      Present(run, cfg, nargc, nargv[..], optind, nonoptStart, nonoptEnd);
      place := Pointer(nargv[optind].value, 0);
      OptionStartsWithDash(cfg, place.text);
      if IsNonOption(cfg, place.text) {
        place := EMSG;
        if cfg.allArgs {
          optarg := nargv[optind];
          Unpermuted(run, cfg, nargc, nargv[..], optind, nonoptStart, nonoptEnd);
          now := TakeElement(nargc, nargv, cfg, run);
          BetweenElements(now, cfg, nargc, nargv[..]);
          return Done, INORDER, now;
        }
        if !cfg.permute {
          BetweenElements(run, cfg, nargc, nargv[..]);
          return Done, -1, run;
        }
        now := SkipNonOption(nargc, nargv, cfg, run);
        return Skipped, 0, now;
      }
      if nonoptStart != -1 && nonoptEnd == -1 {
        MarkState(run, cfg, nargc, nargv[..], optind, nonoptStart);
        nonoptEnd := optind;
      }
      if |place.text| > 1 {
        place := place.(off := 1);
        if place.text[1] == '-' && |place.text| == 2 {
          assert place.text == "--";
          place := EMSG;
          now := TakeElement(nargc, nargv, cfg, run);
          Finish(nargc, nargv, cfg, now);
          return Done, -1, now;
        }
      }
      return Ready, 0, run;
    }

    /** A call that ends after k skips ends as the scan without them does. */
    lemma LeavesAfterSkips(o: Outcome, now: Run, cfg: Config, nargc: nat, argv: seq<Arg>, ret: int,
                           pos: nat, k: nat, optopt0: int, index0: int, flagVars0: map<nat, int>)
      requires Leaves(o, now, cfg, nargc, argv, ret, pos + k, optopt0, index0, flagVars0)
      requires o.NonOption? || o.TrailingDash? ==> k == 0
      ensures Leaves(Skip(o, k), now, cfg, nargc, argv, ret, pos, optopt0, index0, flagVars0)
    {
      hide InRun, Finished;
    }

    /** The goto loop of getopt_internal: passes the non-options in front of the next option.
        done: the call ends with ret; otherwise an element is ready to be parsed. */
    method NextElement(nargc: nat, nargv: array<Arg>, cfg: Config, ghost run: Run)
      returns (done: bool, ret: int, ghost now: Run)
      requires cfg.Valid() && optarg == None && Scanning(run, cfg, nargc, nargv[..])
      modifies this`optind, this`optarg, this`place, this`nonoptStart, this`nonoptEnd, nargv
      ensures
        var args := Args(nargc, run.orig);
        var o := Scan(cfg, args, old(optind), 0);
        if done then
          now == run.(taken := run.taken + MarksOf(o, old(optind))) &&
          Leaves(o, now, cfg, nargc, nargv[..], ret, old(optind), optopt, index, flagVars)
        else
          AtElement(now, cfg, nargc, nargv[..]) && optarg == None && old(optind) <= optind &&
          now == run.(taken := run.taken + Repeat(optind - old(optind), false)) &&
          o == Skip(ParseElement(cfg, args, optind, place.off), optind - old(optind)) &&
          place.off == if |place.text| == 1 then 0 else 1
    {
      hide Scan, ParseElement, ScanState, IsNonOption, Leaves, Marks;
      now := run;
      ghost var args, pos0 := Args(nargc, run.orig), optind;
      MarksAfterSkips(run.taken, pos0, 0);
      while true
        invariant pos0 <= optind && optarg == None
        invariant pos0 < optind ==> cfg.permute && !cfg.allArgs
        invariant now == run.(taken := run.taken + Repeat(optind - pos0, false))
        invariant Scanning(now, cfg, nargc, nargv[..])
        invariant Scan(cfg, args, pos0, 0) == Skip(Scan(cfg, args, optind, 0), optind - pos0)
        decreases nargc - optind
      {
        ghost var k, taken := optind - pos0, now.taken;
        ghost var o := Scan(cfg, args, optind, 0);
        ScanCases(cfg, args, optind);
        MarksAfterSkips(run.taken, pos0, k);
        if optind >= nargc {
          place := EMSG;
          now := EndOfVector(nargc, nargv, cfg, now);
          LeavesAfterSkips(o, now, cfg, nargc, nargv[..], -1, pos0, k, optopt, index, flagVars);
          return true, -1, now;
        }
        ScanAdvances(cfg, args, optind, 0);
        var step;
        step, ret, now := ExamineElement(nargc, nargv, cfg, now);
        if step == Done {
          LeavesAfterSkips(o, now, cfg, nargc, nargv[..], ret, pos0, k, optopt, index, flagVars);
          MarksJoin(run.taken, o, pos0, k);
          return true, ret, now;
        }
        if step == Ready {
          return false, 0, now;
        }
      }
    }

    /** An element of the run, or the rest of one, is parsed where place points. */
    method ParseInRun(nargc: nat, nargv: array<Arg>, cfg: Config, ghost run: Run) returns (ret: int, ghost now: Run)
      requires cfg.Valid() && optarg == None && AtElement(run, cfg, nargc, nargv[..])
      requires place.off == 0 ==> |place.text| == 1
      modifies this`optind, this`optarg, this`optopt, this`index, this`flagVars, this`place
      ensures var o := ParseElement(cfg, Args(nargc, run.orig), old(optind), old(place.off));
        && now == run.(taken := run.taken + MarksOf(o, old(optind)))
        && Leaves(o, now, cfg, nargc, nargv[..], ret, old(optind), old(optopt), old(index), old(flagVars))
        && (o.Found? ==> o.skipped == 0 && old(optind) <= o.pos) && (o.Found? || o.TrailingDash?)
    {
      hide Layout, ParseElement, IsNonOption, ScanState;
      ghost var args, pos, off := Args(nargc, run.orig), optind, place.off;
      ghost var o := ParseElement(cfg, args, pos, off);
      ParseElementAdvances(cfg, args, pos, off);
      Present(run, cfg, nargc, nargv[..], pos, nonoptStart, nonoptEnd);
      ret := ParseHere(nargc, nargv, args, cfg);
      match o
      case Found(r, k, pos', off') =>
        ParsedState(run, cfg, nargc, nargv[..], pos, nonoptStart, nonoptEnd, pos' - pos, off');
        assert MarksOf(o, pos) == Repeat(pos' - pos, true);
        now := run.(taken := run.taken + MarksOf(o, pos));
      case TrailingDash(_) =>
        assert run.taken + MarksOf(o, pos) == run.taken;
        now := run;
        BetweenElements(now, cfg, nargc, nargv[..]);
      case _ =>
    }

    /** One call once the modes are fixed and a requested restart has been carried out. */
    method Call(nargc: nat, nargv: array<Arg>, cfg: Config, ghost run: Run) returns (ret: int, ghost now: Run)
      requires cfg.Valid() && optarg == None && optind > 0 && (optreset ==> nonoptStart == -1 && nonoptEnd == -1)
      requires InRun(run, cfg, nargc, nargv[..])
      modifies this, nargv
      ensures var o := Scan(cfg, Args(nargc, run.orig), old(optind), old(Off()));
        && now == run.(taken := run.taken + MarksOf(o, old(optind)))
        && Leaves(o, now, cfg, nargc, nargv[..], ret, old(optind), old(optopt), old(index), old(flagVars))
    {
      hide Layout, Scan, ParseElement, ScanState, IsNonOption, Leaves, Marks;
      ghost var args, pos0, off0 := Args(nargc, run.orig), optind, Off();
      SameElement(run, cfg, nargc, nargv[..], pos0, off0, nonoptStart, nonoptEnd);
      ScanInside(cfg, args, pos0, off0);
      now := run;
      if optreset || place.AtEnd() {
        optreset := false;
        var done;
        done, ret, now := NextElement(nargc, nargv, cfg, run);
        if done {
          return;
        }
      }
      ghost var k, before := optind - pos0, now;
      ghost var o := ParseElement(cfg, args, optind, place.off);
      ret, now := ParseInRun(nargc, nargv, cfg, now);
      LeavesAfterSkips(o, now, cfg, nargc, nargv[..], ret, pos0, k, old(optopt), old(index), old(flagVars));
      MarksOfSkip(o, pos0, k);
      MarksAfterSkips(run.taken, pos0, k);
      assert before.taken + MarksOf(o, pos0 + k) == run.taken + MarksOf(Skip(o, k), pos0);
    }

    /** getopt_internal: one call reports what the pure scan of the original vector reports from
        the same place, and leaves argv arranged for the elements passed so far. */
    method GetoptInternal(nargc: nat, nargv: array<Arg>, options: Option<string>, long: Option<seq<LongOption>>,
                          flags: Flags, ghost run: Run) returns (ret: int, ghost now: Run)
      requires options.Some? ==>
        var cfg := Configure(options.value, flags, posixlyCorrect, long);
        cfg.Valid() && InRun(run, cfg, nargc, nargv[..])
      modifies this, nargv
      ensures options.None? ==> ret == -1 && now == run && unchanged(this) && unchanged(nargv)
      ensures options.Some? ==>
        var cfg := Configure(options.value, flags, posixlyCorrect, long);
        var o := Scan(cfg, Args(nargc, run.orig), old(Pos()), old(Off()));
        && now == run.(taken := run.taken + MarksOf(o, old(Pos())))
        && Leaves(o, now, cfg, nargc, nargv[..], ret, old(Pos()), old(optopt), old(index), old(flagVars))
    {
      hide Scan, Leaves, ScanState, Configure;
      if options.None? {
        return -1, run;
      }
      var cfg := Configure(options.value, flags, posixlyCorrect, long);
      if optind == 0 {
        optind, optreset := 1, true;
      }
      optarg := None;
      if optreset {
        nonoptStart, nonoptEnd := -1, -1;
      }
      ret, now := Call(nargc, nargv, cfg, run);
    }

    /** getopt_long and getopt_long_only: permuting scans. */
    method GetoptLong(nargc: nat, nargv: array<Arg>, options: Option<string>, long: Option<seq<LongOption>>,
                      longOnly: bool, ghost run: Run) returns (ret: int, ghost now: Run)
      requires options.Some? ==>
        var cfg := Configure(options.value, Flags(true, false, longOnly), posixlyCorrect, long);
        cfg.Valid() && InRun(run, cfg, nargc, nargv[..])
      modifies this, nargv
      ensures options.None? ==> ret == -1 && now == run && unchanged(this) && unchanged(nargv)
      ensures options.Some? ==>
        var cfg := Configure(options.value, Flags(true, false, longOnly), posixlyCorrect, long);
        var o := Scan(cfg, Args(nargc, run.orig), old(Pos()), old(Off()));
        && now == run.(taken := run.taken + MarksOf(o, old(Pos())))
        && Leaves(o, now, cfg, nargc, nargv[..], ret, old(Pos()), old(optopt), old(index), old(flagVars))
    {
      hide Scan, Leaves, InRun, Configure;
      ret, now := GetoptInternal(nargc, nargv, options, long, Flags(true, false, longOnly), run);
    }

    /** Setting optind to 0 (or optreset), or coming from a finished run, begins a new one. */
    lemma BeginRun(cfg: Config, nargc: nat, argv: seq<Arg>)
      requires IsArgv(nargc, argv)
      requires Resets() || (place.AtEnd() && nonoptStart == -1 && nonoptEnd == -1)
      ensures InRun(Run(argv, Pos(), []), cfg, nargc, argv) && Off() == 0
    {
    }

    /** How a run over orig that began at position first ends.  At the end of the vector or at
        "--" the vector is stably partitioned and optind is the first entry not consumed; a run
        that may not permute leaves the vector alone. */
    ghost predicate EndsAs(t: Trace, orig: seq<Arg>, first: nat, cfg: Config, nargc: nat, argv: seq<Arg>)
      reads this
    {
      match t.exit
      case AtNonOption => argv == orig && optind == t.pos
      case AtTrailingDash => InRun(Run(orig, first, t.taken), cfg, nargc, argv) && optind == t.pos
      case _ =>
        if t.pos <= nargc then Partitioned(argv, orig, first, t.taken, t.pos, optind)
        else argv == orig && optind == t.pos
    }

    lemma LastCall(o: Outcome, reports: seq<Report>, run: Run, cfg: Config, nargc: nat, argv: seq<Arg>, ret: int, pos: nat, off: nat,
                   optopt0: int, index0: int, flagVars0: map<nat, int>)
      requires cfg.Valid() && |argv| == |run.orig| && IsArgv(nargc, run.orig)
      requires off > 0 ==> pos < nargc && off < |run.orig[pos].value|
      requires o == Scan(cfg, Args(nargc, run.orig), pos, off) && ret == -1
      requires Leaves(o, run.(taken := run.taken + MarksOf(o, pos)), cfg, nargc, argv, ret, pos, optopt0, index0, flagVars0)
      ensures EndsAs(Prepend(reports, run.taken, ScanAll(cfg, Args(nargc, run.orig), pos, off)), run.orig, run.first, cfg, nargc, argv)
    {
      hide Scan, Marks, Layout, Partitioned;
      ScanAdvances(cfg, Args(nargc, run.orig), pos, off);
      if o.NonOption? {
        assert run.taken + MarksOf(o, pos) == run.taken;
        LayoutUnmoved(argv, run.orig, run.first, run.taken, pos, nonoptEnd);
      }
    }

    /** The caller's loop: getopt_long until it returns -1.  The results are those of the pure
        scan of the vector as it was, and the vector is left as EndsAs says. */
    method ParseAll(nargc: nat, nargv: array<Arg>, options: string, long: Option<seq<LongOption>>, longOnly: bool)
      returns (results: seq<(int, Arg)>)
      requires IsArgv(nargc, nargv[..])
      requires Configure(options, Flags(true, false, longOnly), posixlyCorrect, long).Valid()
      requires Resets() || (place.AtEnd() && nonoptStart == -1 && nonoptEnd == -1)
      modifies this, nargv
      ensures
        var cfg := Configure(options, Flags(true, false, longOnly), posixlyCorrect, long);
        var t := ScanAll(cfg, Args(nargc, old(nargv[..])), old(Pos()), 0);
        && results == Results(t.reports)
        && EndsAs(t, old(nargv[..]), old(Pos()), cfg, nargc, nargv[..])
    {
      hide Scan, ScanAll, InRun, MarksOf, EndsAs, Leaves, Configure, Config.Valid, Prepend, Results, Decreases;
      var cfg := Configure(options, Flags(true, false, longOnly), posixlyCorrect, long);
      ghost var run, args := Run(nargv[..], Pos(), []), Args(nargc, nargv[..]);
      ghost var reports: seq<Report> := [];
      BeginRun(cfg, nargc, nargv[..]);
      results := [];
      PrependNothing(ScanAll(cfg, args, Pos(), 0));
      while true
        invariant run.orig == old(nargv[..]) && run.first == old(Pos()) && InRun(run, cfg, nargc, nargv[..])
        invariant Off() > 0 ==> Pos() < nargc && Off() < |args[Pos()]|
        invariant results == Results(reports)
        invariant ScanAll(cfg, args, old(Pos()), 0) == Prepend(reports, run.taken, ScanAll(cfg, args, Pos(), Off()))
        decreases if Pos() <= nargc then nargc - Pos() else 0, if Off() > 0 then 0 else 1, CharsLeft(args, Pos(), Off())
      {
        ghost var before, pos, off, optopt0, index0, flagVars0 := run, Pos(), Off(), optopt, index, flagVars;
        ghost var o := Scan(cfg, args, pos, off);
        var ret;
        ret, run := GetoptLong(nargc, nargv, Some(options), long, longOnly, run);
        Unfold(o, run, cfg, args, nargc, nargv[..], ret, pos, off, optopt0, index0, flagVars0);
        if ret == -1 {
          LastCall(o, reports, before, cfg, nargc, nargv[..], ret, pos, off, optopt0, index0, flagVars0);
          break;
        }
        PrependTwice(reports, before.taken, [o.report], MarksOf(o, pos), ScanAll(cfg, args, Pos(), Off()));
        StepDown(args, pos, off, o);
        results := results + [(ret, optarg)];
        reports := reports + [o.report];
        ResultsAppend(reports);
      }
    }

    /** What a call leaves, one step of the whole run at a time. */
    lemma Unfold(o: Outcome, now: Run, cfg: Config, args: seq<string>, nargc: nat, argv: seq<Arg>, ret: int, pos: nat, off: nat,
                 optopt0: int, index0: int, flagVars0: map<nat, int>)
      requires cfg.Valid() && |args| == nargc && (off > 0 ==> pos < nargc && off < |args[pos]|)
      requires o == Scan(cfg, args, pos, off)
      requires Leaves(o, now, cfg, nargc, argv, ret, pos, optopt0, index0, flagVars0)
      ensures ret == -1 <==> !o.Found?
      ensures o.Found? ==>
        && InRun(now, cfg, nargc, argv) && Pos() == o.pos && Off() == o.off && optarg == o.report.optarg && ret == o.report.ret
        && (o.off > 0 ==> o.pos < nargc && o.off < |args[o.pos]|)
        && Decreases(args, pos + o.skipped, if o.skipped == 0 then off else 0, o.pos, o.off)
        && ScanAll(cfg, args, pos, off) == Prepend([o.report], MarksOf(o, pos), ScanAll(cfg, args, o.pos, o.off))
      ensures !o.Found? ==> forall reports, taken ::
        Prepend(reports, taken, ScanAll(cfg, args, pos, off)).reports == reports
    {
      hide Scan, Marks, InRun, Finished;
      ScanAdvances(cfg, args, pos, off);
    }

    /** The end of the argument vector. */
    method EndOfVector(nargc: nat, nargv: array<Arg>, ghost cfg: Config, ghost run: Run) returns (ghost now: Run)
      requires Scanning(run, cfg, nargc, nargv[..]) && place.AtEnd() && optind >= nargc && optarg == None
      modifies this`optind, this`nonoptStart, this`nonoptEnd, nargv
      ensures now == run
      ensures Leaves(EndOfArgs(0), now, cfg, nargc, nargv[..], -1, old(optind), optopt, index, flagVars)
    {
      hide ScanState, Finished;
      Finish(nargc, nargv, cfg, run);
      now := run;
    }
  }

  /** The state behind n more elements, or off characters into the present one. */
  lemma ParsedState(run: Run, cfg: Config, nargc: nat, argv: seq<Arg>, pos: nat, s: int, e: int, n: nat, off: nat)
    requires IsArgv(nargc, run.orig) && |argv| == |run.orig| && ScanState(run, cfg, nargc, argv, pos, 0, s, e)
    requires (s == -1 || e != -1) && pos + n <= nargc
    requires off > 0 ==> n == 0 && pos < nargc && off < |run.orig[pos].value| && !IsNonOption(cfg, run.orig[pos].value)
    ensures ScanState(run.(taken := run.taken + Repeat(n, true)), cfg, nargc, argv, pos + n, off, s, e)
  {
    if n == 0 {
      assert run.(taken := run.taken + Repeat(n, true)) == run;
    } else {
      TakeState(run, cfg, nargc, argv, pos, s, e, n);
    }
  }

  /** In the middle of an element nothing about the arrangement differs from its start. */
  lemma SameElement(run: Run, cfg: Config, nargc: nat, argv: seq<Arg>, pos: nat, off: nat, s: int, e: int)
    requires IsArgv(nargc, run.orig) && |argv| == |run.orig| && ScanState(run, cfg, nargc, argv, pos, off, s, e)
    ensures ScanState(run, cfg, nargc, argv, pos, 0, s, e)
    ensures off > 0 ==> pos < nargc && off < |run.orig[pos].value| && (s == -1 || e != -1) && !IsNonOption(cfg, run.orig[pos].value)
  {
  }

  lemma StepDown(args: seq<string>, pos: nat, off: nat, o: Outcome)
    requires o.Found? && Decreases(args, pos + o.skipped, if o.skipped == 0 then off else 0, o.pos, o.off)
    ensures pos < o.pos <= |args| || (pos == o.pos && pos < |args| && off < o.off && CharsLeft(args, pos, o.off) < CharsLeft(args, pos, off))
  {
  }

  lemma PrependNothing(t: Trace)
    ensures Prepend([], [], t) == t && Results([]) == []
  {
  }

  lemma PrependTwice(a: seq<Report>, m: seq<bool>, b: seq<Report>, n: seq<bool>, t: Trace)
    ensures Prepend(a, m, Prepend(b, n, t)) == Prepend(a + b, m + n, t)
  {
    assert a + (b + t.reports) == (a + b) + t.reports;
    assert m + (n + t.taken) == (m + n) + t.taken;
  }

  lemma ResultsAppend(reports: seq<Report>)
    requires reports != []
    ensures var n := |reports| - 1;
      Results(reports) == Results(reports[..n]) + [(reports[n].ret, reports[n].optarg)]
  {
  }

  datatype Step = Skipped | Ready | Done

  lemma MarksOfSkip(o: Outcome, pos: nat, k: nat)
    requires o.Found? ==> pos + k + o.skipped <= o.pos
    requires o.DashDash? ==> pos + k + o.skipped <= o.pos
    requires o.NonOption? || o.TrailingDash? ==> k == 0
    ensures MarksOf(Skip(o, k), pos) == Repeat(k, false) + MarksOf(o, pos + k)
  {
  }

  lemma MarksJoin(taken: seq<bool>, o: Outcome, pos: nat, k: nat)
    requires o.Found? ==> pos + k + o.skipped <= o.pos
    requires o.DashDash? ==> pos + k + o.skipped <= o.pos
    requires o.NonOption? || o.TrailingDash? ==> k == 0
    ensures taken + Repeat(k, false) + MarksOf(o, pos + k) == taken + MarksOf(Skip(o, k), pos)
  {
    hide *;
    MarksOfSkip(o, pos, k);
  }

  lemma OptionStartsWithDash(cfg: Config, arg: string)
    ensures !IsNonOption(cfg, arg) ==> |arg| > 0 && arg[0] == '-'
  {
  }

  /** The marks of a scan that ends after k skips. */
  lemma MarksAfterSkips(taken: seq<bool>, pos: nat, k: nat)
    ensures taken + Repeat(k, false) + [true] == taken + Marks(pos, k, pos + k + 1)
    ensures taken + Repeat(k, false) + [false] == taken + Repeat(k + 1, false)
    ensures Marks(pos, k, pos + k) == Repeat(k, false)
    ensures k == 0 ==> taken + Repeat(k, false) == taken
  {
  }

  lemma Unpermuted(run: Run, cfg: Config, nargc: nat, argv: seq<Arg>, pos: nat, s: int, e: int)
    requires IsArgv(nargc, run.orig) && |argv| == |run.orig| && ScanState(run, cfg, nargc, argv, pos, 0, s, e)
    ensures cfg.allArgs || !cfg.permute ==> s == -1
  {
  }

  lemma AbbreviatedStep(long: seq<LongOption>, name: string, shortToo: bool, i: nat)
    requires i < |long|
    ensures Abbreviated(long, name, shortToo, 0) == []
    ensures Abbreviated(long, name, shortToo, i + 1) ==
            Abbreviated(long, name, shortToo, i) + if Abbreviates(long[i], name, shortToo) then [i] else []
    ensures Exact(long[i], name) <==> name <= long[i].name && |long[i].name| == |name|
    ensures Abbreviates(long[i], name, shortToo) <==>
      name <= long[i].name && |long[i].name| != |name| && !(shortToo && |name| == 1)
  {
  }

  lemma LookupCases(long: seq<LongOption>, name: string, shortToo: bool)
    ensures var e := FirstExact(long, name);
      var a := Abbreviated(long, name, shortToo, e);
      && Abbreviated(long, name, shortToo, 0) == []
      && (|a| >= 2 ==> Lookup(long, name, shortToo) == Ambiguous)
      && (|a| <= 1 && e < |long| ==> Lookup(long, name, shortToo) == Match(e))
      && (|a| == 1 && e == |long| ==> Lookup(long, name, shortToo) == Match(a[0]))
      && (|a| == 0 && e == |long| ==> Lookup(long, name, shortToo) == NoMatch)
  {
  }

  lemma {:induction false} AbbreviatedPrefix(long: seq<LongOption>, name: string, shortToo: bool, m: nat, n: nat)
    requires m <= n <= |long|
    ensures |Abbreviated(long, name, shortToo, m)| <= |Abbreviated(long, name, shortToo, n)|
    ensures Abbreviated(long, name, shortToo, m) <= Abbreviated(long, name, shortToo, n)
    decreases n
  {
    if m < n {
      AbbreviatedPrefix(long, name, shortToo, m, n - 1);
    }
  }

  /** The arrangement part of the state: pos and off say where the scan stands, s and e are
      nonopt_start and nonopt_end. */
  ghost predicate ScanState(run: Run, cfg: Config, nargc: nat, argv: seq<Arg>, pos: nat, off: nat, s: int, e: int)
    requires IsArgv(nargc, run.orig) && |argv| == |run.orig|
  {
    && (off > 0 ==> pos < nargc && off < |run.orig[pos].value| && (s == -1 || e != -1) && !IsNonOption(cfg, run.orig[pos].value))
    && (cfg.allArgs || !cfg.permute ==> s == -1)
    && if pos <= nargc then
         && Layout(argv, run.orig, run.first, run.taken, pos, s, e)
         && (e == pos ==> pos < nargc && !IsNonOption(cfg, run.orig[pos].value))
       else
         argv == run.orig && pos == run.first && run.taken == [] && s == -1 && e == -1
  }

  /** The element at the scan position is still where it was. */
  lemma Present(run: Run, cfg: Config, nargc: nat, argv: seq<Arg>, pos: nat, s: int, e: int)
    requires IsArgv(nargc, run.orig) && |argv| == |run.orig| && ScanState(run, cfg, nargc, argv, pos, 0, s, e)
    ensures TailOf(argv, nargc, Args(nargc, run.orig), pos)
  {
    if pos <= nargc {
      forall i | pos <= i < |argv| ensures argv[i] == run.orig[i] {
        assert argv[pos..][i - pos] == run.orig[pos..][i - pos];
      }
    }
  }

  lemma SkipState(run: Run, cfg: Config, nargc: nat, argv: seq<Arg>, pos: nat, s: int, e: int)
    requires IsArgv(nargc, run.orig) && |argv| == |run.orig| && ScanState(run, cfg, nargc, argv, pos, 0, s, e)
    requires pos < nargc && cfg.permute && !cfg.allArgs && IsNonOption(cfg, run.orig[pos].value)
    ensures s == -1 || 0 <= s < pos
    ensures e == -1 || 0 <= s < e < pos
    ensures var argv' := if s != -1 && e != -1 then PermuteArgs.Exchanged(argv, s, e, pos) else argv;
      var s' := if s == -1 then pos else if e == -1 then s else pos - (e - s);
      ScanState(run.(taken := run.taken + [false]), cfg, nargc, argv', pos + 1, 0, s', -1)
  {
    hide IsNonOption, PermuteArgs.Exchanged;
    if s == -1 || e == -1 {
      LayoutSkip(argv, run.orig, run.first, run.taken, pos, s);
    } else {
      LayoutExchange(argv, run.orig, run.first, run.taken, pos, s, e);
      LayoutSkip(PermuteArgs.Exchanged(argv, s, e, pos), run.orig, run.first, run.taken, pos, pos - (e - s));
    }
  }

  lemma MarkState(run: Run, cfg: Config, nargc: nat, argv: seq<Arg>, pos: nat, s: int)
    requires IsArgv(nargc, run.orig) && |argv| == |run.orig| && ScanState(run, cfg, nargc, argv, pos, 0, s, -1)
    requires s != -1 && pos < nargc && !IsNonOption(cfg, run.orig[pos].value)
    ensures ScanState(run, cfg, nargc, argv, pos, 0, s, pos)
  {
    LayoutMarkEnd(argv, run.orig, run.first, run.taken, pos, s);
  }

  lemma TakeState(run: Run, cfg: Config, nargc: nat, argv: seq<Arg>, pos: nat, s: int, e: int, n: nat)
    requires IsArgv(nargc, run.orig) && |argv| == |run.orig| && ScanState(run, cfg, nargc, argv, pos, 0, s, e)
    requires (s == -1 || e != -1) && 0 < n && pos + n <= nargc
    ensures ScanState(run.(taken := run.taken + Repeat(n, true)), cfg, nargc, argv, pos + n, 0, s, e) && e != pos + n
  {
    LayoutTake(argv, run.orig, run.first, run.taken, pos, s, e, n);
    assert Repeat(n, true) == seq(n, _ => true);
  }
}
