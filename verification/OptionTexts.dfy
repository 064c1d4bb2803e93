/** What the scan of an argument vector (OptionScanner) reports, said of the texts of its elements
    (ecos/ecosap/shell/getopt_long.c). */
module OptionTexts {
  import opened Common
  import opened OptionScanner

  // ---------------------------------------------------------------- strchr and the table

  lemma {:induction false} FindsFirst(pre: string, c: char, post: string)
    requires c !in pre
    ensures Find(pre + [c] + post, c) == |pre|
  {
    var s := pre + [c] + post;
    assert s[|pre|] == c;
    assert forall k :: 0 <= k < |pre| ==> s[k] == pre[k];
  }

  lemma FindsNone(s: string, c: char)
    ensures c !in s <==> Find(s, c) == |s|
  {
    if c in s {
      var k :| 0 <= k < |s| && s[k] == c;
    }
  }

  /** Entry i is what a name stands for.  Written in full, the name is that of the first such entry,
      and no two entries ahead of that one have longer names that begin so; shortened, it begins the
      name of no other entry.  A single letter that is a short option too must be written in full. */
  ghost predicate StandsFor(long: seq<LongOption>, name: string, shortToo: bool, i: nat) {
    i < |long| &&
    if name == long[i].name then
      && (forall k :: 0 <= k < i ==> name != long[k].name)
      && ((shortToo && |name| == 1) || forall j, k :: 0 <= j < k < i ==> !(name < long[j].name && name < long[k].name))
    else
      name < long[i].name && !(shortToo && |name| == 1) && forall k :: 0 <= k < |long| && k != i ==> !(name <= long[k].name)
  }

  /** No entry has the name, nor one that begins so. */
  ghost predicate Unlisted(long: seq<LongOption>, name: string, shortToo: bool) {
    forall k :: 0 <= k < |long| ==> name != long[k].name && (name < long[k].name ==> shortToo && |name| == 1)
  }

  ghost predicate NotAmong(name: string, long: seq<LongOption>) {
    forall m :: 0 <= m < |long| ==> name != long[m].name
  }

  /** Two entries have longer names that begin so, and none up to the second has just this one. */
  ghost predicate Unclear(long: seq<LongOption>, name: string, shortToo: bool) {
    && !(shortToo && |name| == 1)
    && exists j, k :: 0 <= j < k < |long| && name < long[j].name && name < long[k].name && NotAmong(name, long[..k])
  }

  lemma AbbreviatesIsLonger(o: LongOption, name: string, shortToo: bool)
    ensures Abbreviates(o, name, shortToo) <==> name < o.name && !(shortToo && |name| == 1)
  {
  }

  lemma TwoAbbreviated(long: seq<LongOption>, name: string, shortToo: bool, e: nat, j: nat, k: nat)
    requires j < k < e <= |long| && Abbreviates(long[j], name, shortToo) && Abbreviates(long[k], name, shortToo)
    ensures |Abbreviated(long, name, shortToo, e)| >= 2
  {
    var a := Abbreviated(long, name, shortToo, e);
    assert j in a && k in a;
  }

  lemma OneAbbreviated(long: seq<LongOption>, name: string, shortToo: bool, e: nat)
    requires e <= |long|
    ensures var a := Abbreviated(long, name, shortToo, e);
      && (|a| >= 2 ==> a[0] < a[1] < e && Abbreviates(long[a[0]], name, shortToo) && Abbreviates(long[a[1]], name, shortToo))
      && (|a| == 1 ==> a[0] < e && Abbreviates(long[a[0]], name, shortToo))
      && (|a| == 1 ==> forall k :: 0 <= k < e && k != a[0] ==> !Abbreviates(long[k], name, shortToo))
      && (|a| == 0 ==> forall k :: 0 <= k < e ==> !Abbreviates(long[k], name, shortToo))
  {
    AbbreviatedIncreasing(long, name, shortToo, e);
    var a := Abbreviated(long, name, shortToo, e);
    if |a| >= 1 {
      assert a[0] in a;
    }
    if |a| >= 2 {
      assert a[1] in a;
    }
  }

  lemma StandsForFound(long: seq<LongOption>, name: string, shortToo: bool, i: nat)
    requires StandsFor(long, name, shortToo, i)
    ensures Lookup(long, name, shortToo) == Match(i)
  {
    hide Abbreviates, Abbreviated;
    var e := FirstExact(long, name);
    OneAbbreviated(long, name, shortToo, e);
    var a := Abbreviated(long, name, shortToo, e);
    forall k | 0 <= k < |long|
      ensures Abbreviates(long[k], name, shortToo) <==> name < long[k].name && !(shortToo && |name| == 1)
    {
      AbbreviatesIsLonger(long[k], name, shortToo);
    }
  }

  lemma UnlistedNotFound(long: seq<LongOption>, name: string, shortToo: bool)
    requires Unlisted(long, name, shortToo)
    ensures Lookup(long, name, shortToo) == NoMatch
  {
    hide Abbreviates, Abbreviated;
    var e := FirstExact(long, name);
    OneAbbreviated(long, name, shortToo, e);
    forall k | 0 <= k < |long|
      ensures !Abbreviates(long[k], name, shortToo)
    {
      AbbreviatesIsLonger(long[k], name, shortToo);
    }
  }

  lemma UnclearIsAmbiguous(long: seq<LongOption>, name: string, shortToo: bool)
    requires Unclear(long, name, shortToo)
    ensures Lookup(long, name, shortToo) == Ambiguous
  {
    var j, k :| 0 <= j < k < |long| && name < long[j].name && name < long[k].name && NotAmong(name, long[..k]);
    assert forall m :: 0 <= m < k ==> long[..k][m] == long[m];
    var e := FirstExact(long, name);
    AbbreviatesIsLonger(long[j], name, shortToo);
    AbbreviatesIsLonger(long[k], name, shortToo);
    TwoAbbreviated(long, name, shortToo, e, j, k);
  }

  lemma FoundStandsFor(long: seq<LongOption>, name: string, shortToo: bool)
    ensures match Lookup(long, name, shortToo)
      case Match(i) => StandsFor(long, name, shortToo, i)
      case NoMatch => Unlisted(long, name, shortToo)
      case Ambiguous => Unclear(long, name, shortToo)
  {
    hide Abbreviates, Abbreviated;
    var e := FirstExact(long, name);
    OneAbbreviated(long, name, shortToo, e);
    var a := Abbreviated(long, name, shortToo, e);
    forall k | 0 <= k < |long|
      ensures Abbreviates(long[k], name, shortToo) <==> name < long[k].name && !(shortToo && |name| == 1)
    {
      AbbreviatesIsLonger(long[k], name, shortToo);
    }
    if |a| <= 1 && e < |long| {
      forall j, k | 0 <= j < k < e
        ensures !(Abbreviates(long[j], name, shortToo) && Abbreviates(long[k], name, shortToo))
      {
        if |a| == 1 {
          assert j != a[0] || k != a[0];
        }
      }
    }
  }

  /** The table decides: a name stands for one entry, or for none, or is unclear. */
  lemma LookupExactly(long: seq<LongOption>, name: string, shortToo: bool)
    ensures forall i :: Lookup(long, name, shortToo) == Match(i) <==> StandsFor(long, name, shortToo, i)
    ensures Lookup(long, name, shortToo) == NoMatch <==> Unlisted(long, name, shortToo)
    ensures Lookup(long, name, shortToo) == Ambiguous <==> Unclear(long, name, shortToo)
  {
    hide Lookup, StandsFor, Unlisted, Unclear;
    FoundStandsFor(long, name, shortToo);
    forall i | StandsFor(long, name, shortToo, i)
      ensures Lookup(long, name, shortToo) == Match(i)
    {
      StandsForFound(long, name, shortToo, i);
    }
    if Unlisted(long, name, shortToo) {
      UnlistedNotFound(long, name, shortToo);
    }
    if Unclear(long, name, shortToo) {
      UnclearIsAmbiguous(long, name, shortToo);
    }
  }

  // ---------------------------------------------------------------- short options

  /** A letter of the option string behind head in an element.  Without ':' behind it there it has no
      argument, and the next letter follows; with ':' the rest of the element is its argument or, if
      there is no rest, the next element; with '::' the next element is not, or only if arguments are
      not being permuted and it does not begin with '-'. */
  lemma ShortOption(cfg: Config, args: seq<string>, pos: nat, head: string, c: char, rest: string, pre: string, post: string)
    requires pos < |args| && args[pos] == head + [c] + rest
    requires cfg.options == pre + [c] + post && c !in pre && c != ':' && (c == '-' ==> rest == "")
    requires head == "" ==> c == '-'
    requires head != "" && cfg.long.Some? ==> c != '-' && !cfg.longOnly
    requires cfg.long.Some? ==> !(c == 'W' && ";" <= post)
    ensures !(":" <= post) && rest != "" ==>
      Scan(cfg, args, pos, |head|) == Found(Report(c as int, None, None, None, None), 0, pos, |head| + 1)
    ensures !(":" <= post) && rest == "" ==>
      Scan(cfg, args, pos, |head|) == Found(Report(c as int, None, None, None, None), 0, pos + 1, 0)
    ensures ":" <= post && rest != "" ==>
      Scan(cfg, args, pos, |head|) == Found(Report(c as int, Some(rest), None, None, None), 0, pos + 1, 0)
    ensures ":" <= post && !("::" <= post) && rest == "" && pos + 1 < |args| ==>
      Scan(cfg, args, pos, |head|) == Found(Report(c as int, Some(args[pos + 1]), None, None, None), 0, pos + 2, 0)
    ensures ":" <= post && !("::" <= post) && rest == "" && pos + 1 == |args| ==>
      Scan(cfg, args, pos, |head|) ==
        Found(Report(if ":" <= cfg.options then ':' as int else '?' as int, None, Some(c as int), None, None), 0, pos + 1, 0)
    ensures "::" <= post && rest == "" && (cfg.permute || pos + 1 == |args| || "-" <= args[pos + 1]) ==>
      Scan(cfg, args, pos, |head|) == Found(Report(c as int, None, None, None, None), 0, pos + 1, 0)
    ensures "::" <= post && rest == "" && !cfg.permute && pos + 1 < |args| && !("-" <= args[pos + 1]) ==>
      Scan(cfg, args, pos, |head|) == Found(Report(c as int, Some(args[pos + 1]), None, None, None), 0, pos + 2, 0)
  {
    hide Find, UseLong, DashW, ParseLong;
    FindsFirst(pre, c, post);
    var off := |head|;
    var a := args[pos];
    assert a[off] == c && a[off + 1..] == rest && |a| == off + 1 + |rest|;
    assert cfg.options[|pre| + 1..] == post;
    if off == 0 {
      assert a == "-";
      ScanCases(cfg, args, pos);
    }
    assert Scan(cfg, args, pos, off) == ParseElement(cfg, args, pos, off);
    assert ParseElement(cfg, args, pos, off) == ParseShort(cfg, args, pos, off);
    assert ParseShort(cfg, args, pos, off) == UseShort(cfg, args, pos, off, post);
  }

  /** Any other letter, and ':', is reported as '?' with the letter in optopt; a '-' at the end that is
      no option letter ends the run, if there are no long options. */
  lemma UnknownLetter(cfg: Config, args: seq<string>, pos: nat, head: string, c: char, rest: string)
    requires pos < |args| && args[pos] == head + [c] + rest && head != ""
    requires cfg.long.Some? ==> c != '-' && !cfg.longOnly
    requires c == ':' || c !in cfg.options || (c == '-' && rest != "")
    ensures !(c == '-' && rest == "") ==>
      Scan(cfg, args, pos, |head|) ==
        Found(Report('?' as int, None, Some(c as int), None, None), 0,
              if rest == "" then pos + 1 else pos, if rest == "" then 0 else |head| + 1)
    ensures c == '-' && rest == "" ==> Scan(cfg, args, pos, |head|) == TrailingDash(pos)
  {
    hide Find, UseLong, DashW, ParseLong, UseShort;
    FindsNone(cfg.options, c);
    var off := |head|;
    var a := args[pos];
    assert a[off] == c && |a| == off + 1 + |rest|;
    assert Scan(cfg, args, pos, off) == ParseElement(cfg, args, pos, off);
    assert ParseElement(cfg, args, pos, off) == ParseShort(cfg, args, pos, off);
  }

  // ---------------------------------------------------------------- long options

  /** A long option is written as its name, or its name, '=' and an argument. */
  ghost predicate Spells(text: string, name: string, given: Option<string>) {
    '=' !in name && text == match given case None => name case Some(value) => name + "=" + value
  }

  lemma SpellsSplit(text: string, name: string, given: Option<string>)
    requires Spells(text, name, given)
    ensures var eq := Find(text, '=');
      text[..eq] == name && given == if eq < |text| then Some(text[eq + 1..]) else None
  {
    match given
    case None => FindsNone(text, '=');
    case Some(value) =>
      FindsFirst(name, '=', value);
      assert name + ['='] + value == text;
  }

  /** What may be a short option too: with one dash, its first letter is an option letter. */
  ghost predicate MayBeShort(cfg: Config, dash: string, text: string) {
    dash == "" && text != "" && text[0] in cfg.options && text[0] != ':'
  }

  /** Behind head, the text of a long option: behind another '-', or for getopt_long_only at once. */
  ghost predicate LongAhead(cfg: Config, args: seq<string>, pos: nat, head: string, dash: string, text: string) {
    && cfg.long.Some? && pos < |args| && args[pos] == head + dash + text && head != ""
    && (dash == "-" || (dash == "" && cfg.longOnly && text != "" && text[0] != '-'))
  }

  lemma ReadsLong(cfg: Config, args: seq<string>, pos: nat, head: string, dash: string, text: string)
    requires LongAhead(cfg, args, pos, head, dash, text)
    ensures |head| < |args[pos]|
    ensures Scan(cfg, args, pos, |head|) ==
      match ParseLong(cfg, cfg.long.value, args, pos, text, MayBeShort(cfg, dash, text))
      case Long(report, end) => Found(report, 0, end, 0)
      case NotLong => ParseShort(cfg, args, pos, |head|)
  {
    hide Find, ParseLong, ParseShort;
    var off := |head|;
    var a := args[pos];
    if dash == "-" {
      assert a[off] == '-' && a[off + 1..] == text;
    } else {
      assert a[off..] == text && a[off] == text[0];
      FindsNone(cfg.options, text[0]);
    }
    assert Scan(cfg, args, pos, off) == ParseElement(cfg, args, pos, off);
  }

  lemma ReadsNamed(cfg: Config, args: seq<string>, pos: nat, head: string, dash: string, text: string, name: string,
                   given: Option<string>, i: nat)
    requires LongAhead(cfg, args, pos, head, dash, text) && Spells(text, name, given)
    requires StandsFor(cfg.long.value, name, MayBeShort(cfg, dash, text), i)
    ensures i < |cfg.long.value| && |head| < |args[pos]|
    ensures var l := UseLong(cfg, cfg.long.value[i], i, args, pos, given); Scan(cfg, args, pos, |head|) == Found(l.report, 0, l.pos, 0)
  {
    hide Find, UseLong, Lookup, Scan;
    ReadsLong(cfg, args, pos, head, dash, text);
    SpellsSplit(text, name, given);
    LookupExactly(cfg.long.value, name, MayBeShort(cfg, dash, text));
  }

  /** A name that stands for entry i of the table.  Its argument is what is behind '='; if there is
      none there and it needs one, the next element.  An argument missing or not allowed is reported
      as '?', or as ':' if the option string begins so. */
  lemma LongElement(cfg: Config, args: seq<string>, pos: nat, head: string, dash: string, text: string, name: string,
                    given: Option<string>, i: nat)
    requires LongAhead(cfg, args, pos, head, dash, text) && Spells(text, name, given)
    requires StandsFor(cfg.long.value, name, MayBeShort(cfg, dash, text), i)
    ensures i < |cfg.long.value|
    ensures
      var o := cfg.long.value[i];
      var ret := if o.flag.None? then o.val else 0;
      var store := if o.flag.None? then None else Some((o.flag.value, o.val));
      var bad := if ":" <= cfg.options then ':' as int else '?' as int;
      var next := Scan(cfg, args, pos, |head|);
      match (o.hasArg, given)
      case (NoArgument, None) => next == Found(Report(ret, None, None, Some(i), store), 0, pos + 1, 0)
      case (NoArgument, Some(_)) => next == Found(Report(bad, None, Some(ret), None, None), 0, pos + 1, 0)
      case (_, Some(value)) => next == Found(Report(ret, Some(value), None, Some(i), store), 0, pos + 1, 0)
      case (OptionalArgument, None) => next == Found(Report(ret, None, None, Some(i), store), 0, pos + 1, 0)
      case (RequiredArgument, None) =>
        next == if pos + 1 < |args| then Found(Report(ret, Some(args[pos + 1]), None, Some(i), store), 0, pos + 2, 0)
                else Found(Report(bad, None, Some(ret), None, None), 0, pos + 1, 0)
  {
    hide Scan, StandsFor;
    ReadsNamed(cfg, args, pos, head, dash, text, name, given, i);
  }

  /** A name that is unclear, or that nothing has or begins with, is reported as '?'. */
  lemma UnknownName(cfg: Config, args: seq<string>, pos: nat, head: string, dash: string, text: string, name: string,
                    given: Option<string>)
    requires LongAhead(cfg, args, pos, head, dash, text) && Spells(text, name, given)
    requires var shortToo := MayBeShort(cfg, dash, text);
      Unclear(cfg.long.value, name, shortToo) || (Unlisted(cfg.long.value, name, shortToo) && !shortToo)
    ensures Scan(cfg, args, pos, |head|) == Found(Report('?' as int, None, Some(0), None, None), 0, pos + 1, 0)
  {
    hide Find, Lookup, Scan;
    ReadsLong(cfg, args, pos, head, dash, text);
    SpellsSplit(text, name, given);
    LookupExactly(cfg.long.value, name, MayBeShort(cfg, dash, text));
  }

  /** With getopt_long_only, letters that are no long option are read as without it. */
  lemma ShortAfterAll(cfg: Config, args: seq<string>, pos: nat, head: string, text: string, name: string,
                      given: Option<string>)
    requires LongAhead(cfg, args, pos, head, "", text) && Spells(text, name, given)
    requires MayBeShort(cfg, "", text) && Unlisted(cfg.long.value, name, true)
    ensures Scan(cfg, args, pos, |head|) == Scan(cfg.(longOnly := false), args, pos, |head|)
  {
    hide Find, Lookup, Scan;
    ReadsLong(cfg, args, pos, head, "", text);
    SpellsSplit(text, name, given);
    LookupExactly(cfg.long.value, name, true);
    assert args[pos][|head|] == text[0];
    OnlyShort(cfg, args, pos, |head|);
  }

  lemma OnlyShort(cfg: Config, args: seq<string>, pos: nat, off: nat)
    requires pos < |args| && 0 < off < |args[pos]| && args[pos][off] != '-'
    ensures Scan(cfg.(longOnly := false), args, pos, off) == ParseShort(cfg, args, pos, off)
  {
    hide Find, Lookup;
  }

  /** "-W" with ';' behind the W in the option string: what follows, in the element or in the next, is
      read as behind "--". */
  lemma DashWIsDoubleDash(cfg: Config, args: seq<string>, pos: nat, head: string, rest: string, pre: string, post: string)
    requires pos < |args| && args[pos] == head + ['W'] + rest && head != ""
    requires cfg.options == pre + ['W'] + post && 'W' !in pre && ";" <= post
    requires cfg.long.Some? && !cfg.longOnly
    ensures rest != "" ==> Scan(cfg, args, pos, |head|) == Scan(cfg, args[pos := "-" + "-" + rest], pos, 1)
    ensures rest == "" && pos + 1 < |args| ==>
      Scan(cfg, args, pos, |head|) == Scan(cfg, args[pos + 1 := "-" + "-" + args[pos + 1]], pos + 1, 1)
    ensures rest == "" && pos + 1 == |args| ==>
      Scan(cfg, args, pos, |head|) ==
        Found(Report(if ":" <= cfg.options then ':' as int else '?' as int, None, Some('W' as int), None, None), 0, pos + 1, 0)
  {
    hide Find, Lookup, Scan, ParseLong;
    DashWHere(cfg, args, pos, head, rest, pre, post);
    if rest != "" {
      var b := args[pos := "-" + "-" + rest];
      ReadsLong(cfg, b, pos, "-", "-", rest);
      ParseLongElsewhere(cfg, args, b, pos, rest);
    } else if pos + 1 < |args| {
      var b := args[pos + 1 := "-" + "-" + args[pos + 1]];
      ReadsLong(cfg, b, pos + 1, "-", "-", args[pos + 1]);
      ParseLongElsewhere(cfg, args, b, pos + 1, args[pos + 1]);
    }
  }

  lemma DashWHere(cfg: Config, args: seq<string>, pos: nat, head: string, rest: string, pre: string, post: string)
    requires pos < |args| && args[pos] == head + ['W'] + rest && head != ""
    requires cfg.options == pre + ['W'] + post && 'W' !in pre && ";" <= post
    requires cfg.long.Some? && !cfg.longOnly
    ensures |head| < |args[pos]| && args[pos][|head|] == 'W' && args[pos][|head| + 1..] == rest
    ensures Scan(cfg, args, pos, |head|) == DashW(cfg, cfg.long.value, args, pos, |head|)
  {
    hide Find, UseLong, DashW, ParseLong, UseShort;
    FindsFirst(pre, 'W', post);
    var off := |head|;
    assert args[pos][off] == 'W' && args[pos][off + 1..] == rest;
    assert cfg.options[|pre| + 1..] == post;
    assert Scan(cfg, args, pos, off) == ParseElement(cfg, args, pos, off);
  }

  lemma ParseLongElsewhere(cfg: Config, args: seq<string>, other: seq<string>, pos: nat, cur: string)
    requires cfg.long.Some? && pos < |args| == |other| && forall k :: pos < k < |args| ==> other[k] == args[k]
    ensures ParseLong(cfg, cfg.long.value, args, pos, cur, false) == ParseLong(cfg, cfg.long.value, other, pos, cur, false)
  {
    hide Find, Lookup;
  }

  // ---------------------------------------------------------------- elements

  /** Inside an element of two characters or more that begins with '-' the scan starts behind it. */
  lemma FirstLetter(cfg: Config, args: seq<string>, pos: nat, text: string)
    requires pos < |args| && args[pos] == "-" + text && text != "" && text != "-"
    ensures Scan(cfg, args, pos, 0) == Scan(cfg, args, pos, 1)
  {
    hide ParseElement;
    assert args[pos] != "--" by {
      assert args[pos][1..] == text && "--"[1..] == "-";
    }
    ScanCases(cfg, args, pos);
  }

  /** An argument that is not an option. */
  ghost predicate Ordinary(cfg: Config, arg: string) {
    !("-" <= arg) || (arg == "-" && '-' !in cfg.options)
  }

  /** The other elements: "--", the end, and what is not an option. */
  lemma OtherElements(cfg: Config, args: seq<string>, pos: nat)
    ensures pos >= |args| ==> Scan(cfg, args, pos, 0) == EndOfArgs(0)
    ensures pos < |args| && args[pos] == "--" ==> Scan(cfg, args, pos, 0) == DashDash(0, pos + 1)
    ensures pos < |args| && Ordinary(cfg, args[pos]) && cfg.allArgs ==>
      Scan(cfg, args, pos, 0) == Found(Report(1, Some(args[pos]), None, None, None), 0, pos + 1, 0)
    ensures pos < |args| && Ordinary(cfg, args[pos]) && !cfg.allArgs && !cfg.permute ==>
      Scan(cfg, args, pos, 0) == NonOption(pos)
    ensures pos < |args| && Ordinary(cfg, args[pos]) && !cfg.allArgs && cfg.permute ==>
      Scan(cfg, args, pos, 0) ==
        match Scan(cfg, args, pos + 1, 0)
        case Found(report, k, end, off) => Found(report, k + 1, end, off)
        case EndOfArgs(k) => EndOfArgs(k + 1)
        case DashDash(k, end) => DashDash(k + 1, end)
        case other => other
  {
    hide ParseElement, Find;
    FindsNone(cfg.options, '-');
    ScanCases(cfg, args, pos);
  }
}
