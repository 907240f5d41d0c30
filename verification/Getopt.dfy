/** getopt_internal and parse_long_options of include/getopt.h, with FLAG_PERMUTE set: a state
    machine over static variables that is called again and again and permutes nargv as it goes.
    The reference parser below reads the original arguments once, from left to right. */
module Getopt {
  import opened Permuter
  import opened Wrappers

  datatype HasArg = NoArgument | RequiredArgument | OptionalArgument

  /** One entry of the long option table; flag is the variable to store val in, if there is one. */
  datatype LongOption = LongOption(name: string, hasArg: HasArg, flag: Option<int>, val: int)

  const BADCH: int := '?' as int

  /** What the caller passes on every call: the short option string, the long option table
      (a null table is None) and FLAG_LONGONLY. */
  datatype Env = Env(options: string, longs: Option<seq<LongOption>>, longOnly: bool) {
    /** No "+" or "-" prefix, and no long option whose own value is the end marker -1. */
    ghost predicate Valid() {
      && (options != "" ==> options[0] != '+' && options[0] != '-')
      && (longs.Some? ==> forall o | o in longs.value :: o.flag.Some? || o.val != -1)
    }

    function BadArg(): int {
      if options != "" && options[0] == ':' then ':' as int else '?' as int
    }
  }

  function IndexOf(s: string, c: char): (i: int)
    ensures i == -1 <==> c !in s
    ensures i != -1 ==> 0 <= i < |s| && s[i] == c && c !in s[..i]
  {
    if s == "" then -1
    else if s[0] == c then 0
    else
      var i := IndexOf(s[1..], c);
      assert i != -1 ==> s[..i + 1] == [s[0]] + s[1..][..i];
      if i == -1 then -1 else i + 1
  }

  /** options[k] is c. */
  predicate CharAt(s: string, k: int, c: char) {
    0 <= k < |s| && s[k] == c
  }

  // ---- long options ---------------------------------------------------------------------

  datatype Match = Found(index: nat) | Ambiguous | NotFound

  predicate Identical(a: LongOption, b: LongOption) {
    a.hasArg == b.hasArg && a.flag == b.flag && a.val == b.val
  }

  function MatchFrom(longs: seq<LongOption>, name: string, shortToo: bool, i: nat, m: int, ambiguous: bool): Match
    requires i <= |longs| && -1 <= m < |longs|
    decreases |longs| - i
  {
    if i == |longs| then
      if ambiguous then Ambiguous else if m != -1 then Found(m) else NotFound
    else if !(name <= longs[i].name) then
      MatchFrom(longs, name, shortToo, i + 1, m, ambiguous)
    else if |longs[i].name| == |name| then
      Found(i)
    else if shortToo && |name| == 1 then
      MatchFrom(longs, name, shortToo, i + 1, m, ambiguous)
    else if m == -1 then
      MatchFrom(longs, name, shortToo, i + 1, i, ambiguous)
    else
      MatchFrom(longs, name, shortToo, i + 1, m, ambiguous || !Identical(longs[i], longs[m]))
  }

  /** A proper abbreviation of a long option; a single known short letter does not count. */
  predicate Abbreviates(name: string, o: LongOption, shortToo: bool) {
    name <= o.name && name != o.name && !(shortToo && |name| == 1)
  }

  predicate FirstAbbreviated(longs: seq<LongOption>, name: string, shortToo: bool, m: nat) {
    && m < |longs| && Abbreviates(name, longs[m], shortToo)
    && forall k | 0 <= k < m :: !Abbreviates(name, longs[k], shortToo)
  }

  /** None of the first n options has the name. */
  predicate Unnamed(longs: seq<LongOption>, name: string, n: nat) {
    forall k | 0 <= k < n <= |longs| :: longs[k].name != name
  }

  /** The first n options that are abbreviated mean the same as option m. */
  predicate AllIdentical(longs: seq<LongOption>, name: string, shortToo: bool, m: nat, n: nat) {
    && m < |longs|
    && forall k | 0 <= k < n <= |longs| && Abbreviates(name, longs[k], shortToo) :: Identical(longs[k], longs[m])
  }

  /** What parse_long_options promises of its match: an exact name wins (the first one); otherwise the
      first abbreviated option, unless an option with another interpretation is abbreviated too. */
  ghost predicate Meant(longs: seq<LongOption>, name: string, shortToo: bool, r: Match) {
    match r
    case Found(i) =>
      i < |longs| &&
      if longs[i].name == name then Unnamed(longs, name, i)
      else
        && Unnamed(longs, name, |longs|)
        && FirstAbbreviated(longs, name, shortToo, i)
        && AllIdentical(longs, name, shortToo, i, |longs|)
    case Ambiguous =>
      && Unnamed(longs, name, |longs|)
      && exists m: nat :: FirstAbbreviated(longs, name, shortToo, m) && !AllIdentical(longs, name, shortToo, m, |longs|)
    case NotFound =>
      Unnamed(longs, name, |longs|) && forall k | 0 <= k < |longs| :: !Abbreviates(name, longs[k], shortToo)
  }

  /** The loop's variables before option i: m is the first abbreviated option so far, and amb says
      whether another one means something else. */
  ghost predicate Seen(longs: seq<LongOption>, name: string, shortToo: bool, i: nat, m: int, amb: bool) {
    && i <= |longs| && -1 <= m < i && Unnamed(longs, name, i)
    && (m == -1 ==> !amb && forall k | 0 <= k < i :: !Abbreviates(name, longs[k], shortToo))
    && (m != -1 ==> FirstAbbreviated(longs, name, shortToo, m) && (!amb <==> AllIdentical(longs, name, shortToo, m, i)))
  }

  lemma SeenAll(longs: seq<LongOption>, name: string, shortToo: bool, m: int, amb: bool)
    requires Seen(longs, name, shortToo, |longs|, m, amb)
    ensures Meant(longs, name, shortToo, if amb then Ambiguous else if m != -1 then Found(m) else NotFound)
  {
    hide Identical, AllIdentical;
  }

  lemma SeenOther(longs: seq<LongOption>, name: string, shortToo: bool, i: nat, m: int, amb: bool)
    requires Seen(longs, name, shortToo, i, m, amb) && i < |longs|
    requires longs[i].name != name && !Abbreviates(name, longs[i], shortToo)
    ensures Seen(longs, name, shortToo, i + 1, m, amb)
  {
    hide Identical, Abbreviates;
  }

  lemma SeenAbbreviated(longs: seq<LongOption>, name: string, shortToo: bool, i: nat, m: int, amb: bool)
    requires Seen(longs, name, shortToo, i, m, amb) && i < |longs|
    requires longs[i].name != name && Abbreviates(name, longs[i], shortToo)
    ensures m == -1 ==> Seen(longs, name, shortToo, i + 1, i, false)
    ensures m != -1 ==> Seen(longs, name, shortToo, i + 1, m, amb || !Identical(longs[i], longs[m]))
  {
    hide Abbreviates;
  }

  lemma {:induction false} MatchMeaningFrom(longs: seq<LongOption>, name: string, shortToo: bool,
                                            i: nat, m: int, amb: bool)
    requires Seen(longs, name, shortToo, i, m, amb) && m < |longs|
    ensures Meant(longs, name, shortToo, MatchFrom(longs, name, shortToo, i, m, amb))
    decreases |longs| - i
  {
    hide Identical, Unnamed, AllIdentical, FirstAbbreviated;
    if i == |longs| {
      SeenAll(longs, name, shortToo, m, amb);
    } else if !(name <= longs[i].name) {
      SeenOther(longs, name, shortToo, i, m, amb);
      MatchMeaningFrom(longs, name, shortToo, i + 1, m, amb);
    } else if |longs[i].name| == |name| {
      assert longs[i].name == name;
    } else if shortToo && |name| == 1 {
      SeenOther(longs, name, shortToo, i, m, amb);
      MatchMeaningFrom(longs, name, shortToo, i + 1, m, amb);
    } else if m == -1 {
      SeenAbbreviated(longs, name, shortToo, i, m, amb);
      MatchMeaningFrom(longs, name, shortToo, i + 1, i, amb);
    } else {
      SeenAbbreviated(longs, name, shortToo, i, m, amb);
      MatchMeaningFrom(longs, name, shortToo, i + 1, m, amb || !Identical(longs[i], longs[m]));
    }
  }

  lemma MatchMeaning(longs: seq<LongOption>, name: string, shortToo: bool)
    ensures Meant(longs, name, shortToo, MatchFrom(longs, name, shortToo, 0, -1, false))
  {
    MatchMeaningFrom(longs, name, shortToo, 0, -1, false);
  }

  // ---- one option -----------------------------------------------------------------------

  /** What one call does with the option text at place: the value returned, optarg, the text left
      in the same argument, and how many arguments optind moves over. Stray is the return of -1 in
      the middle of a cluster. */
  datatype Step = Step(ret: int, optarg: Option<string>, place: string, advance: nat) | Stray

  lemma MatchInRange(longs: seq<LongOption>, name: string, shortToo: bool)
    ensures var m := MatchFrom(longs, name, shortToo, 0, -1, false); m.Found? ==> m.index < |longs|
  {
    MatchMeaning(longs, name, shortToo);
  }

  /** parse_long_options on the text of one argument; tail holds the arguments after it.
      None is its "not mine" answer. */
  function LongStep(env: Env, text: string, shortToo: bool, tail: seq<string>): (r: Option<Step>)
    requires env.longs.Some?
    ensures r.Some? ==>
      r.value.Step? && r.value.place == "" && 1 <= r.value.advance <= 2 && r.value.advance <= 1 + |tail|
    ensures r.None? ==> shortToo
    ensures r.Some? && env.Valid() ==> r.value.ret != -1
  {
    var longs := env.longs.value;
    var eq := IndexOf(text, '=');
    var name := if eq == -1 then text else text[..eq];
    match MatchFrom(longs, name, shortToo, 0, -1, false)
    case Ambiguous => Some(Step(BADCH, None, "", 1))
    case NotFound => if shortToo then None else Some(Step(BADCH, None, "", 1))
    case Found(i) =>
      MatchInRange(longs, name, shortToo);
      var o := longs[i];
      var ret := if o.flag.Some? then 0 else o.val;
      assert o in longs;
      if o.hasArg.NoArgument? then
        if eq != -1 then Some(Step(env.BadArg(), None, "", 1)) else Some(Step(ret, None, "", 1))
      else if eq != -1 then Some(Step(ret, Some(text[eq + 1..]), "", 1))
      else if o.hasArg.OptionalArgument? then Some(Step(ret, None, "", 1))
      else if tail == [] then Some(Step(env.BadArg(), None, "", 1))
      else Some(Step(ret, Some(tail[0]), "", 2))
  }

  /** The short option letter at the head of place. */
  function ShortStep(env: Env, place: string, tail: seq<string>): (r: Step)
    requires place != ""
    requires place[0] == '-' ==> env.longs.None? || '-' in env.options
    ensures r.Step? ==> r.advance <= 1 + |tail| && (r.place == "" <==> r.advance > 0) && |r.place| < |place|
    ensures r.Step? && env.Valid() ==> r.ret != -1
    ensures r.Stray? <==> place == "-" && '-' !in env.options
  {
    var c, rest := place[0], place[1..];
    var used := if rest == "" then 1 else 0;
    var oli := IndexOf(env.options, c);
    if c == ':' || (c == '-' && rest != "") || oli == -1 then
      if c == '-' && rest == "" then Stray else Step(BADCH, None, rest, used)
    else if env.longs.Some? && c == 'W' && CharAt(env.options, oli + 1, ';') then
      if rest != "" then LongStep(env, rest, false, tail).value
      else if tail == [] then Step(env.BadArg(), None, "", 1)
      else
        var r := LongStep(env, tail[0], false, tail[1..]).value;
        r.(advance := r.advance + 1)
    else if !CharAt(env.options, oli + 1, ':') then Step(c as int, None, rest, used)
    else if rest != "" then Step(c as int, Some(rest), "", 1)
    else if CharAt(env.options, oli + 2, ':') then Step(c as int, None, "", 1)
    else if tail == [] then Step(env.BadArg(), None, "", 1)
    else Step(c as int, Some(tail[0]), "", 2)
  }

  /** One call's work on a non-empty place. atStart: place is the whole argument, which getopt_internal
      leaves so only for a lone "-" that is itself an option letter. */
  function OptionStep(env: Env, place: string, atStart: bool, tail: seq<string>): (r: Step)
    requires place != ""
    requires atStart ==> place == "-" && '-' in env.options
    ensures r.Step? ==> r.advance <= 1 + |tail| && (r.place == "" <==> r.advance > 0) && |r.place| < |place|
    ensures r.Step? && env.Valid() ==> r.ret != -1
    ensures r.Stray? ==> place == "-" && env.longs.None? && '-' !in env.options
  {
    if env.longs.Some? && !atStart && (place[0] == '-' || env.longOnly) then
      var long :=
        if place[0] == '-' then LongStep(env, place[1..], false, tail)
        else LongStep(env, place, place[0] != ':' && place[0] in env.options, tail);
      if long.Some? then long.value else ShortStep(env, place, tail)
    else ShortStep(env, place, tail)
  }

  // ---- the reference parser -------------------------------------------------------------

  /** An argument that is not an option: it does not start with '-', or it is a lone "-" that is not
      an option letter. */
  predicate NonOption(env: Env, arg: string) {
    arg == "" || arg[0] != '-' || (|arg| == 1 && '-' !in env.options)
  }

  /** One returned option: the value and optarg. */
  datatype Event = Event(ret: int, optarg: Option<string>)

  /** What a whole scan comes to: the options returned, the arguments that belong to options (with
      their option arguments and a "--"), the non-options passed on the way, the number of arguments
      up to and including the last of these, the arguments left unread, and whether it ran to its
      end. An argument that the scan stops in is left unread. */
  datatype Scanned = Scanned(events: seq<Event>, opts: seq<string>, passed: seq<string>, last: nat,
                             rest: seq<string>, clean: bool) {
    const nonopts: seq<string> := passed + rest
  }

  function Before(events: seq<Event>, opts: seq<string>, passed: seq<string>, last: nat, s: Scanned): Scanned {
    Scanned(events + s.events, opts + s.opts, passed + s.passed,
            if s.passed == [] then last else |opts| + |passed| + s.last, s.rest, s.clean)
  }

  function ParseOption(env: Env, place: string, atStart: bool, args: seq<string>): (r: Scanned)
    requires place != "" && args != []
    requires atStart ==> place == "-" && '-' in env.options
    ensures r.passed == [] ==> r.last == 0
    decreases |args|, 0, |place|, 0
  {
    match OptionStep(env, place, atStart, args[1..])
    case Stray => Scanned([], [], [], 0, args, false)
    case Step(ret, optarg, rest, n) =>
      if n > 0 then Before([Event(ret, optarg)], args[..n], [], 0, Parse(env, "", args[n..]))
      else Before([Event(ret, optarg)], [], [], 0, Parse(env, rest, args))
  }

  /** Reads the arguments from left to right; place is what is left of the option text of args[0]. */
  function Parse(env: Env, place: string, args: seq<string>): (r: Scanned)
    requires place != "" ==> args != []
    ensures r.passed == [] ==> r.last == 0
    decreases |args|, if place == "" then 1 else 0, |place|
  {
    if place != "" then ParseOption(env, place, false, args)
    else if args == [] then Scanned([], [], [], 0, [], true)
    else if NonOption(env, args[0]) then Before([], [], [args[0]], 1, Parse(env, "", args[1..]))
    else if args[0] == "--" then Scanned([], [args[0]], [], 0, args[1..], true)
    else if |args[0]| == 1 then ParseOption(env, args[0], true, args)
    else ParseOption(env, args[0][1..], false, args)
  }

  lemma ParseContinues(env: Env, place: string, args: seq<string>)
    requires place != "" && args != []
    ensures Parse(env, place, args) == ParseOption(env, place, false, args)
  {
  }

  lemma ParseBegins(env: Env, args: seq<string>)
    requires args != [] && !NonOption(env, args[0])
    ensures Parse(env, "", args) ==
            if args[0] == "--" then Scanned([], ["--"], [], 0, args[1..], true)
            else if |args[0]| == 1 then ParseOption(env, args[0], true, args)
            else ParseOption(env, args[0][1..], false, args)
  {
  }

  lemma ParseSkips(env: Env, args: seq<string>)
    requires args != [] && NonOption(env, args[0])
    ensures Parse(env, "", args) == Before([], [], [args[0]], 1, Parse(env, "", args[1..]))
  {
  }

  lemma ParseEnds(env: Env)
    ensures Parse(env, "", []) == Scanned([], [], [], 0, [], true)
  {
  }

  // ---- the events of a scan, argument by argument ------------------------------------------

  /** The scan of now starts with these events and option arguments and goes on with the scan of later. */
  ghost predicate StartsWith(env: Env, now: seq<string>, events: seq<Event>, opts: seq<string>, later: seq<string>) {
    var s, t := Parse(env, "", now), Parse(env, "", later);
    s.events == events + t.events && s.opts == opts + t.opts
  }

  lemma FoundNotAmbiguous(longs: seq<LongOption>, name: string, shortToo: bool, i: nat)
    requires Meant(longs, name, shortToo, Found(i))
    ensures !Meant(longs, name, shortToo, Ambiguous)
  {
    hide Identical, Abbreviates;
    forall m: nat | FirstAbbreviated(longs, name, shortToo, m) && longs[i].name != name
      ensures AllIdentical(longs, name, shortToo, m, |longs|)
    {
      assert m == i;
    }
  }

  lemma MeantUnique(longs: seq<LongOption>, name: string, shortToo: bool, r: Match, r': Match)
    requires Meant(longs, name, shortToo, r) && Meant(longs, name, shortToo, r')
    ensures r == r'
  {
    hide Identical;
    match (r, r') {
      case (Found(i), Found(j)) => assert i != j ==> i < j || j < i;
      case (Found(i), Ambiguous) => FoundNotAmbiguous(longs, name, shortToo, i);
      case (Ambiguous, Found(i)) => FoundNotAmbiguous(longs, name, shortToo, i);
      case (_, _) =>
    }
  }

  lemma {:induction false} FirstIndex(s: string, c: char, k: nat)
    requires k < |s| && s[k] == c && c !in s[..k]
    ensures IndexOf(s, c) == k
  {
    if k > 0 {
      assert s[0] == s[..k][0];
      assert s[1..][..k - 1] == s[..k][1..];
      FirstIndex(s[1..], c, k - 1);
    }
  }

  lemma EqualsSplits(name: string, value: string)
    requires '=' !in name
    ensures IndexOf(name, '=') == -1
    ensures IndexOf(name + "=" + value, '=') == |name|
    ensures (name + "=" + value)[..|name|] == name && (name + "=" + value)[|name| + 1..] == value
  {
    var text := name + "=" + value;
    assert text[|name|] == '=' && text[..|name|] == name;
    FirstIndex(text, '=', |name|);
  }

  /** An argument that begins an option and is not exhausted by its two dashes. */
  lemma OptionArgument(env: Env, arg: string, rest: seq<string>, step: Step)
    requires |arg| > 1 && arg[0] == '-' && arg != "--"
    requires step.Step? && step.advance > 0 && OptionStep(env, arg[1..], false, rest) == step
    ensures var args := [arg] + rest;
      StartsWith(env, args, [Event(step.ret, step.optarg)], args[..step.advance], args[step.advance..])
  {
    hide OptionStep, Parse;
    var args := [arg] + rest;
    assert args[1..] == rest && args[0] == arg;
    ParseBegins(env, args);
    assert Parse(env, "", args) == ParseOption(env, arg[1..], false, args);
  }

  lemma LongArgument(env: Env, text: string, rest: seq<string>, step: Step)
    requires env.longs.Some? && text != "" && step.Step? && LongStep(env, text, false, rest) == Some(step)
    ensures var args := ["--" + text] + rest;
      StartsWith(env, args, [Event(step.ret, step.optarg)], args[..step.advance], args[step.advance..])
  {
    hide LongStep, StartsWith, ShortStep;
    var arg := "--" + text;
    assert arg[1..] == "-" + text && arg[1..][1..] == text && |arg| > 2;
    OptionArgument(env, arg, rest, step);
  }

  /** name, which contains no '=', means entry i of the long option table. */
  ghost predicate Names(env: Env, name: string, i: nat) {
    && env.longs.Some? && i < |env.longs.value| && '=' !in name
    && Meant(env.longs.value, name, false, Found(i))
  }

  /** What a long option is reported as. */
  function Reported(o: LongOption): int {
    if o.flag.Some? then 0 else o.val
  }

  lemma NamesFound(env: Env, name: string, i: nat)
    requires Names(env, name, i)
    ensures MatchFrom(env.longs.value, name, false, 0, -1, false) == Found(i)
  {
    hide Meant, MatchFrom;
    MatchMeaning(env.longs.value, name, false);
    MeantUnique(env.longs.value, name, false, MatchFrom(env.longs.value, name, false, 0, -1, false), Found(i));
  }

  lemma First(arg: string, rest: seq<string>)
    ensures ([arg] + rest)[..1] == [arg] && ([arg] + rest)[1..] == rest
  {
  }

  /** --name=value for an entry that takes an argument: its value with exactly that argument. */
  lemma LongAttached(env: Env, name: string, value: string, i: nat, rest: seq<string>)
    requires Names(env, name, i) && !env.longs.value[i].hasArg.NoArgument?
    ensures var arg := "--" + name + "=" + value; var o := env.longs.value[i];
      StartsWith(env, [arg] + rest, [Event(if o.flag.Some? then 0 else o.val, Some(value))], [arg], rest)
  {
    hide MatchFrom, Meant, StartsWith, IndexOf;
    var text := name + "=" + value;
    NamesFound(env, name, i);
    EqualsSplits(name, value);
    LongArgument(env, text, rest, Step(Reported(env.longs.value[i]), Some(value), "", 1));
    assert "--" + name + "=" + value == "--" + text;
    First("--" + text, rest);
  }

  lemma FirstTwo(arg: string, value: string, rest: seq<string>)
    ensures [arg] + ([value] + rest) == [arg, value] + rest
    ensures ([arg, value] + rest)[..2] == [arg, value] && ([arg, value] + rest)[2..] == rest
  {
  }

  /** --name value for an entry that requires an argument: both are consumed. */
  lemma LongSeparate(env: Env, name: string, value: string, i: nat, rest: seq<string>)
    requires Names(env, name, i) && name != "" && env.longs.value[i].hasArg.RequiredArgument?
    ensures var arg := "--" + name; var o := env.longs.value[i];
      StartsWith(env, [arg, value] + rest, [Event(if o.flag.Some? then 0 else o.val, Some(value))], [arg, value], rest)
  {
    hide MatchFrom, Meant, StartsWith, IndexOf;
    NamesFound(env, name, i);
    EqualsSplits(name, value);
    LongArgument(env, name, [value] + rest, Step(Reported(env.longs.value[i]), Some(value), "", 2));
    FirstTwo("--" + name, value, rest);
  }

  /** --name for an entry without argument or with an optional one: the next argument is not taken. */
  lemma LongAlone(env: Env, name: string, i: nat, rest: seq<string>)
    requires Names(env, name, i) && name != "" && !env.longs.value[i].hasArg.RequiredArgument?
    ensures var arg := "--" + name; var o := env.longs.value[i];
      StartsWith(env, [arg] + rest, [Event(if o.flag.Some? then 0 else o.val, None)], [arg], rest)
  {
    hide MatchFrom, Meant, StartsWith, IndexOf;
    NamesFound(env, name, i);
    EqualsSplits(name, "");
    LongArgument(env, name, rest, Step(Reported(env.longs.value[i]), None, "", 1));
    First("--" + name, rest);
  }

  /** What is reported for a missing or superfluous argument. */
  predicate IsBadArg(env: Env, r: int) {
    r == if |env.options| > 0 && env.options[0] == ':' then ':' as int else '?' as int
  }

  /** A required argument that is missing at the end, and an argument for an entry that takes none. */
  lemma LongMissing(env: Env, name: string, i: nat)
    requires Names(env, name, i) && name != "" && env.longs.value[i].hasArg.RequiredArgument?
    ensures IsBadArg(env, env.BadArg())
    ensures StartsWith(env, ["--" + name], [Event(env.BadArg(), None)], ["--" + name], [])
  {
    hide MatchFrom, Meant, StartsWith, IndexOf;
    NamesFound(env, name, i);
    EqualsSplits(name, "");
    LongArgument(env, name, [], Step(env.BadArg(), None, "", 1));
    First("--" + name, []);
    assert ["--" + name] + [] == ["--" + name];
  }

  lemma LongSuperfluous(env: Env, name: string, value: string, i: nat, rest: seq<string>)
    requires Names(env, name, i) && env.longs.value[i].hasArg.NoArgument?
    ensures IsBadArg(env, env.BadArg())
    ensures var arg := "--" + name + "=" + value;
      StartsWith(env, [arg] + rest, [Event(env.BadArg(), None)], [arg], rest)
  {
    hide MatchFrom, Meant, StartsWith, IndexOf;
    var text := name + "=" + value;
    NamesFound(env, name, i);
    EqualsSplits(name, value);
    LongArgument(env, text, rest, Step(env.BadArg(), None, "", 1));
    assert "--" + name + "=" + value == "--" + text;
    First("--" + text, rest);
  }

  /** A name that means no entry, or several: a question mark. */
  lemma LongUnknown(env: Env, name: string, rest: seq<string>)
    requires env.longs.Some? && '=' !in name && name != ""
    requires Meant(env.longs.value, name, false, NotFound) || Meant(env.longs.value, name, false, Ambiguous)
    ensures StartsWith(env, ["--" + name] + rest, [Event('?' as int, None)], ["--" + name], rest)
  {
    hide MatchFrom, Meant, StartsWith, IndexOf;
    var longs := env.longs.value;
    var r := MatchFrom(longs, name, false, 0, -1, false);
    MatchMeaning(longs, name, false);
    if Meant(longs, name, false, NotFound) {
      MeantUnique(longs, name, false, r, NotFound);
    } else {
      MeantUnique(longs, name, false, r, Ambiguous);
    }
    EqualsSplits(name, "");
    LongArgument(env, name, rest, Step('?' as int, None, "", 1));
    First("--" + name, rest);
  }

  /** The letter c stands first at position k of the option string, and is tried as a short option. */
  predicate Letter(env: Env, c: char, k: nat) {
    && k < |env.options| && env.options[k] == c && c !in env.options[..k]
    && c != ':' && c != '-' && !(env.longs.Some? && env.longOnly)
    && !(env.longs.Some? && c == 'W' && CharAt(env.options, k + 1, ';'))
  }

  lemma LetterIndex(env: Env, c: char, k: nat)
    requires Letter(env, c, k)
    ensures IndexOf(env.options, c) == k
  {
    FirstIndex(env.options, c, k);
  }

  lemma ShortArgument(env: Env, c: char, text: string, rest: seq<string>, step: Step)
    requires c != '-' && !(env.longs.Some? && env.longOnly)
    requires step.Step? && step.advance > 0 && ShortStep(env, [c] + text, rest) == step
    ensures var args := ["-" + [c] + text] + rest;
      StartsWith(env, args, [Event(step.ret, step.optarg)], args[..step.advance], args[step.advance..])
  {
    hide LongStep, ShortStep, StartsWith;
    var arg := "-" + [c] + text;
    assert arg[1..] == [c] + text && arg[1] == c;
    OptionArgument(env, arg, rest, step);
  }

  /** -cvalue for a letter followed by ':' in the option string. */
  lemma ShortAttached(env: Env, c: char, value: string, k: nat, rest: seq<string>)
    requires Letter(env, c, k) && CharAt(env.options, k + 1, ':') && value != ""
    ensures var arg := "-" + [c] + value;
      StartsWith(env, [arg] + rest, [Event(c as int, Some(value))], [arg], rest)
  {
    hide StartsWith, IndexOf, LongStep;
    LetterIndex(env, c, k);
    assert ([c] + value)[1..] == value;
    ShortArgument(env, c, value, rest, Step(c as int, Some(value), "", 1));
    First("-" + [c] + value, rest);
  }

  lemma Cluster(c: char)
    ensures "-" + [c] + "" == "-" + [c] && [c] + "" == [c] && [c][1..] == ""
  {
  }

  /** -c value when the argument is required. */
  lemma ShortSeparate(env: Env, c: char, value: string, k: nat, rest: seq<string>)
    requires Letter(env, c, k) && CharAt(env.options, k + 1, ':') && !CharAt(env.options, k + 2, ':')
    ensures var arg := "-" + [c];
      StartsWith(env, [arg, value] + rest, [Event(c as int, Some(value))], [arg, value], rest)
  {
    hide StartsWith, IndexOf, LongStep;
    LetterIndex(env, c, k);
    Cluster(c);
    ShortArgument(env, c, "", [value] + rest, Step(c as int, Some(value), "", 2));
    FirstTwo("-" + [c], value, rest);
  }

  /** -c for a letter without argument or with an optional one: the next argument is not taken. */
  lemma ShortAlone(env: Env, c: char, k: nat, rest: seq<string>)
    requires Letter(env, c, k) && (CharAt(env.options, k + 1, ':') ==> CharAt(env.options, k + 2, ':'))
    ensures StartsWith(env, ["-" + [c]] + rest, [Event(c as int, None)], ["-" + [c]], rest)
  {
    hide StartsWith, IndexOf, LongStep;
    LetterIndex(env, c, k);
    Cluster(c);
    ShortArgument(env, c, "", rest, Step(c as int, None, "", 1));
    First("-" + [c], rest);
  }

  lemma ShortMissing(env: Env, c: char, k: nat)
    requires Letter(env, c, k) && CharAt(env.options, k + 1, ':') && !CharAt(env.options, k + 2, ':')
    ensures IsBadArg(env, env.BadArg())
    ensures StartsWith(env, ["-" + [c]], [Event(env.BadArg(), None)], ["-" + [c]], [])
  {
    hide StartsWith, IndexOf, LongStep;
    LetterIndex(env, c, k);
    Cluster(c);
    ShortArgument(env, c, "", [], Step(env.BadArg(), None, "", 1));
    First("-" + [c], []);
    assert ["-" + [c]] + [] == ["-" + [c]];
  }

  lemma ShortUnknown(env: Env, c: char, rest: seq<string>)
    requires c != '-' && (c == ':' || c !in env.options) && !(env.longs.Some? && env.longOnly)
    ensures StartsWith(env, ["-" + [c]] + rest, [Event('?' as int, None)], ["-" + [c]], rest)
  {
    hide StartsWith, LongStep;
    Cluster(c);
    ShortArgument(env, c, "", rest, Step('?' as int, None, "", 1));
    First("-" + [c], rest);
  }

  /** The events of a cluster do not depend on the argument it is part of. */
  lemma {:induction false} HeadIrrelevant(env: Env, place: string, a: string, b: string, rest: seq<string>)
    requires place != ""
    ensures Parse(env, place, [a] + rest).events == Parse(env, place, [b] + rest).events
    decreases |place|
  {
    hide OptionStep;
    assert ([a] + rest)[1..] == rest && ([b] + rest)[1..] == rest;
    match OptionStep(env, place, false, rest)
    case Stray =>
    case Step(ret, optarg, left, n) =>
      if n > 0 {
        assert ([a] + rest)[n..] == ([b] + rest)[n..];
      } else {
        HeadIrrelevant(env, left, a, b, rest);
      }
  }

  lemma ClusterStep(env: Env, c: char, k: nat, more: string, args: seq<string>)
    requires Letter(env, c, k) && !CharAt(env.options, k + 1, ':') && more != "" && args != []
    ensures ParseOption(env, [c] + more, false, args).events
         == [Event(c as int, None)] + Parse(env, more, args).events
  {
    hide IndexOf, LongStep, Parse;
    LetterIndex(env, c, k);
    assert ([c] + more)[1..] == more;
    assert OptionStep(env, [c] + more, false, args[1..]) == Step(c as int, None, more, 0);
  }

  /** A letter without argument in front of others: its event, and then those of the others. */
  lemma ShortCluster(env: Env, c: char, k: nat, more: string, rest: seq<string>)
    requires Letter(env, c, k) && !CharAt(env.options, k + 1, ':') && more != "" && more[0] != '-'
    ensures Parse(env, "", ["-" + [c] + more] + rest).events
         == [Event(c as int, None)] + Parse(env, "", ["-" + more] + rest).events
  {
    hide IndexOf, LongStep, ParseOption;
    LetterIndex(env, c, k);
    var arg := "-" + [c] + more;
    var args := [arg] + rest;
    assert args[1..] == rest && arg[1..] == [c] + more && ([c] + more)[1..] == more && arg[1] == c;
    ClusterStep(env, c, k, more, args);
    ParseContinues(env, more, args);
    HeadIrrelevant(env, more, arg, "-" + more, rest);
    assert ("-" + more)[1..] == more;
    ParseContinues(env, more, ["-" + more] + rest);
  }

  /** -Wtext and -W text with W; among the options report what --text does. */
  lemma DashW(env: Env, k: nat, text: string, rest: seq<string>)
    requires env.longs.Some? && !env.longOnly && text != ""
    requires k + 1 < |env.options| && env.options[k] == 'W' && env.options[k + 1] == ';' && 'W' !in env.options[..k]
    ensures var long := Parse(env, "", ["--" + text] + rest);
      && Parse(env, "", ["-W" + text] + rest).events == long.events
      && Parse(env, "", ["-W", text] + rest).events == long.events
  {
    hide LongStep, Parse, IndexOf;
    FirstIndex(env.options, 'W', k);
    var step := LongStep(env, text, false, rest).value;
    LongArgument(env, text, rest, step);
    assert ("-W" + text)[1..] == "W" + text && ("W" + text)[1..] == text && |"-W" + text| > 2;
    OptionArgument(env, "-W" + text, rest, step);
    assert "-W"[1..] == "W" && "W"[1..] == "" && ([text] + rest)[0] == text && ([text] + rest)[1..] == rest;
    OptionArgument(env, "-W", [text] + rest, step.(advance := step.advance + 1));
    assert ["-W", text] + rest == ["-W"] + ([text] + rest);
    assert (["-W"] + ([text] + rest))[step.advance + 1..] == (["--" + text] + rest)[step.advance..];
    assert (["-W" + text] + rest)[step.advance..] == (["--" + text] + rest)[step.advance..];
  }

  /** With FLAG_LONGONLY a single dash will do, unless the text starts with a short option letter. */
  lemma OneDash(env: Env, text: string, rest: seq<string>)
    requires env.longs.Some? && env.longOnly
    requires text != "" && text[0] != '-' && (text[0] == ':' || text[0] !in env.options)
    ensures Parse(env, "", ["-" + text] + rest).events == Parse(env, "", ["--" + text] + rest).events
  {
    hide LongStep, Parse, ShortStep;
    var step := LongStep(env, text, false, rest).value;
    LongArgument(env, text, rest, step);
    assert ("-" + text)[1..] == text && ("-" + text)[1] == text[0];
    OptionArgument(env, "-" + text, rest, step);
    assert (["-" + text] + rest)[step.advance..] == (["--" + text] + rest)[step.advance..];
  }

  /** The end of options. */
  lemma DoubleDashEnds(env: Env, rest: seq<string>)
    ensures var s := Parse(env, "", ["--"] + rest); s.events == [] && s.opts == ["--"] && s.nonopts == rest && s.clean
  {
    assert (["--"] + rest)[1..] == rest;
  }

  /** Arguments that do not start with a dash are passed, as is a lone dash that is no option letter. */
  lemma OtherPassed(env: Env, arg: string, rest: seq<string>)
    requires arg == "" || arg[0] != '-' || (arg == "-" && '-' !in env.options)
    ensures var s, t := Parse(env, "", [arg] + rest), Parse(env, "", rest);
      s.events == t.events && s.opts == t.opts && s.nonopts == [arg] + t.nonopts
  {
    assert ([arg] + rest)[1..] == rest;
    ParseSkips(env, [arg] + rest);
  }

  // ---- meaning of the reference parser --------------------------------------------------

  /** The elements of s where mask is v, in order. */
  function Select(s: seq<string>, mask: seq<bool>, v: bool): (r: seq<string>)
    requires |s| == |mask|
  {
    if s == [] then [] else (if mask[0] == v then [s[0]] else []) + Select(s[1..], mask[1..], v)
  }

  lemma SelectNone(v: bool)
    ensures Select([], [], v) == []
  {
  }

  lemma SelectFirst(c: string, s: seq<string>, b: bool, m: seq<bool>, v: bool)
    requires |s| == |m|
    ensures Select([c] + s, [b] + m, v) == (if b == v then [c] else []) + Select(s, m, v)
  {
    assert ([c] + s)[1..] == s && ([b] + m)[1..] == m;
  }

  lemma Regroup<T>(a: seq<T>, b: seq<T>, c: seq<T>)
    ensures (a + b) + c == a + (b + c)
  {
  }

  lemma {:induction false} SelectConcat(s: seq<string>, m: seq<bool>, s': seq<string>, m': seq<bool>, v: bool)
    requires |s| == |m| && |s'| == |m'|
    ensures Select(s + s', m + m', v) == Select(s, m, v) + Select(s', m', v)
  {
    hide Select;
    if s == [] {
      SelectNone(v);
      assert s + s' == s' && m + m' == m';
    } else {
      var c, b, rest, mask := s[0], m[0], s[1..], m[1..];
      assert s == [c] + rest && m == [b] + mask;
      Regroup([c], rest, s');
      Regroup([b], mask, m');
      SelectFirst(c, rest, b, mask, v);
      SelectFirst(c, rest + s', b, mask + m', v);
      SelectConcat(rest, mask, s', m', v);
      Regroup(if b == v then [c] else [], Select(rest, mask, v), Select(s', m', v));
    }
  }

  lemma {:induction false} SelectAll(s: seq<string>, v: bool)
    ensures Select(s, seq(|s|, _ => v), v) == s && Select(s, seq(|s|, _ => v), !v) == []
  {
    if s != [] {
      SelectAll(s[1..], v);
      assert seq(|s|, _ => v)[1..] == seq(|s| - 1, _ => v);
    }
  }

  /** A mask that starts with the n arguments of an option. */
  lemma SelectOption(args: seq<string>, n: nat, m: seq<bool>) returns (mask: seq<bool>)
    requires n <= |args| && |m| == |args| - n
    ensures |mask| == |args|
    ensures Select(args, mask, true) == args[..n] + Select(args[n..], m, true)
    ensures Select(args, mask, false) == Select(args[n..], m, false)
  {
    hide Select;
    mask := seq(n, _ => true) + m;
    assert args == args[..n] + args[n..];
    SelectAll(args[..n], true);
    SelectConcat(args[..n], seq(n, _ => true), args[n..], m, true);
    SelectConcat(args[..n], seq(n, _ => true), args[n..], m, false);
  }

  lemma BeforeNonopts(e: seq<Event>, o: seq<string>, n: seq<string>, l: nat, s: Scanned)
    ensures Before(e, o, n, l, s).nonopts == n + s.nonopts
  {
  }

  lemma {:induction false} OptionIsStablePartition(env: Env, place: string, atStart: bool, args: seq<string>)
    returns (mask: seq<bool>)
    requires place != "" && args != []
    requires atStart ==> place == "-" && '-' in env.options
    ensures |mask| == |args|
    ensures ParseOption(env, place, atStart, args).opts == Select(args, mask, true)
    ensures ParseOption(env, place, atStart, args).nonopts == Select(args, mask, false)
    decreases |args|, 0, |place|, 0
  {
    hide Parse, OptionStep, Select;
    match OptionStep(env, place, atStart, args[1..])
    case Stray =>
      SelectAll(args, false);
      mask := seq(|args|, _ => false);
    case Step(ret, optarg, rest, n) =>
      if n > 0 {
        var m := ScanIsStablePartition(env, "", args[n..]);
        mask := SelectOption(args, n, m);
        BeforeNonopts([Event(ret, optarg)], args[..n], [], 0, Parse(env, "", args[n..]));
      } else {
        mask := ScanIsStablePartition(env, rest, args);
      }
  }

  /** A scan splits the arguments into options and others and keeps both in their order. */
  lemma {:induction false} ScanIsStablePartition(env: Env, place: string, args: seq<string>) returns (mask: seq<bool>)
    requires place != "" ==> args != []
    ensures |mask| == |args|
    ensures Parse(env, place, args).opts == Select(args, mask, true)
    ensures Parse(env, place, args).nonopts == Select(args, mask, false)
    decreases |args|, if place == "" then 1 else 0, |place|
  {
    if place != "" {
      mask := OptionIsStablePartition(env, place, false, args);
    } else if args == [] {
      mask := [];
    } else if NonOption(env, args[0]) {
      var m := ScanIsStablePartition(env, "", args[1..]);
      mask := [false] + m;
    } else if args[0] == "--" {
      SelectAll(args[1..], false);
      mask := [true] + seq(|args| - 1, _ => false);
      assert mask[1..] == seq(|args| - 1, _ => false);
    } else if |args[0]| == 1 {
      mask := OptionIsStablePartition(env, args[0], true, args);
    } else {
      mask := OptionIsStablePartition(env, args[0][1..], false, args);
    }
  }

  // ---- the state machine ----------------------------------------------------------------

  /** The scan stopped inside a cluster: up to the last non-option passed the arguments are
      partitioned, behind it they lie as they were given, and optind is at the cluster. */
  ghost predicate StopsInside(now: seq<string>, optind: int, head: seq<string>, args: seq<string>, s: Scanned) {
    var k := |s.opts| + |s.passed| - s.last;
    && 0 <= k <= |s.opts| && s.last <= |args|
    && now == head + s.opts[..|s.opts| - k] + s.passed + args[s.last..]
    && optind == |head| + |s.opts| + |s.passed|
  }

  lemma BeforeBefore(e: seq<Event>, o: seq<string>, n: seq<string>, l: nat,
                     e': seq<Event>, o': seq<string>, n': seq<string>, l': nat, s: Scanned)
    ensures Before(e, o, n, l, Before(e', o', n', l', s))
         == Before(e + e', o + o', n + n', if n' == [] then l else |o| + |n| + l', s)
  {
  }

  /** How far a scan has come: of orig, done arguments are read; they now lie in nargv as
      pre ++ non ++ post, where non are the skipped non-options. */
  datatype Progress = Progress(head: seq<string>, orig: seq<string>, done: nat,
                               pre: seq<string>, non: seq<string>, post: seq<string>, last: nat, events: seq<Event>)
  {
    ghost function Layout(): seq<string>
      requires done <= |orig|
    {
      head + pre + non + post + orig[done..]
    }

    /** What is returned so far, followed by s, is what the reference parser makes of orig. */
    ghost predicate FollowedBy(env: Env, s: Scanned) {
      Parse(env, "", orig) == Before(events, pre + post, non, last, s)
    }

    /** The options behind the skipped non-options are what was read since the last of these. */
    ghost predicate PostIsRecent() {
      && last <= done <= |orig|
      && if non == [] then last == 0 && pre == orig[..done] else post == orig[last..done]
    }

    /** permute_args takes the non-options behind the options that follow them. */
    lemma Exchange(now: seq<string>)
      requires done <= |orig| && |pre| + |non| + |post| == done && now == Layout()
      ensures var start := |head| + |pre|;
              Exchanged(now, start, start + |non|, start + |non| + |post|)
              == this.(pre := pre + post, post := []).Layout()
    {
    }

    lemma SkipKeepsLayout()
      requires done < |orig| && post == [] && |pre| + |non| == done
      ensures var q := this.(non := non + [orig[done]], last := done + 1, done := done + 1);
              q.Layout() == Layout() && q.PostIsRecent()
    {
      assert orig[done..] == [orig[done]] + orig[done + 1..];
    }

    lemma Skip(env: Env) returns (q: Progress)
      requires done < |orig| && NonOption(env, orig[done])
      requires FollowedBy(env, Parse(env, "", orig[done..])) && post == [] && |pre| + |non| == done
      ensures q == this.(non := non + [orig[done]], last := done + 1, done := done + 1)
      ensures q.FollowedBy(env, Parse(env, "", orig[done + 1..]))
      ensures q.Layout() == Layout() && q.PostIsRecent()
    {
      hide Parse, NonOption, Progress.Layout, Progress.PostIsRecent;
      q := this.(non := non + [orig[done]], last := done + 1, done := done + 1);
      SkipKeepsLayout();
      assert orig[done..][1..] == orig[done + 1..];
      ParseSkips(env, orig[done..]);
      BeforeBefore(events, pre + post, non, last, [], [], [orig[done]], 1, Parse(env, "", orig[done + 1..]));
    }

    /** n arguments are read as one option. */
    function Take(n: nat, ev: seq<Event>): Progress
      requires done + n <= |orig|
    {
      var args := orig[done..done + n];
      if non == [] then this.(pre := pre + args, done := done + n, events := events + ev)
      else this.(post := post + args, done := done + n, events := events + ev)
    }

    lemma TakeFollows(env: Env, n: nat, ev: seq<Event>, s: Scanned)
      requires done + n <= |orig| && (non == [] ==> post == [])
      requires FollowedBy(env, Before(ev, orig[done..done + n], [], 0, s))
      ensures Take(n, ev).FollowedBy(env, s)
    {
      BeforeBefore(events, pre + post, non, last, ev, orig[done..done + n], [], 0, s);
      assert non + [] == non;
      assert Take(n, ev).pre + Take(n, ev).post == pre + post + orig[done..done + n];
    }

    lemma TakeKeepsLayout(n: nat, ev: seq<Event>)
      requires done + n <= |orig| && (non == [] ==> post == [])
      ensures Take(n, ev).Layout() == Layout()
    {
      assert orig[done..] == orig[done..done + n] + orig[done + n..];
    }

    lemma TakeRecent(n: nat, ev: seq<Event>)
      requires done + n <= |orig| && (non == [] ==> post == []) && PostIsRecent()
      ensures Take(n, ev).PostIsRecent()
    {
      if non == [] {
        assert orig[..done + n] == orig[..done] + orig[done..done + n];
      } else {
        assert orig[last..done + n] == orig[last..done] + orig[done..done + n];
      }
    }

    /** Reading one option of n arguments. */
    lemma TakeOne(env: Env, n: nat, ev: seq<Event>, s: Scanned)
      requires done + n <= |orig| && (non == [] ==> post == []) && |pre| + |non| + |post| == done
      requires FollowedBy(env, Before(ev, orig[done..done + n], [], 0, s))
      ensures var q := Take(n, ev);
              && q.head == head && q.orig == orig && q.non == non && q.done == done + n && q.events == events + ev
              && q.FollowedBy(env, s) && q.Layout() == Layout() && |q.pre| + |q.non| + |q.post| == q.done
              && (if non == [] then q.post == [] else |q.pre| == |pre| && |q.post| == |post| + n)
    {
      TakeFollows(env, n, ev, s);
      TakeKeepsLayout(n, ev);
    }

    /** The progress after one option has been read from the text of the current argument. */
    lemma ReadOption(env: Env, text: string, atStart: bool) returns (q: Progress)
      requires text != "" && done < |orig| && (atStart ==> text == "-" && '-' in env.options)
      requires (non == [] ==> post == []) && |pre| + |non| + |post| == done && PostIsRecent()
      requires FollowedBy(env, ParseOption(env, text, atStart, orig[done..]))
      requires OptionStep(env, text, atStart, orig[done..][1..]).Step?
      ensures var step := OptionStep(env, text, atStart, orig[done..][1..]);
              && q == Take(step.advance, [Event(step.ret, step.optarg)])
              && q.head == head && q.orig == orig && q.non == non && q.done == done + step.advance
              && q.events == events + [Event(step.ret, step.optarg)]
              && (step.place != "" ==> q.done < |orig|) && q.FollowedBy(env, Parse(env, step.place, q.orig[q.done..]))
              && q.Layout() == Layout() && |q.pre| + |q.non| + |q.post| == q.done
              && (if non == [] then q.post == [] else |q.pre| == |pre| && |q.post| == |post| + step.advance)
              && q.PostIsRecent()
    {
      hide OptionStep, Parse, Progress.Layout, Progress.FollowedBy, Progress.Take, Progress.PostIsRecent;
      var step, args := OptionStep(env, text, atStart, orig[done..][1..]), orig[done..];
      var n, ev := step.advance, [Event(step.ret, step.optarg)];
      assert args[n..] == orig[done + n..] && args[..n] == orig[done..done + n];
      TakeOne(env, n, ev, Parse(env, step.place, orig[done + n..]));
      TakeRecent(n, ev);
      q := Take(n, ev);
    }

    /** The progress after "--". */
    lemma ReadDashes(env: Env) returns (q: Progress)
      requires done < |orig| && orig[done] == "--"
      requires (non == [] ==> post == []) && |pre| + |non| + |post| == done && PostIsRecent()
      requires FollowedBy(env, Scanned([], ["--"], [], 0, orig[done + 1..], true))
      ensures q.head == head && q.orig == orig && q.non == non && q.done == done + 1 && q.events == events
      ensures q.FollowedBy(env, Scanned([], [], [], 0, orig[done + 1..], true)) && q.Layout() == Layout()
      ensures |q.pre| + |q.non| + |q.post| == q.done && q.PostIsRecent()
      ensures if non == [] then q.post == [] else |q.pre| == |pre| && |q.post| == |post| + 1
    {
      hide Parse, Progress.Layout, Progress.FollowedBy, Progress.Take, Progress.PostIsRecent;
      var s := Scanned([], [], [], 0, orig[done + 1..], true);
      assert orig[done..done + 1] == ["--"];
      assert Before([], ["--"], [], 0, s) == Scanned([], ["--"], [], 0, orig[done + 1..], true);
      TakeOne(env, 1, [], s);
      TakeRecent(1, []);
      assert events + [] == events;
      q := Take(1, []);
    }

    /** permute_args does not change what has been read. */
    lemma PermutedFollows(env: Env, s: Scanned)
      requires FollowedBy(env, s)
      ensures this.(pre := pre + post, post := []).FollowedBy(env, s)
    {
      hide Parse;
      assert pre + post + [] == pre + post;
    }

    /** With all non-options behind, what is left unread are non-options too. */
    lemma AtEnd(env: Env)
      requires done <= |orig| && post == []
      requires FollowedBy(env, Scanned([], [], [], 0, orig[done..], true))
      ensures var s := Parse(env, "", orig);
              s.events == events && s.clean && s.opts == pre && Layout() == head + s.opts + s.nonopts
    {
      assert pre + post == pre && pre + [] == pre && events + [] == events;
      assert head + pre + non + [] + orig[done..] == head + pre + (non + orig[done..]);
    }

    lemma AtStray(env: Env)
      requires done <= |orig|
      requires FollowedBy(env, Scanned([], [], [], 0, orig[done..], false))
      ensures var s := Parse(env, "", orig);
              s.events == events && !s.clean && s.opts == pre + post && s.passed == non && s.rest == orig[done..]
              && s.last == last
    {
    }

    /** Where everything lies when the scan stops inside a cluster. */
    lemma Inside(s: Scanned)
      requires s.opts == pre + post && s.passed == non && s.last == last && done <= |orig| && s.rest == orig[done..]
      requires (non == [] ==> post == []) && |pre| + |non| + |post| == done && PostIsRecent()
      ensures StopsInside(Layout(), |head| + done, head, orig, s)
      ensures s.passed == [] ==> Layout() == head + s.opts + s.nonopts
    {
      var k := |s.opts| + |s.passed| - s.last;
      if non == [] {
        assert s.opts == pre && s.opts[..|s.opts| - k] == [] && orig[s.last..] == pre + orig[done..];
      } else {
        assert s.opts[..|s.opts| - k] == pre;
        assert orig[s.last..] == post + orig[done..];
      }
    }

    lemma StrayOption(env: Env, text: string, atStart: bool)
      requires text != "" && done < |orig| && (atStart ==> text == "-" && '-' in env.options)
      requires FollowedBy(env, ParseOption(env, text, atStart, orig[done..]))
      requires OptionStep(env, text, atStart, orig[done..][1..]).Stray?
      ensures var s := Parse(env, "", orig);
              s.events == events && !s.clean && s.opts == pre + post && s.passed == non && s.rest == orig[done..]
              && s.last == last
    {
      hide OptionStep, Parse;
      AtStray(env);
    }

    lemma Current()
      requires done <= |orig| && |pre| + |non| + |post| == done
      ensures |Layout()| == |head| + |orig|
      ensures Layout()[|head| + done..] == orig[done..]
      ensures done < |orig| ==> Layout()[|head| + done] == orig[done]
    {
    }
  }

  class Scanner {
    const env: Env
    const nargv: array<string>
    var optind: nat
    var optreset: bool
    var place: string
    var nonoptStart: int
    var nonoptEnd: int
    var optarg: Option<string>
    ghost var p: Progress

    /** optind set to 0, or optreset: the next call starts a new scan. */
    predicate Fresh()
      reads this
    {
      optind == 0 || optreset
    }

    /** The array, optind and the two non-option marks say the same as p. */
    ghost predicate Consistent()
      reads this, nargv
    {
      && p.done <= |p.orig| && |p.pre| + |p.non| + |p.post| == p.done
      && nargv[..] == p.Layout()
      && optind == |p.head| + p.done
      && (nonoptStart == -1 ==> p.non == [] && nonoptEnd == -1)
      && (nonoptStart != -1 ==> p.non != [] && nonoptStart == |p.head| + |p.pre|)
      && (nonoptEnd == -1 ==> p.post == [])
      && (nonoptEnd != -1 ==> nonoptStart != -1 && nonoptEnd == nonoptStart + |p.non|)
      && p.PostIsRecent()
    }

    ghost predicate Valid()
      reads this, nargv
    {
      && env.Valid()
      && if Fresh() then
           && p == Progress(p.head, p.orig, 0, [], [], [], 0, [])
           && |p.head| == (if optind == 0 then 1 else optind)
           && nargv[..] == p.head + p.orig
         else
           && Consistent()
           && (place != "" ==> p.done < |p.orig| && (nonoptStart != -1 ==> nonoptEnd != -1))
           && (place == "" && nonoptEnd != -1 ==> p.post != [])
           && p.FollowedBy(env, Parse(env, place, p.orig[p.done..]))
    }

    constructor (env: Env, nargv: array<string>)
      requires env.Valid() && nargv.Length > 0
      ensures Valid() && Fresh() && this.env == env && this.nargv == nargv
      ensures p.head == nargv[..1] && p.orig == nargv[1..]
    {
      this.env, this.nargv := env, nargv;
      optind, optreset, place, nonoptStart, nonoptEnd, optarg := 1, true, "", -1, -1, None;
      p := Progress(nargv[..1], nargv[1..], 0, [], [], [], 0, []);
    }

    /** parse_long_options on the text at place. */
    method ParseLongOptions(shortToo: bool) returns (r: int)
      requires env.longs.Some? && optind < nargv.Length && optarg.None?
      modifies this`optind, this`optarg
      ensures match LongStep(env, place, shortToo, nargv[old(optind) + 1..])
              case None => r == -1 && optind == old(optind) && optarg.None?
              case Some(s) => r == s.ret && optind == old(optind) + s.advance && optarg == s.optarg
    {
      hide IndexOf, Identical, Meant;
      var longs := env.longs.value;
      var m := -1;
      var ambiguous := false;
      ghost var tail := nargv[optind + 1..];
      optind := optind + 1;
      var hasEqual := IndexOf(place, '=');
      var name := if hasEqual != -1 then place[..hasEqual] else place;
      ghost var want := MatchFrom(longs, name, shortToo, 0, -1, false);
      MatchInRange(longs, name, shortToo);
      var i := 0;
      var exact := false;
      while i < |longs| && !exact
        invariant 0 <= i <= |longs| && -1 <= m < |longs|
        invariant exact ==> m >= 0 && want == Found(m) && !ambiguous
        invariant !exact ==> want == MatchFrom(longs, name, shortToo, i, m, ambiguous)
        invariant m == -1 ==> !ambiguous
        decreases |longs| - i, !exact
      {
        if name <= longs[i].name {
          if |longs[i].name| == |name| {
            m, ambiguous, exact := i, false, true;
          } else if !(shortToo && |name| == 1) {
            if m == -1 {
              m := i;
            } else if !Identical(longs[i], longs[m]) {
              ambiguous := true;
            }
          }
        }
        if !exact {
          i := i + 1;
        }
      }
      if ambiguous {
        return BADCH;
      }
      if m == -1 {
        if shortToo {
          optind := optind - 1;
          return -1;
        }
        return BADCH;
      }
      var o := longs[m];
      if o.hasArg.NoArgument? && hasEqual != -1 {
        return env.BadArg();
      }
      if !o.hasArg.NoArgument? {
        if hasEqual != -1 {
          optarg := Some(place[hasEqual + 1..]);
        } else if o.hasArg.RequiredArgument? {
          if optind < nargv.Length {
            optarg := Some(nargv[optind]);
          }
          optind := optind + 1;
        }
      }
      if o.hasArg.RequiredArgument? && optarg.None? {
        optind := optind - 1;
        return env.BadArg();
      }
      return if o.flag.Some? then 0 else o.val;
    }

    /** The fields now hold what step says, after a call that began at optind i. */
    ghost predicate Did(step: Step, r: int, i: nat)
      reads this
    {
      match step
      case Stray => r == -1 && optind == i && place == "" && optarg.None?
      case Step(ret, arg, rest, n) => r == ret && optind == i + n && optarg == arg && place == rest
    }

    /** The short option letter at place. */
    method ShortOption() returns (r: int)
      requires env.Valid() && place != "" && optind < nargv.Length && optarg.None?
      requires place[0] == '-' ==> env.longs.None? || '-' in env.options
      modifies this`optind, this`optarg, this`place
      ensures Did(ShortStep(env, old(place), nargv[old(optind) + 1..]), r, old(optind))
    {
      hide IndexOf, CharAt, LongStep;
      var c := place[0];
      place := place[1..];
      var oli := IndexOf(env.options, c);
      if c == ':' || (c == '-' && place != "") || oli == -1 {
        if c == '-' && place == "" {
          return -1;
        }
        if place == "" {
          optind := optind + 1;
        }
        return BADCH;
      }
      if env.longs.Some? && c == 'W' && CharAt(env.options, oli + 1, ';') {
        if place == "" {
          optind := optind + 1;
          if optind >= nargv.Length {
            return env.BadArg();
          }
          place := nargv[optind];
        }
        r := ParseLongOptions(false);
        place := "";
        return r;
      }
      if !CharAt(env.options, oli + 1, ':') {
        if place == "" {
          optind := optind + 1;
        }
      } else {
        if place != "" {
          optarg := Some(place);
        } else if !CharAt(env.options, oli + 2, ':') {
          optind := optind + 1;
          if optind >= nargv.Length {
            return env.BadArg();
          }
          optarg := Some(nargv[optind]);
        }
        place := "";
        optind := optind + 1;
      }
      return c as int;
    }

    /** The part of getopt_internal after the scanning pointer is set. */
    method TakeOption(atStart: bool) returns (r: int)
      requires env.Valid() && place != "" && optind < nargv.Length && optarg.None?
      requires atStart ==> place == "-" && '-' in env.options
      modifies this`optind, this`optarg, this`place
      ensures Did(OptionStep(env, old(place), atStart, nargv[old(optind) + 1..]), r, old(optind))
    {
      hide LongStep, ShortStep;
      if env.longs.Some? && !atStart && (place[0] == '-' || env.longOnly) {
        var shortToo := false;
        if place[0] == '-' {
          place := place[1..];
        } else if place[0] != ':' && place[0] in env.options {
          shortToo := true;
        }
        var optchar := ParseLongOptions(shortToo);
        if optchar != -1 {
          place := "";
          return optchar;
        }
      }
      r := ShortOption();
    }

    /** "do permutation, if we have to": the skipped non-options move behind what follows them. */
    method PermuteSkipped()
      requires Consistent() && (nonoptEnd != -1 ==> p.post != [])
      modifies nargv, this`p
      ensures p == old(p).(pre := old(p).pre + old(p).post, post := [])
      ensures nargv[..] == p.Layout()
    {
      hide Exchanged, Progress.Layout;
      if nonoptEnd != -1 {
        p.Exchange(nargv[..]);
        p.Current();
        PermuteArgs(nonoptStart, nonoptEnd, optind, nargv);
        p := p.(pre := p.pre + p.post, post := []);
      } else {
        assert p.pre + p.post == p.pre;
      }
    }

    /** The branch for a non-option argument: it is skipped. */
    method SkipNonOption()
      requires Consistent() && (nonoptEnd != -1 ==> p.post != [])
      requires p.done < |p.orig| && NonOption(env, p.orig[p.done])
      requires p.FollowedBy(env, Parse(env, "", p.orig[p.done..]))
      modifies nargv, this`p, this`nonoptStart, this`nonoptEnd, this`optind
      ensures Consistent() && nonoptEnd == -1
      ensures p.FollowedBy(env, Parse(env, "", p.orig[p.done..]))
      ensures p.head == old(p.head) && p.orig == old(p.orig) && p.events == old(p.events) && p.done == old(p.done) + 1
    {
      hide Parse, NonOption, Progress.Layout, Progress.FollowedBy, Progress.PostIsRecent;
      p.PermutedFollows(env, Parse(env, "", p.orig[p.done..]));
      PermuteSkipped();
      if nonoptStart == -1 {
        nonoptStart := optind;
      } else if nonoptEnd != -1 {
        nonoptStart := optind - (nonoptEnd - nonoptStart);
        nonoptEnd := -1;
      }
      optind := optind + 1;
      p := p.Skip(env);
    }

    /** The scan is over: nargv is the stable partition s and optind its first non-option. */
    ghost predicate Finished(events: seq<Event>, s: Scanned)
      reads this, nargv
    {
      && s.events == events && s.clean
      && nargv[..] == p.head + s.opts + s.nonopts
      && optind == |p.head| + |s.opts|
      && place == "" && nonoptStart == -1 && nonoptEnd == -1
    }

    /** The return of -1 at the end of the vector. */
    method EndOfVector()
      requires Consistent() && (nonoptEnd != -1 ==> p.post != []) && p.done == |p.orig|
      requires p.FollowedBy(env, Parse(env, "", p.orig[p.done..]))
      modifies nargv, this`p, this`nonoptStart, this`nonoptEnd, this`optind, this`place
      ensures p.head == old(p.head) && p.orig == old(p.orig)
      ensures Finished(old(p.events), Parse(env, "", p.orig))
    {
      hide Parse, Progress.Layout, Progress.FollowedBy, Progress.PostIsRecent;
      place := "";
      ParseEnds(env);
      assert p.orig[p.done..] == [];
      p.PermutedFollows(env, Scanned([], [], [], 0, [], true));
      PermuteSkipped();
      p.AtEnd(env);
      if nonoptEnd != -1 {
        optind := optind - (nonoptEnd - nonoptStart);
      } else if nonoptStart != -1 {
        optind := nonoptStart;
      }
      nonoptStart, nonoptEnd := -1, -1;
    }

    /** The return of -1 at "--". */
    method DoubleDash()
      requires Consistent() && p.done < |p.orig| && p.orig[p.done] == "--"
      requires nonoptStart != -1 ==> nonoptEnd != -1
      requires p.FollowedBy(env, Scanned([], ["--"], [], 0, p.orig[p.done + 1..], true))
      modifies nargv, this`p, this`nonoptStart, this`nonoptEnd, this`optind, this`place
      ensures p.head == old(p.head) && p.orig == old(p.orig)
      ensures Finished(old(p.events), Parse(env, "", p.orig))
    {
      hide Parse, Progress.Layout, Progress.FollowedBy, Progress.Take, Progress.PostIsRecent;
      p.Current();
      optind := optind + 1;
      place := "";
      p := p.ReadDashes(env);
      p.PermutedFollows(env, Scanned([], [], [], 0, p.orig[p.done..], true));
      PermuteSkipped();
      p.AtEnd(env);
      if nonoptEnd != -1 {
        optind := optind - (nonoptEnd - nonoptStart);
      }
      nonoptStart, nonoptEnd := -1, -1;
    }

    /** A -1 came from the middle of a cluster: the skipped non-options still lie where they lay. */
    ghost predicate Stranded(events: seq<Event>, s: Scanned)
      reads this, nargv
    {
      && s.events == events && !s.clean && Consistent()
      && s.opts == p.pre + p.post && s.passed == p.non && s.rest == p.orig[p.done..] && s.last == p.last
    }

    lemma StrandedLayout(events: seq<Event>, s: Scanned)
      requires Stranded(events, s)
      ensures StopsInside(nargv[..], optind, p.head, p.orig, s)
      ensures s.passed == [] ==> nargv[..] == p.head + s.opts + s.nonopts
    {
      hide StopsInside, Progress.Layout, Progress.PostIsRecent;
      p.Inside(s);
    }

    /** Between two arguments: everything before optind is read. */
    ghost predicate AtArgument()
      reads this, nargv
    {
      && Consistent() && (nonoptEnd != -1 ==> p.post != [])
      && p.FollowedBy(env, Parse(env, "", p.orig[p.done..]))
    }

    /** Inside an option argument: place is what is left of its text. */
    ghost predicate AtOption(atStart: bool)
      reads this, nargv
    {
      && Consistent() && (nonoptStart != -1 ==> nonoptEnd != -1)
      && !Fresh() && place != "" && p.done < |p.orig|
      && (atStart ==> place == "-" && '-' in env.options)
      && p.FollowedBy(env, ParseOption(env, place, atStart, p.orig[p.done..]))
    }

    /** The scanning pointer is set to an option argument. */
    method BeginOption() returns (atStart: bool)
      requires AtArgument() && !Fresh() && p.done < |p.orig|
      requires !NonOption(env, p.orig[p.done]) && p.orig[p.done] != "--"
      modifies this`nonoptEnd, this`place
      ensures AtOption(atStart)
    {
      hide Parse, ParseOption, Progress.Layout;
      ParseBegins(env, p.orig[p.done..]);
      p.Current();
      place := nargv[optind];
      if nonoptStart != -1 && nonoptEnd == -1 {
        nonoptEnd := optind;
      }
      atStart := |place| == 1;
      if !atStart {
        place := place[1..];
      }
    }

    /** "update scanning pointer": reads arguments up to the next option. */
    method NextOption() returns (found: bool, atStart: bool)
      requires env.Valid() && AtArgument() && optind > 0
      modifies this, nargv
      ensures p.head == old(p.head) && p.orig == old(p.orig) && optarg == old(optarg)
      ensures found ==> AtOption(atStart) && p.events == old(p.events)
      ensures !found ==> Finished(old(p.events), Parse(env, "", p.orig))
    {
      hide Parse, ParseOption, Progress.Layout, Progress.FollowedBy;
      optreset := false;
      while true
        invariant AtArgument() && optind > 0 && !optreset && optarg == old(optarg)
        invariant p.head == old(p.head) && p.orig == old(p.orig) && p.events == old(p.events)
        decreases |p.orig| - p.done
      {
        p.Current();
        if optind >= nargv.Length {
          EndOfVector();
          return false, false;
        }
        if NonOption(env, nargv[optind]) {
          SkipNonOption();
        } else if nargv[optind] == "--" {
          if nonoptStart != -1 && nonoptEnd == -1 {
            nonoptEnd := optind;
          }
          ParseBegins(env, p.orig[p.done..]);
          DoubleDash();
          return false, false;
        } else {
          atStart := BeginOption();
          return true, atStart;
        }
      }
    }

    /** The return of an option, from the scanning pointer on. */
    method ReturnOption(atStart: bool) returns (r: int)
      requires env.Valid() && optarg.None? && AtOption(atStart)
      modifies this`optind, this`optarg, this`place, this`p
      ensures p.head == old(p.head) && p.orig == old(p.orig)
      ensures r != -1 ==> Valid() && !Fresh() && p.events == old(p.events) + [Event(r, optarg)]
      ensures r == -1 ==> Stranded(old(p.events), Parse(env, "", p.orig))
    {
      hide Parse, ParseOption, OptionStep, Progress.Layout, Progress.FollowedBy, Progress.Take;
      ghost var text, step := place, OptionStep(env, place, atStart, p.orig[p.done..][1..]);
      p.Current();
      assert nargv[optind + 1..] == p.orig[p.done..][1..];
      if step.Step? {
        p := p.ReadOption(env, text, atStart);
      } else {
        p.StrayOption(env, text, atStart);
      }
      r := TakeOption(atStart);
    }

    /** One call. It returns the next option of the reference parser, or -1 at the end of the scan;
        then nargv is the stable partition, options first, and optind is the first non-option. */
    method GetoptInternal() returns (r: int)
      requires Valid()
      modifies this, nargv
      ensures p.head == old(p.head) && p.orig == old(p.orig)
      ensures r != -1 ==> Valid() && !Fresh() && p.events == old(p.events) + [Event(r, optarg)]
      ensures r == -1 ==>
                var s := Parse(env, "", p.orig);
                if s.clean then Finished(old(p.events), s) else Stranded(old(p.events), s)
    {
      hide Parse, ParseOption;
      optarg := None;
      if optind == 0 {
        optind, optreset := 1, true;
      }
      if optreset {
        nonoptStart, nonoptEnd := -1, -1;
        assert p.orig[0..] == p.orig;
      }
      var atStart := false;
      if optreset || place == "" {
        var found;
        found, atStart := NextOption();
        if !found {
          return -1;
        }
      } else {
        ParseContinues(env, place, p.orig[p.done..]);
      }
      r := ReturnOption(atStart);
    }
  }

  // ---- a whole scan ---------------------------------------------------------------------

  /** What getopt_internal promises of the end of a scan of args behind head: options first, then the
      other arguments, and optind at the first of these. */
  predicate Partitioned(now: seq<string>, optind: int, head: seq<string>, s: Scanned) {
    now == head + s.opts + s.nonopts && optind == |head| + |s.opts|
  }

  /** The letter takes an argument. */
  predicate TakesArgument(env: Env, c: char) {
    c != ':' && c in env.options && CharAt(env.options, IndexOf(env.options, c) + 1, ':')
  }

  /** The first position in a cluster whose letter takes an argument, or its length. */
  function ArgumentLetter(env: Env, cluster: string): (i: nat)
    ensures i <= |cluster|
  {
    if cluster == "" || TakesArgument(env, cluster[0]) then 0 else 1 + ArgumentLetter(env, cluster[1..])
  }

  /** The arguments an option cluster covers: two when its last letter takes a required argument. */
  function Width(env: Env, cluster: string, more: bool): (n: nat)
    ensures 1 <= n <= if more then 2 else 1
  {
    var i := ArgumentLetter(env, cluster);
    if more && i + 1 == |cluster| && !CharAt(env.options, IndexOf(env.options, cluster[i]) + 2, ':') then 2 else 1
  }

  /** A non-option is passed (or skipped says that one has been) before the first option cluster that
      ends in '-' and has no letter that takes an argument. */
  predicate SkipThenStray(env: Env, args: seq<string>, skipped: bool)
    decreases |args|
  {
    if args == [] then false
    else if NonOption(env, args[0]) then SkipThenStray(env, args[1..], true)
    else if args[0] == "--" then false
    else
      var cluster := args[0][1..];
      if cluster != "" && cluster[|cluster| - 1] == '-' && ArgumentLetter(env, cluster) == |cluster| then skipped
      else SkipThenStray(env, args[Width(env, cluster, |args| > 1)..], skipped)
  }

  /** When getopt_internal returns -1 from inside a cluster although it has skipped non-options. A
      caller can tell from the option strings and the arguments. */
  predicate StraysAfterSkip(env: Env, args: seq<string>) {
    env.longs.None? && '-' !in env.options && SkipThenStray(env, args, false)
  }

  /** A letter without argument that is not the last one leaves the rest of the cluster. */
  lemma FlagInCluster(env: Env, cluster: string, args: seq<string>)
    requires env.longs.None? && '-' !in env.options && |cluster| > 1 && args != []
    requires !TakesArgument(env, cluster[0])
    ensures ParseOption(env, cluster, false, args).clean <==> ParseOption(env, cluster[1..], false, args).clean
    ensures ParseOption(env, cluster, false, args).passed == ParseOption(env, cluster[1..], false, args).passed
  {
  }

  /** The last letter, and a letter with an argument, end the cluster. */
  lemma ClusterEnds(env: Env, cluster: string, args: seq<string>)
    requires env.longs.None? && '-' !in env.options && cluster != "" && args != []
    requires TakesArgument(env, cluster[0]) || |cluster| == 1
    ensures ParseOption(env, cluster, false, args).clean <==>
            && !(cluster == "-" && !TakesArgument(env, '-'))
            && Parse(env, "", args[Width(env, cluster, |args| > 1)..]).clean
    ensures ParseOption(env, cluster, false, args).passed ==
            if cluster == "-" && !TakesArgument(env, '-') then []
            else Parse(env, "", args[Width(env, cluster, |args| > 1)..]).passed
  {
    hide Parse;
  }

  lemma {:induction false} ClusterStrays(env: Env, cluster: string, args: seq<string>)
    requires env.longs.None? && '-' !in env.options && cluster != "" && args != []
    ensures ParseOption(env, cluster, false, args).clean <==>
            !(cluster[|cluster| - 1] == '-' && ArgumentLetter(env, cluster) == |cluster|)
            && Parse(env, "", args[Width(env, cluster, |args| > 1)..]).clean
    decreases cluster
  {
    hide ParseOption, Parse, TakesArgument;
    var c, rest := cluster[0], cluster[1..];
    if !TakesArgument(env, c) && rest != "" {
      FlagInCluster(env, cluster, args);
      ClusterStrays(env, rest, args);
      assert rest[|rest| - 1] == cluster[|cluster| - 1];
    } else {
      ClusterEnds(env, cluster, args);
    }
  }

  /** A cluster that does not stray passes what the arguments behind it pass. */
  lemma {:induction false} ClusterPasses(env: Env, cluster: string, args: seq<string>)
    requires env.longs.None? && '-' !in env.options && cluster != "" && args != []
    ensures ParseOption(env, cluster, false, args).passed ==
            if cluster[|cluster| - 1] == '-' && ArgumentLetter(env, cluster) == |cluster| then []
            else Parse(env, "", args[Width(env, cluster, |args| > 1)..]).passed
    decreases cluster
  {
    hide ParseOption, Parse, TakesArgument;
    var c, rest := cluster[0], cluster[1..];
    if !TakesArgument(env, c) && rest != "" {
      FlagInCluster(env, cluster, args);
      ClusterPasses(env, rest, args);
      assert rest[|rest| - 1] == cluster[|cluster| - 1];
    } else {
      ClusterEnds(env, cluster, args);
    }
  }

  lemma {:induction false} SkipThenStrayMeans(env: Env, args: seq<string>, skipped: bool)
    requires env.longs.None? && '-' !in env.options
    ensures var s := Parse(env, "", args);
            SkipThenStray(env, args, skipped) <==> !s.clean && (skipped || s.passed != [])
    decreases |args|
  {
    hide ArgumentLetter, Width, ParseOption;
    if args == [] {
    } else if NonOption(env, args[0]) {
      SkipThenStrayMeans(env, args[1..], true);
    } else if args[0] == "--" {
    } else {
      var cluster := args[0][1..];
      var n := Width(env, cluster, |args| > 1);
      SkipThenStrayMeans(env, args[n..], skipped);
      ClusterStrays(env, cluster, args);
      ClusterPasses(env, cluster, args);
    }
  }

  lemma {:induction false} CleanOption(env: Env, place: string, atStart: bool, args: seq<string>)
    requires env.longs.Some? || '-' in env.options
    requires place != "" && args != []
    requires atStart ==> place == "-" && '-' in env.options
    ensures ParseOption(env, place, atStart, args).clean
    decreases |args|, 0, |place|, 0
  {
    var step := OptionStep(env, place, atStart, args[1..]);
    if step.advance > 0 {
      CleanWithLongOptions(env, "", args[step.advance..]);
    } else {
      CleanWithLongOptions(env, step.place, args);
    }
  }

  /** With a long option table, or with '-' as an option letter, every scan is clean. */
  lemma {:induction false} CleanWithLongOptions(env: Env, place: string, args: seq<string>)
    requires env.longs.Some? || '-' in env.options
    requires place != "" ==> args != []
    ensures Parse(env, place, args).clean
    decreases |args|, if place == "" then 1 else 0, |place|
  {
    if place != "" {
      CleanOption(env, place, false, args);
    } else if args == [] {
    } else if NonOption(env, args[0]) {
      CleanWithLongOptions(env, "", args[1..]);
    } else if args[0] == "--" {
    } else if |args[0]| == 1 {
      CleanOption(env, args[0], true, args);
    } else {
      CleanOption(env, args[0][1..], false, args);
    }
  }

  lemma StraysMeans(env: Env, args: seq<string>)
    ensures var s := Parse(env, "", args); StraysAfterSkip(env, args) <==> !s.clean && s.passed != []
  {
    hide Parse, SkipThenStray;
    if env.longs.None? && '-' !in env.options {
      SkipThenStrayMeans(env, args, false);
    } else {
      CleanWithLongOptions(env, "", args);
    }
  }

  lemma FinishedMeans(now: seq<string>, optind: int, head: seq<string>, s: Scanned)
    requires now == head + s.opts + s.nonopts && optind == |head| + |s.opts|
    ensures Partitioned(now, optind, head, s)
  {
  }

  lemma InsideMeans(now: seq<string>, optind: int, head: seq<string>, args: seq<string>, s: Scanned)
    requires StopsInside(now, optind, head, args, s)
    requires s.passed == [] ==> now == head + s.opts + s.nonopts
    ensures Partitioned(now, optind, head, s) <==> s.passed == []
  {
  }

  /** Calling getopt_internal until it returns -1: it terminates, returns exactly the options of the
      reference parser, and keeps its promise exactly when the arguments do not stray after a skip.
      If it stops inside a cluster, StopsInside says where everything lies. */
  method ScanAll(env: Env, nargv: array<string>) returns (events: seq<Event>, optind: nat)
    requires env.Valid() && nargv.Length > 0
    modifies nargv
    ensures var s := Parse(env, "", old(nargv[1..]));
            && events == s.events
            && (Partitioned(nargv[..], optind, old(nargv[..1]), s) <==> !StraysAfterSkip(env, old(nargv[1..])))
            && (!s.clean ==> StopsInside(nargv[..], optind, old(nargv[..1]), old(nargv[1..]), s))
  {
    hide Parse, ParseOption, Partitioned, StopsInside, StraysAfterSkip;
    ghost var head, args := nargv[..1], nargv[1..];
    var scanner := new Scanner(env, nargv);
    ghost var s := Parse(env, "", nargv[1..]);
    events := [];
    var r := scanner.GetoptInternal();
    while r != -1
      invariant fresh(scanner) && scanner.env == env && scanner.nargv == nargv
      invariant scanner.p.head == old(nargv[..1]) && scanner.p.orig == old(nargv[1..])
      invariant r != -1 ==> scanner.Valid() && !scanner.Fresh()
                            && scanner.p.events == events + [Event(r, scanner.optarg)]
      invariant r == -1 ==> if s.clean then scanner.Finished(events, s) else scanner.Stranded(events, s)
      decreases |s.events| - |events|, r != -1
    {
      events := events + [Event(r, scanner.optarg)];
      r := scanner.GetoptInternal();
    }
    optind := scanner.optind;
    StraysMeans(env, args);
    if s.clean {
      FinishedMeans(nargv[..], optind, head, s);
    } else {
      scanner.StrandedLayout(events, s);
      InsideMeans(nargv[..], optind, head, args, s);
    }
  }

  // ---- when a scan is not clean ---------------------------------------------------------

  /** With no long option table and no '-' option letter, a scan is clean exactly when no cluster before
      any "--" strays. */
  lemma CleanIffNoStray(env: Env, args: seq<string>)
    requires env.longs.None? && '-' !in env.options
    ensures Parse(env, "", args).clean <==> !SkipThenStray(env, args, true)
  {
    hide Parse, SkipThenStray;
    SkipThenStrayMeans(env, args, true);
  }

  /** The reference parser on x -a -a- with the option letter a. */
  lemma StrayParse()
    ensures var env := Env("a", None, false);
            && env.Valid() && StraysAfterSkip(env, ["x", "-a", "-a-"])
            && Parse(env, "", ["x", "-a", "-a-"])
               == Scanned([Event('a' as int, None), Event('a' as int, None)], ["-a"], ["x"], 1, ["-a-"], false)
  {
    var env := Env("a", None, false);
    var none: seq<string> := [];
    assert "-a-"[1..] == "a-" && "a-"[1..] == "-" && "-"[1..] == "" && "-a"[1..] == "a" && "a"[1..] == "";
    assert ["x", "-a", "-a-"][1..] == ["-a", "-a-"] && ["-a", "-a-"][1..] == ["-a-"] && ["-a-"][1..] == none;
    assert OptionStep(env, "-", false, none) == Stray;
    assert OptionStep(env, "a-", false, none) == Step('a' as int, None, "-", 0);
    assert OptionStep(env, "a", false, ["-a-"]) == Step('a' as int, None, "", 1);
    assert Parse(env, "-", ["-a-"]) == Scanned([], [], [], 0, ["-a-"], false);
    assert Parse(env, "a-", ["-a-"]) == Scanned([Event('a' as int, None)], [], [], 0, ["-a-"], false);
    assert Parse(env, "", ["-a-"]) == Parse(env, "a-", ["-a-"]);
    assert ["-a", "-a-"][..1] == ["-a"];
    assert Parse(env, "a", ["-a", "-a-"])
        == Scanned([Event('a' as int, None), Event('a' as int, None)], ["-a"], [], 0, ["-a-"], false);
    assert Parse(env, "", ["-a", "-a-"]) == Parse(env, "a", ["-a", "-a-"]);
    StraysMeans(env, ["x", "-a", "-a-"]);
  }

  /** Scanning x -a -a- with the option letter a leaves the skipped x in front of the option -a that was
      read, and optind at the third argument, although the second one is the first non-option left:
      the promise would be -a x -a- and 2. */
  method StrayExample() returns (nargv: array<string>, optind: nat)
    ensures nargv[..] == ["prog", "x", "-a", "-a-"] && optind == 3
    ensures var s := Parse(Env("a", None, false), "", ["x", "-a", "-a-"]);
            && ["prog"] + s.opts + s.nonopts == ["prog", "-a", "x", "-a-"] && 1 + |s.opts| == 2
            && !Partitioned(nargv[..], optind, ["prog"], s)
  {
    hide Parse, StraysAfterSkip;
    nargv := new string[4] ["prog", "x", "-a", "-a-"];
    StrayParse();
    assert nargv[..1] == ["prog"] && nargv[1..] == ["x", "-a", "-a-"];
    var events;
    events, optind := ScanAll(Env("a", None, false), nargv);
    assert ["-a"][..0] == [] && ["x", "-a", "-a-"][1..] == ["-a", "-a-"];
  }

  /** The long options of the emulator's command line. */
  const OPTION_LIST: seq<LongOption> := [
    LongOption("help", NoArgument, None, 'h' as int),
    LongOption("code_begin", RequiredArgument, None, 'b' as int),
    LongOption("code_size", RequiredArgument, None, 's' as int),
    LongOption("code_run", RequiredArgument, None, 'r' as int),
    LongOption("max", RequiredArgument, None, 'm' as int)]

  const COMMAND_LINE := Env("hb:s:r:m:", Some(OPTION_LIST), false)

  lemma CommandLineParse()
    ensures COMMAND_LINE.Valid()
    ensures Parse(COMMAND_LINE, "", ["file", "--code_begin=1000", "-r", "20", "--max", "5"]).events
         == [Event('b' as int, Some("1000")), Event('r' as int, Some("20")), Event('m' as int, Some("5"))]
  {
    hide Parse;
    var env := COMMAND_LINE;
    var last: seq<string> := [];
    assert Names(env, "code_begin", 1) && Names(env, "max", 4);
    OtherPassed(env, "file", ["--code_begin=1000", "-r", "20", "--max", "5"]);
    LongAttached(env, "code_begin", "1000", 1, ["-r", "20", "--max", "5"]);
    assert "--" + "code_begin" + "=" + "1000" == "--code_begin=1000";
    ShortSeparate(env, 'r', "20", 5, ["--max", "5"]);
    assert "-" + ['r'] == "-r";
    LongSeparate(env, "max", "5", 4, last);
    assert "--" + "max" == "--max";
    ParseEnds(env);
    assert ["file"] + ["--code_begin=1000", "-r", "20", "--max", "5"]
        == ["file", "--code_begin=1000", "-r", "20", "--max", "5"];
    assert ["--code_begin=1000"] + ["-r", "20", "--max", "5"] == ["--code_begin=1000", "-r", "20", "--max", "5"];
    assert ["-r", "20"] + ["--max", "5"] == ["-r", "20", "--max", "5"] && ["--max", "5"] + last == ["--max", "5"];
  }

  /** The emulator's own command line: attached and separate arguments, short and long. */
  method CommandLineExample() returns (events: seq<Event>, optind: nat)
    ensures events == [Event('b' as int, Some("1000")), Event('r' as int, Some("20")), Event('m' as int, Some("5"))]
  {
    hide Parse, StraysAfterSkip, Partitioned, StopsInside;
    CommandLineParse();
    var nargv := new string[7] ["x86utm", "file", "--code_begin=1000", "-r", "20", "--max", "5"];
    assert nargv[1..] == ["file", "--code_begin=1000", "-r", "20", "--max", "5"];
    events, optind := ScanAll(COMMAND_LINE, nargv);
  }
}
