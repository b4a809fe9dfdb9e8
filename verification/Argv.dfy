/** Parsing a command line and compacting it in place, util/parse-options.c. */
module Argv {
  import opened Optional
  import opened Options

  datatype Settings = Settings(
    keepDashdash: bool,
    stopAtNonOption: bool,
    keepArgv0: bool,
    keepUnknown: bool,
    noInternalHelp: bool)

  /** The ways parsing ends the program instead of returning. */
  datatype Exit = Help | UnknownOption | ListOptions | ListCommands | Typo | Died

  /** One option taken from the line. */
  datatype Effect = Effect(opt: Opt, unset: bool, value: Maybe<string>)

  // ---------- Values ----------

  function SkipSpace(s: string): string {
    if s != "" && s[0] in {' ', '\t', '\n', '\r', '\U{B}', '\U{C}'} then SkipSpace(s[1..]) else s
  }

  /** `strtol` reads the whole text: nothing at all, or blanks, a sign and digits. */
  predicate Numeric(s: string) {
    var t := SkipSpace(s);
    var digits := if t != "" && (t[0] == '+' || t[0] == '-') then t[1..] else t;
    s == "" || (digits != "" && forall c | c in digits :: '0' <= c <= '9')
  }

  /** Where `get_arg` finds an argument, and how many of the following words it uses up. */
  function FindArg(o: Opt, left: Maybe<string>, next: seq<string>): Maybe<(string, nat)> {
    if left.Just? then Just((left.value, 0))
    else if o.lastArgDefault && (next == [] || StartsWith(next[0], "-")) then Just((o.default, 0))
    else if next != [] then Just((next[0], 1))
    else Nothing
  }

  /** `left` is the part of the word still to be read. */
  datatype Value = Unfound | Refused(exit: Exit) | Taken(effect: Effect, left: Maybe<string>, used: nat)

  function Accept(o: Opt, unset: bool, value: Maybe<string>, left: Maybe<string>, used: nat): Value {
    if o.kind == Callback && (value, unset) in o.refuses then Refused(Help)
    else if o.kind == Number && !unset && value.Just? && !Numeric(value.value) then Refused(Help)
    else Taken(Effect(o, unset, value), left, used)
  }

  function TakeValue(o: Opt, unset: bool, short: bool, left: Maybe<string>, next: seq<string>): (v: Value)
    ensures !v.Unfound?
    ensures v.Taken? ==> v.used <= |next| && v.used <= 1
    ensures v.Taken? && v.left.Just? ==> short && v.left == left && v.used == 0
  {
    if unset && left.Just? then Refused(Help)
    else if unset && o.noNeg then Refused(Help)
    else if !short && left.Just? && (o.kind == Flag || (o.kind == Callback && o.noArg)) then Refused(Help)
    else if o.kind == Argument then Refused(Died)
    else if o.kind == Flag || unset || (o.kind == Callback && o.noArg) then Accept(o, unset, Nothing, left, 0)
    else if o.optArg && left == Nothing then
      Accept(o, unset, if o.kind == Text then Just(o.default) else Nothing, Nothing, 0)
    else match FindArg(o, left, next)
      case Nothing => Refused(Help)
      case Just((text, used)) => Accept(o, unset, Just(text), Nothing, used)
  }

  // ---------- One word ----------

  /** What one word does; `log` holds every option taken so far, and `Unrecognized` carries the word
      as it is kept if unknown words are kept. */
  datatype Act =
    | Quit(exit: Exit)
    | Stop
    | StopAfter
    | Go(kept: seq<string>, used: nat, log: seq<Effect>)
    | Unrecognized(text: string, log: seq<Effect>)

  function FindShort(table: seq<Opt>, c: char): (r: Maybe<Opt>)
    ensures r.Just? ==> r.value in table && r.value.shortName == Just(c)
    ensures r == Nothing ==> forall o | o in table :: o.shortName != Just(c)
  {
    if table == [] then Nothing
    else if table[0].shortName == Just(c) then Just(table[0])
    else FindShort(table[1..], c)
  }

  function TakeShort(table: seq<Opt>, text: string, next: seq<string>): (v: Value)
    requires text != ""
    ensures v.Taken? ==> v.used <= |next| && v.used <= 1
    ensures v.Taken? && v.left.Just? ==> |text| > 1 && v.left.value == text[1..] && v.used == 0
  {
    match FindShort(table, text[0])
    case Nothing => Unfound
    case Just(o) => TakeValue(o, false, true, if |text| > 1 then Just(text[1..]) else Nothing, next)
  }

  /** A word with one dash that reads like a long option. */
  predicate LooksLong(table: seq<Opt>, word: string) {
    |word| >= 3 &&
    (StartsWith(word, "no-") || exists o | o in table :: o.longName.Just? && StartsWith(o.longName.value, word))
  }

  /** The switches of `word` from `text` on. */
  function Cluster(table: seq<Opt>, s: Settings, word: string, text: string, next: seq<string>, log: seq<Effect>)
      : (a: Act)
    requires text != ""
    ensures a.Quit? || a.Unrecognized? || (a.Go? && a.kept == [] && a.used <= |next| && a.used <= 1)
    decreases |text|
  {
    if !s.noInternalHelp && text[0] == 'h' then Quit(Help)
    else match TakeShort(table, text, next)
      case Unfound => Unrecognized("-" + text, log)
      case Refused(e) => Quit(e)
      case Taken(effect, left, used) =>
        if left == Nothing then Go([], used, log + [effect])
        else if |text| == |word| && LooksLong(table, word) then Quit(Typo)
        else Cluster(table, s, word, left.value, next, log + [effect])
  }

  lemma ClusterUnfold(table: seq<Opt>, s: Settings, word: string, text: string, next: seq<string>, log: seq<Effect>)
    requires text != ""
    ensures var v := TakeShort(table, text, next);
      Cluster(table, s, word, text, next, log) ==
        if !s.noInternalHelp && text[0] == 'h' then Quit(Help)
        else if v.Unfound? then Unrecognized("-" + text, log)
        else if v.Refused? then Quit(v.exit)
        else if v.left == Nothing then Go([], v.used, log + [v.effect])
        else if |text| == |word| && LooksLong(table, word) then Quit(Typo)
        else Cluster(table, s, word, v.left.value, next, log + [v.effect])
  {
    hide TakeShort, LooksLong;
  }

  function Long(table: seq<Opt>, arg: string, next: seq<string>, log: seq<Effect>): (a: Act)
    requires |arg| > 2
    ensures a.Quit? || a.Unrecognized? || (a.Go? && a.used <= |next| && a.used <= 1)
  {
    match Resolve(table, arg[2..], START)
    case Unknown => Unrecognized(arg, log)
    case Ambiguous => Quit(Help)
    case TakesNoValue => Quit(Help)
    case Kept => Go([arg], 0, log)
    case Resolved(o, unset, attached) =>
      match TakeValue(o, unset, false, attached, next)
      case Unfound => Unrecognized(arg, log)
      case Refused(e) => Quit(e)
      case Taken(effect, _, used) => Go([], used, log + [effect])
  }

  predicate IsPlain(arg: string) {
    |arg| < 2 || arg[0] != '-'
  }

  function ActOn(table: seq<Opt>, s: Settings, arg: string, next: seq<string>, log: seq<Effect>): (a: Act)
    ensures a.Go? ==> a.used <= |next| && a.used <= 1
    ensures !a.Unrecognized?
  {
    if IsPlain(arg) then if s.stopAtNonOption then Stop else Go([arg], 0, log)
    else if arg[1] != '-' then Settle(s, Cluster(table, s, arg[1..], arg[1..], next, log))
    else if |arg| == 2 then if s.keepDashdash then Stop else StopAfter
    else Settle(s, LongWord(table, s, arg, next, log))
  }

  /** A word with two dashes, which may be one of the parser's own. */
  function LongWord(table: seq<Opt>, s: Settings, arg: string, next: seq<string>, log: seq<Effect>): (a: Act)
    requires |arg| > 2
    ensures a.Quit? || a.Unrecognized? || (a.Go? && a.used <= |next| && a.used <= 1)
  {
    if !s.noInternalHelp && (arg == "--help-all" || arg == "--help") then Quit(Help)
    else if arg == "--list-opts" then Quit(ListOptions)
    else if arg == "--list-cmds" then Quit(ListCommands)
    else Long(table, arg, next, log)
  }

  function Settle(s: Settings, a: Act): Act {
    if !a.Unrecognized? then a
    else if s.keepUnknown then Go([a.text], 0, a.log)
    else Quit(UnknownOption)
  }

  // ---------- A whole line ----------

  /** The words kept before parsing stops, the words from there on, and the options taken. */
  datatype Outcome = Ends(exit: Exit) | Done(kept: seq<string>, rest: seq<string>, log: seq<Effect>)

  function Collect(table: seq<Opt>, s: Settings, args: seq<string>, kept: seq<string>, log: seq<Effect>): Outcome
    decreases |args|
  {
    if args == [] then Done(kept, [], log)
    else match ActOn(table, s, args[0], args[1..], log)
      case Quit(e) => Ends(e)
      case Stop => Done(kept, args, log)
      case StopAfter => Done(kept, args[1..], log)
      case Go(more, used, now) => Collect(table, s, args[1 + used..], kept + more, now)
  }

  lemma CollectGo(table: seq<Opt>, s: Settings, args: seq<string>, kept: seq<string>, log: seq<Effect>, a: Act)
    requires args != [] && a == ActOn(table, s, args[0], args[1..], log) && a.Go?
    ensures Collect(table, s, args, kept, log) == Collect(table, s, args[1 + a.used..], kept + a.kept, a.log)
  {
    hide ActOn;
  }

  lemma CollectHalts(table: seq<Opt>, s: Settings, args: seq<string>, kept: seq<string>, log: seq<Effect>, a: Act)
    requires args != [] && a == ActOn(table, s, args[0], args[1..], log) && !a.Go?
    ensures Collect(table, s, args, kept, log) ==
      if a.Quit? then Ends(a.exit) else Done(kept, if a.Stop? then args else args[1..], log)
  {
    hide ActOn;
  }

  lemma CollectNothing(table: seq<Opt>, s: Settings, args: seq<string>, kept: seq<string>, log: seq<Effect>)
    requires args == []
    ensures Collect(table, s, args, kept, log) == Done(kept, [], log)
  {}

  // ---------- The parser ----------

  /** The outcome of reading one option. */
  datatype Code = Fine | Bad(exit: Exit) | Missing | Halt

  /** The parse context.  `argv` is read from `pos` and written below `cpidx`; `argc` words are left. */
  class Context {
    const table: seq<Opt>
    const settings: Settings
    const argv: array<string>
    var pos: nat
    var argc: nat
    var cpidx: nat
    var opt: Maybe<string>
    var log: seq<Effect>

    ghost predicate Valid()
      reads this
    {
      cpidx <= pos && pos + argc == argv.Length
    }

    /** The words after the current one. */
    ghost function Next(): seq<string>
      requires Valid() && argc > 0
      reads this, argv
    {
      argv[pos + 1..]
    }

    constructor Start(table: seq<Opt>, settings: Settings, argv: array<string>)
      requires argv.Length > 0
      ensures Valid() && this.table == table && this.settings == settings && this.argv == argv
      ensures pos == 1 && cpidx == (if settings.keepArgv0 then 1 else 0) && opt == Nothing && log == []
    {
      this.table, this.settings, this.argv := table, settings, argv;
      pos, argc, cpidx, opt, log := 1, argv.Length - 1, if settings.keepArgv0 then 1 else 0, Nothing, [];
    }

    method GetArg(o: Opt) returns (arg: Maybe<string>)
      requires Valid() && argc > 0
      modifies this`pos, this`argc, this`opt
      ensures Valid() && argc > 0 && opt == Nothing
      ensures match FindArg(o, old(opt), old(Next()))
        case Nothing => arg == Nothing
        case Just((text, used)) => arg == Just(text) && pos == old(pos) + used
    {
      assert argc > 1 ==> Next()[0] == argv[pos + 1];
      if opt.Just? {
        arg := opt;
        opt := Nothing;
      } else if o.lastArgDefault && (argc == 1 || StartsWith(argv[pos + 1], "-")) {
        arg := Just(o.default);
      } else if argc > 1 {
        argc := argc - 1;
        pos := pos + 1;
        arg := Just(argv[pos]);
      } else {
        arg := Nothing;
      }
    }

    method GetValue(o: Opt, unset: bool, short: bool) returns (code: Code)
      requires Valid() && argc > 0
      modifies this`pos, this`argc, this`opt, this`log
      ensures Valid() && argc > 0
      ensures match TakeValue(o, unset, short, old(opt), old(Next()))
        case Refused(e) => code == Bad(e)
        case Taken(effect, left, used) =>
          code == Fine && opt == left && pos == old(pos) + used && log == old(log) + [effect]
    {
      hide Numeric;
      if unset && (opt.Just? || o.noNeg) {
        return Bad(Help);
      }
      if !short && opt.Just? && (o.kind == Flag || (o.kind == Callback && o.noArg)) {
        return Bad(Help);
      }
      var value: Maybe<string> := Nothing;
      match o.kind {
        case Argument => return Bad(Died);
        case Flag =>
        case Text =>
          if !unset {
            if o.optArg && opt == Nothing {
              value := Just(o.default);
            } else {
              value := GetArg(o);
              if value == Nothing { return Bad(Help); }
            }
          }
        case Callback =>
          if !unset && !o.noArg && !(o.optArg && opt == Nothing) {
            value := GetArg(o);
            if value == Nothing { return Bad(Help); }
          }
          if (value, unset) in o.refuses { return Bad(Help); }
        case Number =>
          if !unset && !(o.optArg && opt == Nothing) {
            value := GetArg(o);
            if value == Nothing || !Numeric(value.value) { return Bad(Help); }
          }
      }
      log := log + [Effect(o, unset, value)];
      code := Fine;
    }

    method ParseShortOpt() returns (code: Code)
      requires Valid() && argc > 0 && opt.Just? && opt.value != ""
      modifies this`pos, this`argc, this`opt, this`log
      ensures Valid() && argc > 0
      ensures match TakeShort(table, old(opt.value), old(Next()))
        case Unfound => code == Missing && opt == old(opt) && pos == old(pos) && log == old(log)
        case Refused(e) => code == Bad(e)
        case Taken(effect, left, used) =>
          code == Fine && opt == left && pos == old(pos) + used && log == old(log) + [effect]
    {
      hide TakeValue;
      var text := opt.value;
      assert table[0..] == table;
      for i := 0 to |table|
        invariant Valid() && opt == Just(text) && pos == old(pos) && argc == old(argc) && log == old(log)
        invariant FindShort(table[i..], text[0]) == FindShort(table, text[0])
      {
        assert table[i..][1..] == table[i + 1..];
        if table[i].shortName == Just(text[0]) {
          opt := if |text| > 1 then Just(text[1..]) else Nothing;
          code := GetValue(table[i], false, true);
          return;
        }
      }
      code := Missing;
    }

    method CheckTypos(word: string) returns (typo: bool)
      ensures typo == LooksLong(table, word)
    {
      if |word| < 3 { return false; }
      if StartsWith(word, "no-") { return true; }
      for i := 0 to |table|
        invariant forall o | o in table[..i] :: o.longName.Just? ==> !StartsWith(o.longName.value, word)
      {
        if table[i].longName.Just? && StartsWith(table[i].longName.value, word) { return true; }
      }
      assert table[..|table|] == table;
      typo := false;
    }

    /** The switches of the current word, which is rewritten when one in the middle is unknown. */
    method ParseCluster() returns (code: Code)
      requires Valid() && argc > 0 && |argv[pos]| > 1 && argv[pos][0] == '-'
      modifies this`pos, this`argc, this`opt, this`log, argv
      ensures Valid() && argc > 0
      ensures argv[..old(pos)] == old(argv[..pos]) && argv[old(pos) + 1..] == old(Next())
      ensures match Cluster(table, settings, old(argv[pos][1..]), old(argv[pos][1..]), old(Next()), old(log))
        case Quit(e) => code == Bad(e)
        case Unrecognized(text, now) => code == Missing && argv[pos] == text && pos == old(pos) && log == now
        case Go(_, used, now) => code == Fine && pos == old(pos) + used && opt == Nothing && log == now
    {
      hide TakeShort, LooksLong, Cluster;
      var word := argv[pos][1..];
      ghost var next := Next();
      opt := Just(word);
      ClusterUnfold(table, settings, word, word, next, log);
      if !settings.noInternalHelp && word[0] == 'h' { return Bad(Help); }
      code := ParseShortOpt();
      if code == Missing {
        assert argv[pos] == "-" + word;
      }
      if code != Fine { return; }
      if opt.Just? {
        var typo := CheckTypos(word);
        if typo { return Bad(Typo); }
        code := ParseMore(word);
      }
    }

    /** The switches of a word behind its first. */
    method ParseMore(ghost word: string) returns (code: Code)
      requires Valid() && argc > 0 && opt.Just? && 0 < |opt.value| < |word|
      modifies this`pos, this`argc, this`opt, this`log, argv
      ensures Valid() && argc > 0
      ensures argv[..old(pos)] == old(argv[..pos]) && argv[old(pos) + 1..] == old(Next())
      ensures match Cluster(table, settings, word, old(opt.value), old(Next()), old(log))
        case Quit(e) => code == Bad(e)
        case Unrecognized(text, now) => code == Missing && argv[pos] == text && pos == old(pos) && log == now
        case Go(_, used, now) => code == Fine && pos == old(pos) + used && opt == Nothing && log == now
    {
      hide TakeShort, LooksLong, Cluster;
      ghost var next := Next();
      code := Fine;
      while opt.Just?
        invariant Valid() && argc > 0 && argv[..] == old(argv[..]) && code == Fine
        invariant old(pos) <= pos
        invariant opt.Just? ==> opt.value != "" && |opt.value| < |word| && pos == old(pos)
        invariant Cluster(table, settings, word, old(opt.value), next, old(log)) ==
          if opt.Just? then Cluster(table, settings, word, opt.value, next, log) else Go([], pos - old(pos), log)
        decreases if opt.Just? then |opt.value| else 0
      {
        var text := opt.value;
        ClusterUnfold(table, settings, word, text, next, log);
        if !settings.noInternalHelp && text[0] == 'h' { return Bad(Help); }
        code := ParseShortOpt();
        if code == Missing {
          argv[pos] := "-" + text;
        }
        if code != Fine { return; }
      }
    }

    /** The current word, which starts with two dashes. */
    method ParseLong() returns (code: Code)
      requires Valid() && argc > 0 && opt == Nothing && |argv[pos]| > 2
      modifies this`pos, this`argc, this`cpidx, this`opt, this`log, argv
      ensures argc > 0 && pos + argc == argv.Length && cpidx <= old(pos) + 1
      ensures match Long(table, old(argv[pos]), old(Next()), old(log))
        case Quit(e) => code == Bad(e)
        case Unrecognized(text, now) =>
          && code == Missing && pos == old(pos) && cpidx == old(cpidx) && log == now
          && argv[..] == old(argv[..]) && argv[pos] == text
        case Go(kept, used, now) =>
          && code == Fine && pos == old(pos) + used && opt == Nothing && log == now
          && argv[..cpidx] == old(argv[..cpidx]) + kept && argv[old(pos) + 1..] == old(Next())
    {
      hide TakeValue, Resolve;
      var arg := argv[pos];
      var r := ParseLongOpt(table, arg[2..]);
      match r {
        case Unknown => code := Missing;
        case Ambiguous => code := Bad(Help);
        case TakesNoValue => code := Bad(Help);
        case Kept =>
          argv[cpidx] := arg;
          cpidx := cpidx + 1;
          code := Fine;
        case Resolved(o, unset, attached) =>
          opt := attached;
          code := GetValue(o, unset, false);
      }
    }

    /** The current word, which starts with two dashes and may be one of the parser's own. */
    method ParseLongWord() returns (code: Code)
      requires Valid() && argc > 0 && opt == Nothing && |argv[pos]| > 2
      modifies this`pos, this`argc, this`cpidx, this`opt, this`log, argv
      ensures argc > 0 && pos + argc == argv.Length && cpidx <= old(pos) + 1
      ensures match LongWord(table, settings, old(argv[pos]), old(Next()), old(log))
        case Quit(e) => code == Bad(e)
        case Unrecognized(text, now) =>
          && code == Missing && pos == old(pos) && cpidx == old(cpidx) && log == now
          && argv[..] == old(argv[..]) && argv[pos] == text
        case Go(kept, used, now) =>
          && code == Fine && pos == old(pos) + used && opt == Nothing && log == now
          && argv[..cpidx] == old(argv[..cpidx]) + kept && argv[old(pos) + 1..] == old(Next())
    {
      hide Long;
      var arg := argv[pos];
      if !settings.noInternalHelp && (arg == "--help-all" || arg == "--help") {
        return Bad(Help);
      } else if arg == "--list-opts" {
        return Bad(ListOptions);
      } else if arg == "--list-cmds" {
        return Bad(ListCommands);
      }
      code := ParseLong();
    }

    /** Keeps the current word. */
    method Keep()
      requires Valid() && argc > 0
      modifies this`cpidx, argv
      ensures cpidx == old(cpidx) + 1 && argv[..cpidx] == old(argv[..cpidx]) + [old(argv[pos])]
      ensures argv[pos + 1..] == old(Next())
    {
      argv[cpidx] := argv[pos];
      cpidx := cpidx + 1;
    }

    /** One round of the loop in `parse_options_step`, short of moving on to the next word. */
    method ParseWord() returns (code: Code)
      requires Valid() && argc > 0 && opt == Nothing
      modifies this`pos, this`argc, this`cpidx, this`opt, this`log, argv
      ensures pos + argc == argv.Length && cpidx <= old(pos) + 1
      ensures match ActOn(table, settings, old(argv[pos]), old(Next()), old(log))
        case Quit(e) => code == Bad(e)
        case Stop =>
          code == Halt && pos == old(pos) && cpidx == old(cpidx) && log == old(log) && argv[..] == old(argv[..])
        case StopAfter =>
          code == Halt && pos == old(pos) + 1 && cpidx == old(cpidx) && log == old(log) && argv[..] == old(argv[..])
        case Go(kept, used, now) =>
          && code == Fine && argc > 0 && pos == old(pos) + used && opt == Nothing && log == now
          && argv[..cpidx] == old(argv[..cpidx]) + kept && argv[old(pos) + 1..] == old(Next())
    {
      hide Cluster, LongWord, LooksLong;
      var arg := argv[pos];
      ghost var start := pos;
      if IsPlain(arg) {
        if settings.stopAtNonOption { return Halt; }
        Keep();
        return Fine;
      }
      if arg[1] != '-' {
        code := ParseCluster();
        assert argv[..cpidx] == argv[..start][..cpidx];
      } else if |arg| == 2 {
        if !settings.keepDashdash {
          argc := argc - 1;
          pos := pos + 1;
        }
        return Halt;
      } else {
        code := ParseLongWord();
      }
      if code == Missing {
        if !settings.keepUnknown { return Bad(UnknownOption); }
        Keep();
        opt := Nothing;
        code := Fine;
      }
    }

    /** `parse_options_step`: the kept words are written over words already read, never over one
        still to be read. */
    method Step() returns (exit: Maybe<Exit>)
      requires Valid() && opt == Nothing
      modifies this`pos, this`argc, this`cpidx, this`opt, this`log, argv
      ensures match Collect(table, settings, old(argv[pos..]), old(argv[..cpidx]), old(log))
        case Ends(e) => exit == Just(e)
        case Done(kept, rest, effects) =>
          exit == Nothing && Valid() && argv[..cpidx] == kept && argv[pos..] == rest && log == effects
    {
      hide ActOn, Collect;
      while argc > 0
        invariant Valid() && opt == Nothing
        invariant Collect(table, settings, old(argv[pos..]), old(argv[..cpidx]), old(log))
          == Collect(table, settings, argv[pos..], argv[..cpidx], log)
        decreases argc
      {
        ghost var args, kept, effects := argv[pos..], argv[..cpidx], log;
        assert Next() == args[1..];
        var code := ParseWord();
        ghost var act := ActOn(table, settings, args[0], args[1..], effects);
        if code != Fine {
          exit := if code.Bad? then Just(code.exit) else Nothing;
          CollectHalts(table, settings, args, kept, effects, act);
          return;
        }
        pos := pos + 1;
        argc := argc - 1;
        CollectGo(table, settings, args, kept, effects, act);
        assert argv[pos..] == args[1..][act.used..] == args[1 + act.used..];
      }
      exit := Nothing;
      CollectNothing(table, settings, argv[pos..], argv[..cpidx], log);
    }

    /** `parse_options_end`: moves the unread words down behind the kept ones. */
    method End() returns (n: nat)
      requires Valid()
      modifies argv
      ensures n == cpidx + argc <= argv.Length
      ensures argv[..n] == old(argv[..cpidx]) + old(argv[pos..])
    {
      forall i | cpidx <= i < cpidx + argc {
        argv[i] := argv[pos + (i - cpidx)];
      }
      n := cpidx + argc;
    }
  }

  /** `parse_options`: the front of the vector holds the program name if asked for, the kept words
      and the unread ones. */
  method ParseOptions(table: seq<Opt>, s: Settings, argv: array<string>)
      returns (exit: Maybe<Exit>, n: nat, log: seq<Effect>)
    requires argv.Length > 0
    modifies argv
    ensures n <= argv.Length
    ensures s.keepUnknown && s.stopAtNonOption ==> exit == Just(Died)
    ensures !(s.keepUnknown && s.stopAtNonOption) ==>
      match Collect(table, s, old(argv[1..]), if s.keepArgv0 then [old(argv[0])] else [], [])
      case Ends(e) => exit == Just(e)
      case Done(kept, rest, effects) => exit == Nothing && log == effects && argv[..n] == kept + rest
  {
    n, log := 0, [];
    if s.keepUnknown && s.stopAtNonOption { return Just(Died), 0, []; }
    var ctx := new Context.Start(table, s, argv);
    assert argv[..ctx.cpidx] == if s.keepArgv0 then [argv[0]] else [];
    hide Collect;
    exit := ctx.Step();
    if exit == Nothing {
      n := ctx.End();
      log := ctx.log;
    }
  }
}
