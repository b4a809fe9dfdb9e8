/** What a command line means, util/parse-options.c: how its words divide into options with their values, words
    that are kept and a tail, and what each option says. */
module Reading {
  import opened Optional
  import opened Options
  import opened Argv

  // ---------- Values ----------

  predicate NumberFrom(s: string, i: nat, j: nat) {
    && i <= j < |s|
    && (forall k | 0 <= k < i :: s[k] in [' ', '\t', '\n', '\r', '\U{B}', '\U{C}'])
    && (j == i || (j == i + 1 && s[i] in ['+', '-']))
    && (forall k | j <= k < |s| :: '0' <= s[k] <= '9')
  }

  /** Nothing at all, or blanks, at most one sign, and digits. */
  ghost predicate IsNumber(s: string) {
    s == "" || exists i: nat, j: nat :: NumberFrom(s, i, j)
  }

  function Blanks(s: string): (n: nat)
    ensures n <= |s| && SkipSpace(s) == s[n..]
    ensures forall k | 0 <= k < n :: s[k] in [' ', '\t', '\n', '\r', '\U{B}', '\U{C}']
    ensures n < |s| ==> s[n] !in [' ', '\t', '\n', '\r', '\U{B}', '\U{C}']
  {
    if s != "" && s[0] in [' ', '\t', '\n', '\r', '\U{B}', '\U{C}'] then
      assert s[1..][Blanks(s[1..])..] == s[1 + Blanks(s[1..])..];
      1 + Blanks(s[1..])
    else 0
  }

  predicate Digits(s: string, j: nat) {
    forall k | j <= k < |s| :: '0' <= s[k] <= '9'
  }

  lemma AllDigits(s: string, j: nat)
    requires j <= |s|
    ensures (forall c | c in s[j..] :: '0' <= c <= '9') <==> Digits(s, j)
  {
    var t := s[j..];
    if forall c | c in t :: '0' <= c <= '9' {
      forall k | j <= k < |s| ensures '0' <= s[k] <= '9' { assert s[k] == t[k - j] && t[k - j] in t; }
    }
    if Digits(s, j) {
      forall c | c in t ensures '0' <= c <= '9' {
        var k :| 0 <= k < |t| && t[k] == c;
        assert s[j + k] == c;
      }
    }
  }

  lemma NumericMeans(s: string)
    ensures Numeric(s) <==> IsNumber(s)
  {
    var n, t := Blanks(s), SkipSpace(s);
    var j := if t != "" && (t[0] == '+' || t[0] == '-') then n + 1 else n;
    var digits := if t != "" && (t[0] == '+' || t[0] == '-') then t[1..] else t;
    assert digits == s[j..];
    AllDigits(s, j);
    assert Numeric(s) <==> s == "" || (j < |s| && Digits(s, j)) by { hide Digits; }
    hide Numeric, SkipSpace;
    if s != "" && j < |s| && Digits(s, j) {
      assert NumberFrom(s, n, j);
    }
    if i: nat, k: nat :| NumberFrom(s, i, k) {
      SamePlaces(s, i, k, n, j);
    }
  }

  lemma SamePlaces(s: string, i: nat, k: nat, n: nat, j: nat)
    requires NumberFrom(s, i, k) && n <= j && n <= |s|
    requires forall x | 0 <= x < n :: s[x] in [' ', '\t', '\n', '\r', '\U{B}', '\U{C}']
    requires (n < |s| ==> s[n] !in [' ', '\t', '\n', '\r', '\U{B}', '\U{C}'])
    requires j == if n < |s| && (s[n] == '+' || s[n] == '-') then n + 1 else n
    ensures i == n && k == j && Digits(s, j)
  {
    assert s[i] !in [' ', '\t', '\n', '\r', '\U{B}', '\U{C}'];
    assert i == n;
  }

  predicate TakesNone(o: Opt) {
    o.kind == Flag || (o.kind == Callback && o.noArg)
  }

  /** The value an option has, and how many of the next words it uses up.  A negated option has none, and nothing
      attached; otherwise an option that takes a value has the one attached, or none but its default if the value is
      optional, or its default if it has one and no word but an option follows, or the next word. */
  ghost predicate ValueOf(
      o: Opt, unset: bool, attached: Maybe<string>, next: seq<string>, value: Maybe<string>, used: nat) {
    && o.kind != Argument
    && (unset ==> attached == Nothing && !o.noNeg)
    && (if unset || TakesNone(o) then value == Nothing && used == 0
        else if attached.Just? then value == attached && used == 0
        else if o.optArg then value == (if o.kind == Text then Just(o.default) else Nothing) && used == 0
        else if o.lastArgDefault && (next == [] || (next[0] != "" && next[0][0] == '-')) then
          value == Just(o.default) && used == 0
        else next != [] && value == Just(next[0]) && used == 1)
    && (o.kind == Callback ==> (value, unset) !in o.refuses)
    && (o.kind == Number && value.Just? ==> IsNumber(value.value))
  }

  lemma LongValue(o: Opt, unset: bool, attached: Maybe<string>, next: seq<string>, value: Maybe<string>, used: nat)
    ensures var v := TakeValue(o, unset, false, attached, next);
      v.Taken? && v.effect == Effect(o, unset, value) && v.used == used
      <==> ValueOf(o, unset, attached, next, value, used) && (TakesNone(o) ==> attached == Nothing)
  {
    hide Numeric, IsNumber;
    if value.Just? {
      NumericMeans(value.value);
    }
  }

  lemma ShortValue(o: Opt, rest: Maybe<string>, next: seq<string>, value: Maybe<string>, used: nat)
    ensures var v := TakeValue(o, false, true, rest, next);
      && (v.Taken? ==> v.left == if TakesNone(o) then rest else Nothing)
      && (v.Taken? && v.effect == Effect(o, false, value) && v.used == used
          <==> ValueOf(o, false, if TakesNone(o) then Nothing else rest, next, value, used))
  {
    hide Numeric, IsNumber;
    if value.Just? {
      NumericMeans(value.value);
    }
  }

  // ---------- One word ----------

  /** The first entry with this letter. */
  ghost predicate HasLetter(table: seq<Opt>, c: char, o: Opt) {
    exists i :: 0 <= i < |table| && table[i] == o && FirstAt(table, c, i)
  }

  predicate FirstAt(table: seq<Opt>, c: char, i: nat)
    requires i < |table|
  {
    table[i].shortName == Just(c) && forall j | 0 <= j < i :: table[j].shortName != Just(c)
  }

  lemma {:induction false} LetterFound(table: seq<Opt>, c: char, o: Opt)
    ensures FindShort(table, c) == Just(o) <==> HasLetter(table, c, o)
    ensures FindShort(table, c) == Nothing <==> forall x | x in table :: x.shortName != Just(c)
  {
    if table != [] {
      LetterFound(table[1..], c, o);
      if table[0].shortName == Just(c) {
        assert FirstAt(table, c, 0);
        forall i | 0 < i < |table| ensures !FirstAt(table, c, i) { assert table[0].shortName == Just(c); }
      } else {
        forall i | 0 < i < |table| ensures FirstAt(table, c, i) <==> FirstAt(table[1..], c, i - 1) {
          if FirstAt(table[1..], c, i - 1) {
            forall j | 0 <= j < i ensures table[j].shortName != Just(c) {
              assert j > 0 ==> table[j] == table[1..][j - 1];
            }
          }
          if FirstAt(table, c, i) {
            forall j | 0 <= j < i - 1 ensures table[1..][j].shortName != Just(c) {
              assert table[1..][j] == table[j + 1];
            }
          }
        }
        if HasLetter(table, c, o) {
          var i :| 0 <= i < |table| && table[i] == o && FirstAt(table, c, i);
          assert table[1..][i - 1] == o && FirstAt(table[1..], c, i - 1);
        }
        if HasLetter(table[1..], c, o) {
          var i :| 0 <= i < |table[1..]| && table[1..][i] == o && FirstAt(table[1..], c, i);
          assert table[i + 1] == o && FirstAt(table, c, i + 1);
        }
      }
    }
  }

  /** A word with one dash that reads like a long one: "no-", or the beginning of a long name. */
  predicate ReadsLong(table: seq<Opt>, text: string) {
    |text| >= 3 && ("no-" <= text || exists o | o in table :: o.longName.Just? && text <= o.longName.value)
  }

  /** The switch that a letter is. */
  ghost predicate Switch(table: seq<Opt>, s: Settings, c: char, e: Effect) {
    (s.noInternalHelp || c != 'h') && !e.unset && HasLetter(table, c, e.opt)
  }

  /** The letters `text` at the end of a one-dash word: each is a switch, in order.  All but the last take no value;
      the last may have the rest of the word, or the next word, as its value.  If unknown words are kept, the word may
      end in letters of which the first is no switch; these are kept, with a dash. */
  ghost predicate SaysLetters(table: seq<Opt>, s: Settings, word: string, text: string, next: seq<string>,
                              effects: seq<Effect>, used: nat, keeps: seq<string>)
  {
    var m := |effects|;
    && m <= |text|
    && (forall j | 0 <= j < m :: Switch(table, s, text[j], effects[j]))
    && (forall j | 0 <= j < m - 1 ::
          TakesNone(effects[j].opt) && ValueOf(effects[j].opt, false, Nothing, [], effects[j].value, 0))
    && (m > 0 && |text| > 1 && text == word && TakesNone(effects[0].opt) ==> !ReadsLong(table, word))
    && (if m > 0 && !TakesNone(effects[m - 1].opt) then
          && ValueOf(effects[m - 1].opt, false, if m < |text| then Just(text[m..]) else Nothing, next,
                     effects[m - 1].value, used)
          && keeps == []
        else
          && used == 0 && (m > 0 ==> ValueOf(effects[m - 1].opt, false, Nothing, [], effects[m - 1].value, 0))
          && (if m == |text| then keeps == []
              else
                && s.keepUnknown && keeps == ["-" + text[m..]] && (s.noInternalHelp || text[m] != 'h')
                && forall o | o in table :: o.shortName != Just(text[m])))
  }

  /** A word with two dashes says the option that its name resolves to. */
  ghost predicate SaysLong(table: seq<Opt>, s: Settings, word: string, next: seq<string>, effects: seq<Effect>,
                           used: nat, keeps: seq<string>)
    requires |word| > 2
  {
    && word != "--list-opts" && word != "--list-cmds"
    && (s.noInternalHelp || (word != "--help" && word != "--help-all"))
    && var r := Resolve(table, word[2..], Options.START);
    if r.Resolved? then
      && |effects| == 1 && effects[0].opt == r.opt && effects[0].unset == r.unset && keeps == []
      && (TakesNone(r.opt) ==> r.attached == Nothing)
      && ValueOf(r.opt, r.unset, r.attached, next, effects[0].value, used)
    else
      (r.Kept? || (r.Unknown? && s.keepUnknown)) && effects == [] && used == 0 && keeps == [word]
  }

  ghost predicate Says(table: seq<Opt>, s: Settings, word: string, next: seq<string>, effects: seq<Effect>, used: nat,
                       keeps: seq<string>)
  {
    && |word| >= 2 && word[0] == '-' && word != "--"
    && if word[1] == '-' then SaysLong(table, s, word, next, effects, used, keeps)
       else SaysLetters(table, s, word[1..], word[1..], next, effects, used, keeps)
  }

  lemma LongReads(table: seq<Opt>, s: Settings, word: string, next: seq<string>, log: seq<Effect>,
                  effects: seq<Effect>, used: nat, keeps: seq<string>)
    requires |word| > 2
    ensures Settle(s, LongWord(table, s, word, next, log)) == Go(keeps, used, log + effects)
       <==> SaysLong(table, s, word, next, effects, used, keeps)
    ensures var a := Settle(s, LongWord(table, s, word, next, log));
      a.Go? ==> |log| <= |a.log| && a.log[..|log|] == log
  {
    hide TakeValue, Resolve, ValueOf;
    var r := Resolve(table, word[2..], Options.START);
    assert log + [] == log;
    if r.Resolved? {
      var v := TakeValue(r.opt, r.unset, false, r.attached, next);
      if v.Taken? {
        TakenEffect(r.opt, r.unset, false, r.attached, next);
        LongValue(r.opt, r.unset, r.attached, next, v.effect.value, v.used);
        SameTail(log, [v.effect], effects);
      }
      if |effects| == 1 {
        LongValue(r.opt, r.unset, r.attached, next, effects[0].value, used);
        assert effects == [effects[0]];
      }
    } else {
      SameTail(log, [], effects);
    }
  }

  lemma TakenEffect(o: Opt, unset: bool, short: bool, left: Maybe<string>, next: seq<string>)
    ensures var v := TakeValue(o, unset, short, left, next);
      v.Taken? ==> v.effect.opt == o && v.effect.unset == unset
  {
    hide Numeric;
  }

  lemma SameTail(log: seq<Effect>, a: seq<Effect>, b: seq<Effect>)
    ensures log + a == log + b <==> a == b
    ensures (log + a)[..|log|] == log
  {
    assert (log + a)[|log|..] == a && (log + b)[|log|..] == b;
  }

  /** How a switch that leaves letters to read is followed by what they say. */
  lemma LettersBehind(table: seq<Opt>, s: Settings, word: string, text: string, next: seq<string>, e: Effect,
                      rest: seq<Effect>, used: nat, keeps: seq<string>)
    requires |text| > 1 && (|text| < |word| || text == word) && TakesNone(e.opt)
    ensures SaysLetters(table, s, word, text, next, [e] + rest, used, keeps) <==>
      && Switch(table, s, text[0], e) && ValueOf(e.opt, false, Nothing, [], e.value, 0)
      && (text == word ==> !ReadsLong(table, word))
      && SaysLetters(table, s, word, text[1..], next, rest, used, keeps)
  {
    hide Switch, ValueOf, ReadsLong, TakesNone;
    var effects, text' := [e] + rest, text[1..];
    assert effects[1..] == rest;
    var m := |effects|;
    assert m <= |text| ==> text[m..] == text'[m - 1..];
    assert text' != word;
    if SaysLetters(table, s, word, text, next, effects, used, keeps) {
      forall j | 0 <= j < m - 1 ensures Switch(table, s, text'[j], rest[j]) {
        assert Switch(table, s, text[j + 1], effects[j + 1]);
      }
      forall j | 0 <= j < m - 2
        ensures TakesNone(rest[j].opt) && ValueOf(rest[j].opt, false, Nothing, [], rest[j].value, 0)
      {
        assert rest[j] == effects[j + 1];
      }
      assert effects[0] == e;
      assert SaysLetters(table, s, word, text', next, rest, used, keeps);
    }
    if Switch(table, s, text[0], e) && ValueOf(e.opt, false, Nothing, [], e.value, 0)
      && (text == word ==> !ReadsLong(table, word)) && SaysLetters(table, s, word, text', next, rest, used, keeps)
    {
      forall j | 0 <= j < m ensures Switch(table, s, text[j], effects[j]) {
        if j > 0 {
          assert Switch(table, s, text'[j - 1], rest[j - 1]);
        }
      }
      forall j | 0 <= j < m - 1
        ensures TakesNone(effects[j].opt) && ValueOf(effects[j].opt, false, Nothing, [], effects[j].value, 0)
      {
        if j > 0 {
          assert effects[j] == rest[j - 1];
        }
      }
    }
  }

  lemma OnlySwitch(table: seq<Opt>, s: Settings, word: string, text: string, next: seq<string>, v: Value,
                   effects: seq<Effect>, used: nat, keeps: seq<string>)
    requires text != "" && v == TakeShort(table, text, next) && v.Taken? && v.left == Nothing
    requires s.noInternalHelp || text[0] != 'h'
    ensures SaysLetters(table, s, word, text, next, effects, used, keeps)
       <==> effects == [v.effect] && used == v.used && keeps == []
  {
    var o := v.effect.opt;
    LetterFound(table, text[0], o);
    var found := FindShort(table, text[0]).value;
    var rest := if |text| > 1 then Just(text[1..]) else Nothing;
    TakenEffect(found, false, true, rest, next);
    ShortValue(found, rest, next, v.effect.value, v.used);
    hide TakeValue, FindShort, HasLetter;
    if effects != [] {
      LetterFound(table, text[0], effects[0].opt);
      ShortValue(found, rest, next, effects[0].value, used);
      assert |effects| == 1 ==> effects == [effects[0]];
    } else {
      assert found in table;
    }
  }

  lemma NoSwitch(table: seq<Opt>, s: Settings, word: string, text: string, next: seq<string>,
                 effects: seq<Effect>, used: nat, keeps: seq<string>)
    requires text != "" && !TakeShort(table, text, next).Taken? && (s.noInternalHelp || text[0] != 'h')
    ensures SaysLetters(table, s, word, text, next, effects, used, keeps) <==>
      && TakeShort(table, text, next).Unfound? && s.keepUnknown
      && effects == [] && used == 0 && keeps == ["-" + text]
  {
    hide TakeValue, HasLetter;
    var rest := if |text| > 1 then Just(text[1..]) else Nothing;
    LetterFound(table, text[0], if effects == [] then WITNESS else effects[0].opt);
    var f := FindShort(table, text[0]);
    if f.Just? && effects != [] {
      ShortValue(f.value, rest, next, effects[0].value, 0);
      ShortValue(f.value, rest, next, effects[0].value, used);
    }
    assert text[0..] == text;
  }

  const WITNESS := Opt(Flag, Nothing, Nothing, false, false, false, false, "", {})

  lemma {:induction false} ClusterReads(table: seq<Opt>, s: Settings, word: string, text: string, next: seq<string>,
                                        log: seq<Effect>, effects: seq<Effect>, used: nat, keeps: seq<string>)
    requires text != "" && (|text| < |word| || text == word)
    ensures Settle(s, Cluster(table, s, word, text, next, log)) == Go(keeps, used, log + effects)
       <==> SaysLetters(table, s, word, text, next, effects, used, keeps)
    ensures var a := Settle(s, Cluster(table, s, word, text, next, log));
      a.Go? ==> |log| <= |a.log| && a.log[..|log|] == log
    decreases |text|
  {
    hide TakeShort, ReadsLong, LooksLong, SaysLetters, ValueOf;
    ClusterUnfold(table, s, word, text, next, log);
    var v := TakeShort(table, text, next);
    assert log + [] == log;
    if !s.noInternalHelp && text[0] == 'h' {
      NoHelp(table, s, word, text, next, effects, used, keeps);
    } else if !v.Taken? {
      NoSwitch(table, s, word, text, next, effects, used, keeps);
      SameTail(log, [], effects);
    } else if v.left == Nothing {
      OnlySwitch(table, s, word, text, next, v, effects, used, keeps);
      SameTail(log, [v.effect], effects);
    } else {
      FirstSwitch(table, s, word, text, next, v, effects, used, keeps);
      ReadsLikeLong(table, word);
      var text', log' := text[1..], log + [v.effect];
      if |text| == |word| && LooksLong(table, word) {
      } else {
        ClusterReads(table, s, word, text', next, log', if effects == [] then [] else effects[1..], used, keeps);
        if effects != [] && effects[0] == v.effect {
          assert effects == [v.effect] + effects[1..];
          assert log + effects == log' + effects[1..];
        }
        var a := Settle(s, Cluster(table, s, word, text', next, log'));
        if a.Go? {
          assert a.log[..|log'|][|log|] == v.effect && a.log[..|log|] == a.log[..|log'|][..|log|];
          if a.log == log + effects {
            assert effects[0] == v.effect;
          }
        }
      }
    }
  }

  lemma ReadsLikeLong(table: seq<Opt>, word: string)
    ensures ReadsLong(table, word) <==> LooksLong(table, word)
  {}

  lemma NoHelp(table: seq<Opt>, s: Settings, word: string, text: string, next: seq<string>,
               effects: seq<Effect>, used: nat, keeps: seq<string>)
    requires text != "" && !s.noInternalHelp && text[0] == 'h'
    ensures !SaysLetters(table, s, word, text, next, effects, used, keeps)
  {}

  /** A switch that leaves letters to read is the first effect. */
  lemma FirstSwitch(table: seq<Opt>, s: Settings, word: string, text: string, next: seq<string>, v: Value,
                    effects: seq<Effect>, used: nat, keeps: seq<string>)
    requires text != "" && v == TakeShort(table, text, next) && v.Taken? && v.left.Just?
    requires s.noInternalHelp || text[0] != 'h'
    requires |text| < |word| || text == word
    ensures |text| > 1 && v.left.value == text[1..] && v.used == 0
    ensures SaysLetters(table, s, word, text, next, effects, used, keeps) <==>
      && effects != [] && effects[0] == v.effect && (text == word ==> !ReadsLong(table, word))
      && SaysLetters(table, s, word, text[1..], next, effects[1..], used, keeps)
  {
    var o, rest := v.effect.opt, Just(text[1..]);
    LetterFound(table, text[0], o);
    var found := FindShort(table, text[0]).value;
    TakenEffect(found, false, true, rest, next);
    ShortValue(found, rest, next, v.effect.value, v.used);
    hide TakeValue, FindShort, HasLetter, ReadsLong;
    if effects == [] {
      assert found in table;
    } else {
      var e := effects[0];
      LetterFound(table, text[0], e.opt);
      ShortValue(found, rest, next, e.value, 0);
      assert [e] + effects[1..] == effects;
      if e.opt == found {
        LettersBehind(table, s, word, text, next, e, effects[1..], used, keeps);
      }
    }
  }

  /** An option word is read as what it says, and in no other way. */
  lemma OptionReads(table: seq<Opt>, s: Settings, word: string, next: seq<string>, log: seq<Effect>,
                    effects: seq<Effect>, used: nat, keeps: seq<string>)
    requires |word| >= 2 && word[0] == '-' && word != "--"
    ensures ActOn(table, s, word, next, log) == Go(keeps, used, log + effects)
       <==> Says(table, s, word, next, effects, used, keeps)
    ensures var a := ActOn(table, s, word, next, log);
      (a.Go? ==> |log| <= |a.log| && a.log[..|log|] == log) && (a.Go? || a.Quit?)
  {
    hide Cluster, LongWord, SaysLong, SaysLetters;
    if word[1] == '-' {
      assert |word| == 2 ==> word == "--";
      LongReads(table, s, word, next, log, effects, used, keeps);
    } else {
      ClusterReads(table, s, word[1..], word[1..], next, log, effects, used, keeps);
    }
  }

  // ---------- Words that end the program ----------

  /** No value that the option could have is taken. */
  ghost predicate NoValue(o: Opt, unset: bool, attached: Maybe<string>, next: seq<string>) {
    forall value, used :: !ValueOf(o, unset, attached, next, value, used)
  }

  ghost predicate StopsLong(table: seq<Opt>, s: Settings, word: string, next: seq<string>, e: Exit)
    requires |word| > 2
  {
    if word == "--list-opts" then e == ListOptions
    else if word == "--list-cmds" then e == ListCommands
    else if !s.noInternalHelp && (word == "--help" || word == "--help-all") then e == Help
    else
      var r := Resolve(table, word[2..], Options.START);
      if r.Unknown? then !s.keepUnknown && e == UnknownOption
      else if r.Resolved? then
        && (e == Help || (r.opt.kind == Argument && e == Died))
        && ((TakesNone(r.opt) && r.attached.Just?) || NoValue(r.opt, r.unset, r.attached, next))
      else !r.Kept? && e == Help
  }

  /** After these switches the letters end the program: because the word reads like a long one, at the letter for
      help, at a letter that is no switch, or at one that cannot have its value. */
  ghost predicate StopsLetters(table: seq<Opt>, s: Settings, word: string, text: string, next: seq<string>,
                               read: seq<Effect>, e: Exit)
  {
    var m := |read|;
    && m < |text|
    && (forall j | 0 <= j < m :: Switch(table, s, text[j], read[j]))
    && (forall j | 0 <= j < m :: TakesNone(read[j].opt))
    && (if m > 0 && text == word && ReadsLong(table, word) then m == 1 && e == Typo
        else if !s.noInternalHelp && text[m] == 'h' then e == Help
        else if forall o | o in table :: o.shortName != Just(text[m]) then !s.keepUnknown && e == UnknownOption
        else exists o :: HasLetter(table, text[m], o) && SwitchStops(o, text, m, next, e))
  }

  ghost predicate SwitchStops(o: Opt, text: string, m: nat, next: seq<string>, e: Exit)
    requires m < |text|
  {
    && e == (if o.kind == Argument then Died else Help)
    && NoValue(o, false, if TakesNone(o) || m + 1 == |text| then Nothing else Just(text[m + 1..]), next)
  }

  ghost predicate Stops(table: seq<Opt>, s: Settings, word: string, next: seq<string>, e: Exit) {
    && |word| >= 2 && word[0] == '-' && word != "--"
    && if word[1] == '-' then |word| > 2 && StopsLong(table, s, word, next, e)
       else exists read :: StopsLetters(table, s, word[1..], word[1..], next, read, e)
  }

  lemma LongStops(table: seq<Opt>, s: Settings, word: string, next: seq<string>, log: seq<Effect>)
    requires |word| > 2
    ensures var a := Settle(s, LongWord(table, s, word, next, log));
      a.Quit? ==> StopsLong(table, s, word, next, a.exit)
  {
    hide ValueOf, Resolve;
    var r := Resolve(table, word[2..], Options.START);
    if r.Resolved? {
      RefusedMeans(r.opt, r.unset, false, r.attached, next);
      hide TakeValue;
    }
  }

  lemma RefusedMeans(o: Opt, unset: bool, short: bool, attached: Maybe<string>, next: seq<string>)
    requires short ==> !unset
    ensures var v := TakeValue(o, unset, short, attached, next);
      && !v.Unfound?
      && (v.Refused? ==>
        && (v.exit == Help || (o.kind == Argument && v.exit == Died))
        && (short ==> v.exit == if o.kind == Argument then Died else Help)
        && ((!short && TakesNone(o) && attached.Just?)
            || NoValue(o, unset, if short && TakesNone(o) then Nothing else attached, next)))
  {
    var left := if short && TakesNone(o) then Nothing else attached;
    forall value, used: nat | TakeValue(o, unset, short, attached, next).Refused?
      ensures ValueOf(o, unset, left, next, value, used) ==> !short && TakesNone(o) && attached != Nothing
    {
      if short {
        ShortValue(o, attached, next, value, used);
      } else {
        LongValue(o, unset, attached, next, value, used);
      }
    }
    hide ValueOf;
  }

  lemma {:induction false} ClusterStops(table: seq<Opt>, s: Settings, word: string, text: string, next: seq<string>,
                                        log: seq<Effect>) returns (read: seq<Effect>)
    requires text != "" && (|text| < |word| || text == word)
    ensures var a := Settle(s, Cluster(table, s, word, text, next, log));
      a.Quit? ==> StopsLetters(table, s, word, text, next, read, a.exit)
    decreases |text|
  {
    hide LooksLong, ValueOf, ReadsLong, FindShort, TakeValue, TakesNone, NoValue, HasLetter;
    ClusterUnfold(table, s, word, text, next, log);
    var v, f := TakeShort(table, text, next), FindShort(table, text[0]);
    var rest := if |text| > 1 then Just(text[1..]) else Nothing;
    LetterFound(table, text[0], if f.Just? then f.value else WITNESS);
    read := [];
    if (s.noInternalHelp || text[0] != 'h') && f.Just? {
      var o := f.value;
      assert o in table && o.shortName == Just(text[0]);
      RefusedMeans(o, false, true, rest, next);
      TakenEffect(o, false, true, rest, next);
      if v.Taken? && v.left.Just? {
        ShortValue(o, rest, next, v.effect.value, v.used);
        ReadsLikeLong(table, word);
        if text == word && ReadsLong(table, word) {
          read := [v.effect];
          assert Switch(table, s, text[0], v.effect);
        } else {
          var more := ClusterStops(table, s, word, text[1..], next, log + [v.effect]);
          read := [v.effect] + more;
          StopsBehind(table, s, word, text, next, v.effect, more,
            Settle(s, Cluster(table, s, word, text[1..], next, log + [v.effect])));
        }
      }
    }
  }

  lemma StopsBehind(table: seq<Opt>, s: Settings, word: string, text: string, next: seq<string>, e: Effect,
                    more: seq<Effect>, a: Act)
    requires |text| > 1 && (|text| < |word| || text == word) && TakesNone(e.opt) && Switch(table, s, text[0], e)
    requires text == word ==> !ReadsLong(table, word)
    requires a.Quit? ==> StopsLetters(table, s, word, text[1..], next, more, a.exit)
    ensures a.Quit? ==> StopsLetters(table, s, word, text, next, [e] + more, a.exit)
  {
    hide Switch, ReadsLong, TakesNone, NoValue, HasLetter;
    var read, text', m := [e] + more, text[1..], |more|;
    assert text' != word;
    if a.Quit? {
      assert text[m + 1] == text'[m] && (m + 2 <= |text| ==> text[m + 2..] == text'[m + 1..]);
      forall j | 0 <= j < m + 1 ensures Switch(table, s, text[j], read[j]) {
        if j > 0 {
          assert Switch(table, s, text'[j - 1], more[j - 1]);
        }
      }
      forall j | 0 <= j < m + 1 ensures TakesNone(read[j].opt) {
        if j > 0 {
          assert read[j] == more[j - 1];
        }
      }
    }
  }

  lemma OptionStops(table: seq<Opt>, s: Settings, word: string, next: seq<string>, log: seq<Effect>)
    requires |word| >= 2 && word[0] == '-' && word != "--"
    ensures var a := ActOn(table, s, word, next, log); a.Quit? ==> Stops(table, s, word, next, a.exit)
  {
    hide Cluster, LongWord, StopsLong, StopsLetters;
    if word[1] == '-' {
      assert |word| == 2 ==> word == "--";
      LongStops(table, s, word, next, log);
    } else {
      var read := ClusterStops(table, s, word[1..], word[1..], next, log);
    }
  }

  // ---------- A whole line ----------

  /** The part each word of the line plays; an option has what it keeps and what it says. */
  datatype Role =
    | Option(keeps: seq<string>, effects: seq<Effect>)
    | OptionValue
    | Word
    | Dashes
    | Tail

  /** The words kept, in order. */
  function Keeps(args: seq<string>, roles: seq<Role>): seq<string>
    requires |roles| <= |args|
  {
    if roles == [] then []
    else
      (match roles[0]
       case Option(keeps, _) => keeps
       case Word => [args[0]]
       case _ => [])
      + Keeps(args[1..], roles[1..])
  }

  /** What the options say, in order. */
  function Effects(roles: seq<Role>): seq<Effect> {
    if roles == [] then []
    else (if roles[0].Option? then roles[0].effects else []) + Effects(roles[1..])
  }

  function TailOf(args: seq<string>, roles: seq<Role>): seq<string>
    requires |roles| <= |args|
  {
    if roles == [] then []
    else (if roles[0] == Tail then [args[0]] else []) + TailOf(args[1..], roles[1..])
  }

  /** The number of words that the option at position i uses up as its value. */
  function Used(roles: seq<Role>, i: nat): nat {
    if i + 1 < |roles| && roles[i + 1] == OptionValue then 1 else 0
  }

  /** What the role of the word at position i asks of the line.  An option says its effects with the word behind it as
      its value exactly when that word is one.  A plain word is kept unless words stop the parser.  The tail starts
      behind "--", at a "--" that is kept, or at a word that stops. */
  ghost predicate RoleFits(table: seq<Opt>, s: Settings, args: seq<string>, roles: seq<Role>, i: nat)
    requires i < |roles| <= |args|
  {
    match roles[i]
    case Option(keeps, effects) => Says(table, s, args[i], args[i + 1..], effects, Used(roles, i), keeps)
    case OptionValue => i > 0 && roles[i - 1].Option?
    case Word => IsWord(args[i]) && !s.stopAtNonOption
    case Dashes => args[i] == "--" && !s.keepDashdash
    case Tail =>
      || (i > 0 && (roles[i - 1] == Dashes || roles[i - 1] == Tail))
      || (args[i] == "--" && s.keepDashdash)
      || (IsWord(args[i]) && s.stopAtNonOption)
  }

  /** The first words of the line in their roles. */
  ghost predicate Sensible(table: seq<Opt>, s: Settings, args: seq<string>, roles: seq<Role>) {
    |roles| <= |args| && forall i | 0 <= i < |roles| :: RoleFits(table, s, args, roles, i)
  }

  /** A word that does not look like an option: a dash alone does not. */
  predicate IsWord(word: string) {
    word == "" || word[0] != '-' || word == "-"
  }

  lemma PlainIsWord(word: string)
    ensures IsPlain(word) <==> IsWord(word)
  {}

  /** The tail runs to the end of the line. */
  predicate TailCloses(roles: seq<Role>) {
    forall i | 0 < i < |roles| :: roles[i - 1] == Dashes || roles[i - 1] == Tail ==> roles[i] == Tail
  }

  /** The roles account for what is kept, for the rest and for the options taken. */
  ghost predicate Explains(table: seq<Opt>, s: Settings, args: seq<string>, roles: seq<Role>, kept: seq<string>,
                           log: seq<Effect>, o: Outcome)
  {
    && |roles| == |args| && Sensible(table, s, args, roles) && TailCloses(roles)
    && o == Done(kept + Keeps(args, roles), TailOf(args, roles), log + Effects(roles))
  }

  lemma {:induction false} AllTail(args: seq<string>, roles: seq<Role>)
    requires |args| == |roles| && forall i | 0 <= i < |roles| :: roles[i] == Tail
    ensures Keeps(args, roles) == [] && Effects(roles) == [] && TailOf(args, roles) == args
  {
    if args != [] {
      AllTail(args[1..], roles[1..]);
    }
  }

  /** Roles from the first word on, taken apart behind it and its value. */
  lemma RolesUnfold(args: seq<string>, roles: seq<Role>, used: nat)
    requires roles != [] && |roles| <= |args| && used <= 1 && used < |roles| && (used == 1 ==> roles[1] == OptionValue)
    ensures var rest, roles' := args[1 + used..], roles[1 + used..];
      && Keeps(args, roles) == (if roles[0].Option? then roles[0].keeps else if roles[0] == Word then [args[0]] else [])
                               + Keeps(rest, roles')
      && Effects(roles) == (if roles[0].Option? then roles[0].effects else []) + Effects(roles')
      && TailOf(args, roles) == (if roles[0] == Tail then [args[0]] else []) + TailOf(rest, roles')
  {
    if used == 1 {
      assert args[1..][1..] == args[2..] && roles[1..][1..] == roles[2..];
      assert [] + Keeps(args[2..], roles[2..]) == Keeps(args[2..], roles[2..]);
      assert [] + Effects(roles[2..]) == Effects(roles[2..]);
      assert [] + TailOf(args[2..], roles[2..]) == TailOf(args[2..], roles[2..]);
    }
  }

  lemma RoleBehind(table: seq<Opt>, s: Settings, args: seq<string>, roles: seq<Role>, n: nat, i: nat)
    requires 0 < n <= i < |roles| <= |args|
    requires i == n ==> roles[i] != OptionValue && roles[i - 1] != Dashes && roles[i - 1] != Tail
    ensures RoleFits(table, s, args, roles, i) <==> RoleFits(table, s, args[n..], roles[n..], i - n)
  {
    hide Says, IsWord;
    assert args[n..][i - n + 1..] == args[i + 1..];
  }

  /** An option or a kept word in front of sensible roles, and taken off again. */
  lemma SensibleStep(table: seq<Opt>, s: Settings, args: seq<string>, roles: seq<Role>, used: nat)
    requires roles != [] && |roles| <= |args| && (roles[0].Option? || roles[0] == Word) && used < |roles|
    requires used == Used(roles, 0) && (roles[0] == Word ==> used == 0)
    requires |roles| > 1 + used ==> roles[1 + used] != OptionValue
    ensures Sensible(table, s, args, roles) && TailCloses(roles) <==>
      && (roles[0].Option? ==> Says(table, s, args[0], args[1..], roles[0].effects, used, roles[0].keeps))
      && (roles[0] == Word ==> IsWord(args[0]) && !s.stopAtNonOption)
      && Sensible(table, s, args[1 + used..], roles[1 + used..]) && TailCloses(roles[1 + used..])
  {
    hide Says, IsWord;
    var n := 1 + used;
    var args', roles' := args[n..], roles[n..];
    TailBehind(roles, n);
    forall i | n <= i < |roles|
      ensures RoleFits(table, s, args, roles, i) <==> RoleFits(table, s, args', roles', i - n)
    {
      RoleBehind(table, s, args, roles, n, i);
    }
    assert Sensible(table, s, args, roles) <==> forall i | 0 <= i < |roles| :: RoleFits(table, s, args, roles, i);
    assert Sensible(table, s, args', roles') <==> forall i | 0 <= i < |roles'| :: RoleFits(table, s, args', roles', i);
    assert used == 1 ==> RoleFits(table, s, args, roles, 1);
    hide Sensible, TailCloses;
    if forall i | 0 <= i < |roles| :: RoleFits(table, s, args, roles, i) {
      assert RoleFits(table, s, args, roles, 0);
      forall i | 0 <= i < |roles'| ensures RoleFits(table, s, args', roles', i) {
        assert RoleFits(table, s, args, roles, i + n);
      }
    }
  }

  lemma TailBehind(roles: seq<Role>, n: nat)
    requires 0 < n <= |roles| && forall i | 0 <= i < n :: roles[i] != Dashes && roles[i] != Tail
    ensures TailCloses(roles) <==> TailCloses(roles[n..])
  {
    var roles' := roles[n..];
    if TailCloses(roles) {
      forall i | 0 < i < |roles'| && (roles'[i - 1] == Dashes || roles'[i - 1] == Tail) ensures roles'[i] == Tail {
        assert roles[i + n] == roles'[i] && roles[i + n - 1] == roles'[i - 1];
      }
    }
    if TailCloses(roles') {
      forall i | 0 < i < |roles| && (roles[i - 1] == Dashes || roles[i - 1] == Tail) ensures roles[i] == Tail {
        assert roles[i] == roles'[i - n] && roles[i - 1] == roles'[i - n - 1];
      }
    }
  }

  /** What ActOn makes of a word that is no option. */
  lemma WordActs(table: seq<Opt>, s: Settings, word: string, next: seq<string>, log: seq<Effect>)
    ensures var a := ActOn(table, s, word, next, log);
      && (IsWord(word) ==> a == if s.stopAtNonOption then Stop else Go([word], 0, log))
      && (word == "--" ==> a == if s.keepDashdash then Stop else StopAfter)
      && (!IsWord(word) && word != "--" ==> |word| >= 2 && word[0] == '-')
  {
    hide Cluster, LongWord, Settle;
    PlainIsWord(word);
  }

  lemma NothingMore(kept: seq<string>, log: seq<Effect>, args: seq<string>)
    requires args != []
    ensures kept + [] == kept && log + [] == log && [args[0]] + args[1..] == args && [] + args[1..] == args[1..]
  {}

  lemma StopsHere(table: seq<Opt>, s: Settings, args: seq<string>, kept: seq<string>, log: seq<Effect>)
      returns (roles: seq<Role>)
    requires args != [] && (if IsWord(args[0]) then s.stopAtNonOption else args[0] == "--")
    ensures Explains(table, s, args, roles, kept, log, Collect(table, s, args, kept, log))
  {
    hide Says, Collect, ActOn, Keeps, Effects, TailOf;
    var a := ActOn(table, s, args[0], args[1..], log);
    WordActs(table, s, args[0], args[1..], log);
    CollectHalts(table, s, args, kept, log, a);
    roles := [if a.Stop? then Tail else Dashes] + seq(|args| - 1, _ => Tail);
    assert Sensible(table, s, args, roles) && TailCloses(roles) by { assert !IsWord("--"); }
    hide Sensible, TailCloses, IsWord;
    AllTail(args[1..], roles[1..]);
    RolesUnfold(args, roles, 0);
    NothingMore(kept, log, args);
  }

  /** Every line that parses has a reading that explains the outcome. */
  lemma {:induction false} ParsesAsRead(table: seq<Opt>, s: Settings, args: seq<string>, kept: seq<string>,
                                        log: seq<Effect>) returns (roles: seq<Role>)
    requires Collect(table, s, args, kept, log).Done?
    ensures Explains(table, s, args, roles, kept, log, Collect(table, s, args, kept, log))
    decreases |args|
  {
    hide ActOn, Collect, Says, IsWord, Sensible, TailCloses, Keeps, Effects, TailOf;
    if args == [] {
      roles := [];
      CollectNothing(table, s, args, kept, log);
      ReadsNothing(table, s, kept, log);
    } else {
      var a := ActOn(table, s, args[0], args[1..], log);
      WordActs(table, s, args[0], args[1..], log);
      if if IsWord(args[0]) then s.stopAtNonOption else args[0] == "--" {
        roles := StopsHere(table, s, args, kept, log);
      } else {
        var effects := ReadsFirst(table, s, args[0], args[1..], log, a);
        if !a.Go? {
          CollectHalts(table, s, args, kept, log, a);
        }
        CollectGo(table, s, args, kept, log, a);
        var more := ParsesAsRead(table, s, args[1 + a.used..], kept + a.kept, a.log);
        roles := Prepend(table, s, args, kept, log, a, effects, more);
      }
    }
  }

  lemma ReadsNothing(table: seq<Opt>, s: Settings, kept: seq<string>, log: seq<Effect>)
    ensures Explains(table, s, [], [], kept, log, Done(kept, [], log))
  {
    assert kept + [] == kept && log + [] == log;
  }

  /** The effects of the first word, when parsing goes on behind it. */
  lemma ReadsFirst(table: seq<Opt>, s: Settings, word: string, next: seq<string>, log: seq<Effect>, a: Act)
      returns (effects: seq<Effect>)
    requires a == ActOn(table, s, word, next, log) && word != "--" && (IsWord(word) ==> !s.stopAtNonOption)
    ensures a.Go? || a.Quit?
    ensures a.Go? ==> a == Go(a.kept, a.used, log + effects) && a.used <= 1 && a.used <= |next|
    ensures a.Go? ==>
      if IsWord(word) then a.kept == [word] && a.used == 0 && effects == []
      else Says(table, s, word, next, effects, a.used, a.kept)
  {
    hide ActOn, Says, IsWord;
    WordActs(table, s, word, next, log);
    assert log + [] == log;
    effects := [];
    if !IsWord(word) {
      OptionReads(table, s, word, next, log, [], 0, []);
      if a.Go? {
        effects := a.log[|log|..];
        assert a.log[..|log|] + a.log[|log|..] == a.log;
        OptionReads(table, s, word, next, log, effects, a.used, a.kept);
      }
    }
  }

  lemma Prepend(table: seq<Opt>, s: Settings, args: seq<string>, kept: seq<string>, log: seq<Effect>, a: Act,
                effects: seq<Effect>, more: seq<Role>) returns (roles: seq<Role>)
    requires args != [] && a == ActOn(table, s, args[0], args[1..], log) && a.Go?
    requires a == Go(a.kept, a.used, log + effects) && a.used <= 1 && a.used < |args|
    requires if IsWord(args[0]) then a.kept == [args[0]] && a.used == 0 && effects == [] && !s.stopAtNonOption
             else Says(table, s, args[0], args[1..], effects, a.used, a.kept)
    requires var rest := args[1 + a.used..];
      Explains(table, s, rest, more, kept + a.kept, a.log, Collect(table, s, rest, kept + a.kept, a.log))
    ensures Explains(table, s, args, roles, kept, log, Collect(table, s, args, kept, log))
  {
    hide ActOn, Collect, Says, IsWord, Keeps, Effects, TailOf;
    CollectGo(table, s, args, kept, log, a);
    var first := if IsWord(args[0]) then Word else Option(a.kept, effects);
    roles := [first] + seq(a.used, _ => OptionValue) + more;
    assert roles[1 + a.used..] == more;
    FirstIsNoValue(table, s, args[1 + a.used..], more);
    assert Used(roles, 0) == a.used;
    SensibleStep(table, s, args, roles, a.used);
    hide Sensible, TailCloses;
    RolesUnfold(args, roles, a.used);
    var rest := args[1 + a.used..];
    assert kept + a.kept + Keeps(rest, more) == kept + (a.kept + Keeps(rest, more));
    assert log + effects + Effects(more) == log + (effects + Effects(more));
    assert [] + Effects(more) == Effects(more) && [] + TailOf(rest, more) == TailOf(rest, more);
  }

  lemma FirstIsNoValue(table: seq<Opt>, s: Settings, args: seq<string>, roles: seq<Role>)
    requires Sensible(table, s, args, roles)
    ensures roles != [] ==> roles[0] != OptionValue
  {
    hide Says, IsWord;
    assert roles != [] ==> RoleFits(table, s, args, roles, 0);
  }

  lemma OneValueOnly(table: seq<Opt>, s: Settings, args: seq<string>, roles: seq<Role>)
    requires Sensible(table, s, args, roles) && roles != []
    ensures var used := Used(roles, 0); |roles| > 1 + used ==> roles[1 + used] != OptionValue
  {
    hide Says, IsWord;
    assert |roles| > 2 ==> RoleFits(table, s, args, roles, 2);
  }

  /** A reading of a line is the only one: the line parses, and the outcome is what the reading explains. */
  lemma {:induction false} ReadsAsParsed(table: seq<Opt>, s: Settings, args: seq<string>, roles: seq<Role>,
                                         kept: seq<string>, log: seq<Effect>, o: Outcome)
    requires Explains(table, s, args, roles, kept, log, o)
    ensures Collect(table, s, args, kept, log) == o
    decreases |args|
  {
    hide ActOn, Collect, Says, IsWord, Keeps, Effects, TailOf, Sensible, TailCloses;
    if args == [] {
      CollectNothing(table, s, args, kept, log);
      ReadsNothing(table, s, kept, log);
    } else {
      FirstIsNoValue(table, s, args, roles);
      if roles[0] == Dashes || roles[0] == Tail {
        TailParsed(table, s, args, roles, kept, log, o);
      } else {
        var effects, keeps := FirstParsed(table, s, args, roles, kept, log, o);
        var used := Used(roles, 0);
        CollectGo(table, s, args, kept, log, ActOn(table, s, args[0], args[1..], log));
        ReadsAsParsed(table, s, args[1 + used..], roles[1 + used..], kept + keeps, log + effects, o);
      }
    }
  }

  lemma TailParsed(table: seq<Opt>, s: Settings, args: seq<string>, roles: seq<Role>, kept: seq<string>,
                   log: seq<Effect>, o: Outcome)
    requires Explains(table, s, args, roles, kept, log, o) && args != [] && (roles[0] == Dashes || roles[0] == Tail)
    ensures Collect(table, s, args, kept, log) == o
  {
    hide ActOn, Collect, Says, Keeps, Effects, TailOf, Sensible, TailCloses;
    assert !IsWord("--");
    FirstRole(table, s, args, roles);
    hide IsWord;
    var a := ActOn(table, s, args[0], args[1..], log);
    WordActs(table, s, args[0], args[1..], log);
    TailOnly(roles);
    AllTail(args[1..], roles[1..]);
    RolesUnfold(args, roles, 0);
    CollectHalts(table, s, args, kept, log, a);
    NothingMore(kept, log, args);
  }

  lemma FirstParsed(table: seq<Opt>, s: Settings, args: seq<string>, roles: seq<Role>, kept: seq<string>,
                    log: seq<Effect>, o: Outcome) returns (effects: seq<Effect>, keeps: seq<string>)
    requires Explains(table, s, args, roles, kept, log, o) && args != [] && (roles[0].Option? || roles[0] == Word)
    ensures ActOn(table, s, args[0], args[1..], log) == Go(keeps, Used(roles, 0), log + effects)
    ensures Used(roles, 0) < |args|
    ensures var used := Used(roles, 0);
      Explains(table, s, args[1 + used..], roles[1 + used..], kept + keeps, log + effects, o)
  {
    hide ActOn, Collect, Says, IsWord, Keeps, Effects, TailOf, Sensible, TailCloses;
    var used := Used(roles, 0);
    effects := if roles[0].Option? then roles[0].effects else [];
    keeps := if roles[0].Option? then roles[0].keeps else [args[0]];
    ValueBehindOption(table, s, args, roles);
    OneValueOnly(table, s, args, roles);
    SensibleStep(table, s, args, roles, used);
    WordActs(table, s, args[0], args[1..], log);
    SaysIsOption(table, s, args[0], args[1..], effects, used, keeps);
    if roles[0].Option? {
      OptionReads(table, s, args[0], args[1..], log, effects, used, keeps);
    }
    assert log + [] == log;
    RolesUnfold(args, roles, used);
    var rest, more := args[1 + used..], roles[1 + used..];
    assert kept + keeps + Keeps(rest, more) == kept + (keeps + Keeps(rest, more));
    assert log + effects + Effects(more) == log + (effects + Effects(more));
    assert [] + Effects(more) == Effects(more) && [] + TailOf(rest, more) == TailOf(rest, more);
  }

  lemma SaysIsOption(table: seq<Opt>, s: Settings, word: string, next: seq<string>, effects: seq<Effect>, used: nat,
                     keeps: seq<string>)
    ensures Says(table, s, word, next, effects, used, keeps) ==> |word| >= 2 && word[0] == '-' && word != "--"
  {}

  lemma FirstRole(table: seq<Opt>, s: Settings, args: seq<string>, roles: seq<Role>)
    requires Sensible(table, s, args, roles) && roles != []
    ensures roles[0] == Word ==> IsWord(args[0]) && !s.stopAtNonOption
    ensures roles[0] == Dashes ==> args[0] == "--" && !s.keepDashdash
    ensures roles[0] == Tail ==> (args[0] == "--" && s.keepDashdash) || (IsWord(args[0]) && s.stopAtNonOption)
  {
    hide Says, IsWord;
    assert RoleFits(table, s, args, roles, 0);
  }

  lemma ValueBehindOption(table: seq<Opt>, s: Settings, args: seq<string>, roles: seq<Role>)
    requires Sensible(table, s, args, roles) && roles != []
    ensures roles[0] == Word ==> Used(roles, 0) == 0
  {
    hide Says, IsWord;
    if |roles| > 1 && roles[1] == OptionValue {
      assert RoleFits(table, s, args, roles, 1);
    }
  }

  lemma TailOnly(roles: seq<Role>)
    requires TailCloses(roles) && roles != [] && (roles[0] == Dashes || roles[0] == Tail)
    ensures forall i | 0 <= i < |roles[1..]| :: roles[1..][i] == Tail
  {
    forall i | 0 < i < |roles| ensures roles[i] == Tail { TailFrom(roles, i); }
  }

  lemma {:induction false} TailFrom(roles: seq<Role>, i: nat)
    requires TailCloses(roles) && roles != [] && (roles[0] == Dashes || roles[0] == Tail) && 0 < i < |roles|
    ensures roles[i] == Tail
  {
    if i > 1 {
      TailFrom(roles, i - 1);
    }
  }

  /** A line that ends the program reads sensibly up to an option that does. */
  lemma {:induction false} StopsAsRead(table: seq<Opt>, s: Settings, args: seq<string>, kept: seq<string>,
                                       log: seq<Effect>) returns (roles: seq<Role>)
    requires Collect(table, s, args, kept, log).Ends?
    ensures |roles| < |args| && Sensible(table, s, args, roles)
    ensures forall r | r in roles :: r.Option? || r == OptionValue || r == Word
    ensures Stops(table, s, args[|roles|], args[|roles| + 1..], Collect(table, s, args, kept, log).exit)
    decreases |args|
  {
    hide ActOn, Collect, Says, IsWord, Stops, Sensible, TailCloses;
    if args == [] {
      CollectNothing(table, s, args, kept, log);
    }
    var a := ActOn(table, s, args[0], args[1..], log);
    WordActs(table, s, args[0], args[1..], log);
    if !a.Go? {
      CollectHalts(table, s, args, kept, log, a);
      OptionStops(table, s, args[0], args[1..], log);
      roles := [];
      NoRoles(table, s, args);
    } else {
      var effects := ReadsFirst(table, s, args[0], args[1..], log, a);
      CollectGo(table, s, args, kept, log, a);
      var rest := args[1 + a.used..];
      var more := StopsAsRead(table, s, rest, kept + a.kept, a.log);
      roles := [if IsWord(args[0]) then Word else Option(a.kept, effects)] + seq(a.used, _ => OptionValue) + more;
      assert roles[1 + a.used..] == more;
      FirstIsNoValue(table, s, rest, more);
      OnlyBefore(more);
      SensibleStep(table, s, args, roles, a.used);
      assert rest[|more|] == args[|roles|] && rest[|more| + 1..] == args[|roles| + 1..];
    }
  }

  lemma NoRoles(table: seq<Opt>, s: Settings, args: seq<string>)
    ensures Sensible(table, s, args, [])
  {}

  lemma OnlyBefore(roles: seq<Role>)
    requires forall r | r in roles :: r.Option? || r == OptionValue || r == Word
    ensures TailCloses(roles)
  {
    assert forall i | 0 <= i < |roles| :: roles[i] in roles;
  }

  /** `parse_options` returns exactly on the lines that have a reading; the front of the vector then holds the program
      name if asked for, what the reading keeps, and the tail, and the options taken are those that it says.  On any
      other line it ends at the first option that cannot be read, for a reason that this option gives. */
  method ReadOptions(table: seq<Opt>, s: Settings, argv: array<string>)
      returns (exit: Maybe<Exit>, n: nat, log: seq<Effect>, ghost roles: seq<Role>)
    requires argv.Length > 0 && !(s.keepUnknown && s.stopAtNonOption)
    modifies argv
    ensures n <= argv.Length
    ensures var args, kept := old(argv[1..]), if s.keepArgv0 then [old(argv[0])] else [];
      exit == Nothing <==> exists r, o :: Explains(table, s, args, r, kept, [], o)
    ensures var args, kept := old(argv[1..]), if s.keepArgv0 then [old(argv[0])] else [];
      exit == Nothing ==> (
        && |roles| == |args| && log == Effects(roles)
        && argv[..n] == kept + Keeps(args, roles) + TailOf(args, roles)
        && Explains(table, s, args, roles, kept, [], Done(kept + Keeps(args, roles), TailOf(args, roles), log)))
    ensures var args := old(argv[1..]);
      exit != Nothing ==> (
        && |roles| < |args| && Sensible(table, s, args, roles)
        && Stops(table, s, args[|roles|], args[|roles| + 1..], exit.value))
  {
    hide Collect, Explains, Sensible, Stops;
    ghost var args, kept := argv[1..], if s.keepArgv0 then [argv[0]] else [];
    exit, n, log := ParseOptions(table, s, argv);
    ghost var o := Collect(table, s, args, kept, []);
    if o.Done? {
      roles := ParsesAsRead(table, s, args, kept, []);
      ExplainedParts(table, s, args, roles, kept, o);
    } else {
      roles := StopsAsRead(table, s, args, kept, []);
      forall r, o' | Explains(table, s, args, r, kept, [], o') ensures o'.Done? && o == o' {
        ReadsAsParsed(table, s, args, r, kept, [], o');
        ExplainedParts(table, s, args, r, kept, o');
      }
    }
  }

  lemma ExplainedParts(table: seq<Opt>, s: Settings, args: seq<string>, roles: seq<Role>, kept: seq<string>, o: Outcome)
    requires Explains(table, s, args, roles, kept, [], o)
    ensures |roles| == |args| && o == Done(kept + Keeps(args, roles), TailOf(args, roles), Effects(roles))
  {
    assert [] + Effects(roles) == Effects(roles);
  }

  /** A line of plain words, "--" and a tail comes back as it is. */
  lemma {:induction false} SettledLine(
      table: seq<Opt>, s: Settings, words: seq<string>, tail: seq<string>, kept: seq<string>, log: seq<Effect>)
    requires !s.stopAtNonOption && !s.keepDashdash && forall w | w in words :: IsWord(w)
    ensures Collect(table, s, words + ["--"] + tail, kept, log) == Done(kept + words, tail, log)
  {
    hide ActOn, Collect, IsWord;
    var line := words + ["--"] + tail;
    var a := ActOn(table, s, line[0], line[1..], log);
    WordActs(table, s, line[0], line[1..], log);
    if words == [] {
      assert line[1..] == tail && kept + [] == kept;
      assert !IsWord("--") by { PlainIsWord("--"); }
      CollectHalts(table, s, line, kept, log, a);
    } else {
      assert words[0] in words && line[0] == words[0] && line[1..] == words[1..] + ["--"] + tail;
      CollectGo(table, s, line, kept, log, a);
      assert line[1 + 0..] == line[1..];
      SettledLine(table, s, words[1..], tail, kept + [words[0]], log);
      assert kept + [words[0]] + words[1..] == kept + words;
    }
  }
}
