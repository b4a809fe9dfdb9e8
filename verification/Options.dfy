/** The option table and the resolution of long options, util/parse-options.c. */
module Options {
  import opened Optional

  /** What an option does with a value.  `Flag` stands for the kinds that take none; `Argument`
      for words that look like options but are kept as arguments. */
  datatype Kind = Argument | Flag | Text | Number | Callback

  /** One entry of the table.  `refuses` holds the values, and whether negated, that a callback
      rejects. */
  datatype Opt = Opt(
    kind: Kind,
    shortName: Maybe<char>,
    longName: Maybe<string>,
    optArg: bool,
    noArg: bool,
    noNeg: bool,
    lastArgDefault: bool,
    default: string,
    refuses: set<(Maybe<string>, bool)>)

  // ---------- Words ----------

  predicate StartsWith(s: string, prefix: string) {
    prefix <= s
  }

  /** The position of the first '=' at or after i, or the length. */
  function NameEnd(arg: string, i: nat): (e: nat)
    requires i <= |arg|
    ensures i <= e <= |arg|
    ensures e < |arg| ==> arg[e] == '='
    ensures forall k | i <= k < e :: arg[k] != '='
    decreases |arg| - i
  {
    if i == |arg| || arg[i] == '=' then i else NameEnd(arg, i + 1)
  }

  /** The part of the word that names the option. */
  function Name(arg: string): string {
    arg[..NameEnd(arg, 0)]
  }

  /** The value after the '=', if any. */
  function Attached(arg: string): Maybe<string> {
    var e := NameEnd(arg, 0);
    if e < |arg| then Just(arg[e + 1..]) else Nothing
  }

  // ---------- The resolution loop ----------

  /** How a long option is resolved; `unset` marks the negated form, and the value is what the
      option finds attached. */
  datatype LongResult =
    | Unknown
    | Ambiguous
    | Kept
    | TakesNoValue
    | Resolved(opt: Opt, unset: bool, attached: Maybe<string>)

  /** The last abbreviated candidate, whether there was one before it, and the value found so far. */
  datatype Search = Search(abbrev: Maybe<(Opt, bool)>, ambiguous: bool, attached: Maybe<string>)

  /** What one table entry does to the search. */
  datatype Verdict = Continue(search: Search) | Return(result: LongResult)

  function Abbreviated(s: Search, o: Opt, arg: string, unset: bool): Search {
    Search(
      Just((o, unset)),
      s.ambiguous || s.abbrev.Just?,
      if !unset && Attached(arg).Just? then Attached(arg) else s.attached)
  }

  /** The entry's name is the word up to `rest`, which must be empty or start with '='. */
  function Match(s: Search, o: Opt, rest: string, unset: bool): Verdict {
    if rest == "" then Return(Resolved(o, unset, s.attached))
    else if rest[0] != '=' then Continue(s)
    else Return(Resolved(o, unset, Just(rest[1..])))
  }

  function Consider(s: Search, o: Opt, arg: string): Verdict {
    match o.longName
    case Nothing => Continue(s)
    case Just(long) =>
      if o.kind == Argument then
        if !StartsWith(arg, long) then Continue(s)
        else if arg[|long|..] == "" then Return(Kept)
        else if arg[|long|] == '=' then Return(TakesNoValue)
        else Continue(s)
      else if StartsWith(arg, long) then Match(s, o, arg[|long|..], false)
      else if StartsWith(long, "no-") && StartsWith(arg, long[3..]) then Match(s, o, arg[|long| - 3..], true)
      else if StartsWith(long, "no-") && StartsWith(long[3..], arg) then Continue(Abbreviated(s, o, arg, true))
      else if StartsWith(long, Name(arg)) then Continue(Abbreviated(s, o, arg, false))
      else if StartsWith("no-", arg) then Continue(Abbreviated(s, o, arg, true))
      else if !StartsWith(arg, "no-") then Continue(s)
      else if StartsWith(arg[3..], long) then Match(s, o, arg[3 + |long|..], true)
      else if StartsWith(long, arg[3..]) then Continue(Abbreviated(s, o, arg, true))
      else Continue(s)
  }

  function Finish(s: Search): LongResult {
    if s.ambiguous then Ambiguous
    else match s.abbrev
      case Nothing => Unknown
      case Just((o, unset)) => Resolved(o, unset, s.attached)
  }

  function Resolve(options: seq<Opt>, arg: string, s: Search): LongResult {
    if options == [] then Finish(s)
    else match Consider(s, options[0], arg)
      case Return(r) => r
      case Continue(s') => Resolve(options[1..], arg, s')
  }

  const START := Search(Nothing, false, Nothing)

  /** `parse_long_opt` up to the call of `get_value`. */
  method ParseLongOpt(options: seq<Opt>, arg: string) returns (r: LongResult)
    ensures r == Resolve(options, arg, START)
  {
    var s := START;
    assert options[0..] == options;
    for i := 0 to |options|
      invariant Resolve(options[i..], arg, s) == Resolve(options, arg, START)
    {
      assert options[i..][1..] == options[i + 1..];
      match Consider(s, options[i], arg)
      case Return(result) => return result;
      case Continue(next) => s := next;
    }
    r := Finish(s);
  }

  // ---------- What the resolution means ----------

  /** No long name contains '='. */
  predicate Named(options: seq<Opt>) {
    forall o | o in options && o.longName.Just? :: '=' !in o.longName.value
  }

  /** "no-" before the name is read as its negation, and not as a longer word that starts like the name. */
  predicate Negatable(o: Opt) {
    && o.kind != Argument && o.longName.Just?
    && !StartsWith("no-" + o.longName.value, o.longName.value)
    && !(StartsWith(o.longName.value, "no-") && StartsWith("no-" + o.longName.value, o.longName.value[3..]))
  }

  /** The name given matches the option in full: as it is, without its own "no-", or negated. */
  predicate FullMatch(o: Opt, name: string) {
    && o.longName.Just?
    && (|| name == o.longName.value
        || (o.kind != Argument && o.longName.value == "no-" + name)
        || (Negatable(o) && name == "no-" + o.longName.value))
  }

  function FullResult(o: Opt, arg: string): LongResult {
    if o.kind != Argument then Resolved(o, o.longName != Just(Name(arg)), Attached(arg))
    else if Attached(arg).Just? then TakesNoValue else Kept
  }

  /** Whether an entry is an abbreviated candidate, and then whether negated.  No word that goes on behind
      the name, or behind the name without its own "no-", abbreviates it; any other does that begins the
      name, with its own "no-" or without, or begins the name with another "no-" before it.  Only a
      beginning of the name as it is may have a value behind it. */
  function Candidate(o: Opt, arg: string): Maybe<bool> {
    if o.kind == Argument || o.longName == Nothing then Nothing
    else
      var long := o.longName.value;
      if StartsWith(arg, long) || (StartsWith(long, "no-") && StartsWith(arg, long[3..])) then Nothing
      else if StartsWith(long, "no-" + arg) then Just(true)
      else if StartsWith(long, Name(arg)) then Just(false)
      else if StartsWith("no-" + long, arg) && arg != "no-" + long then Just(true)
      else Nothing
  }

  lemma NameCovers(long: string, arg: string)
    requires StartsWith(arg, long) && '=' !in long
    ensures StartsWith(Name(arg), long)
    ensures arg[|long|..] == "" || arg[|long|] == '=' <==> Name(arg) == long
    ensures Name(arg) == long ==> (arg[|long|..] == "" <==> Attached(arg) == Nothing)
    ensures Name(arg) == long && Attached(arg).Just? ==> Attached(arg).value == arg[|long|..][1..]
  {
    assert forall k | 0 <= k < |long| :: arg[k] == long[k] && long[k] in long;
    var e := NameEnd(arg, 0);
    assert long == arg[..|long|];
    if |long| < e {
      assert arg[|long|] != '=';
    }
  }

  /** The search so far has found no value, or the one in the word. */
  predicate Searching(s: Search, arg: string) {
    s.attached == Nothing || s.attached == Attached(arg)
  }

  lemma MatchIsFull(s: Search, o: Opt, arg: string, prefix: string, unset: bool)
    requires Searching(s, arg) && StartsWith(arg, prefix) && '=' !in prefix
    ensures Match(s, o, arg[|prefix|..], unset) ==
      if Name(arg) == prefix then Return(Resolved(o, unset, Attached(arg))) else Continue(s)
  {
    NameCovers(prefix, arg);
  }

  lemma NegatedName(arg: string, long: string)
    requires StartsWith(arg, "no-") && '=' !in long && StartsWith(arg[3..], long)
    ensures StartsWith(arg, "no-" + long) && '=' !in "no-" + long && arg[3 + |long|..] == arg[|"no-" + long|..]
  {
    assert arg == "no-" + arg[3..];
  }

  lemma FullAsItIs(o: Opt, arg: string)
    requires o.longName.Just? && StartsWith(arg, o.longName.value) && StartsWith(Name(arg), o.longName.value)
    ensures FullMatch(o, Name(arg)) <==> Name(arg) == o.longName.value
  {}

  lemma FullWithoutNo(o: Opt, arg: string)
    requires o.kind != Argument && o.longName.Just? && !StartsWith(arg, o.longName.value)
    requires StartsWith(o.longName.value, "no-") && StartsWith(Name(arg), o.longName.value[3..])
    ensures FullMatch(o, Name(arg)) <==> Name(arg) == o.longName.value[3..]
  {
    assert StartsWith(arg, Name(arg));
    assert o.longName.value == "no-" + o.longName.value[3..];
  }

  lemma FullNegated(o: Opt, arg: string)
    requires o.kind != Argument && o.longName.Just? && !StartsWith(arg, o.longName.value)
    requires !(StartsWith(o.longName.value, "no-") && StartsWith(arg, o.longName.value[3..]))
    requires StartsWith(arg, "no-" + o.longName.value)
    ensures FullMatch(o, Name(arg)) <==> Name(arg) == "no-" + o.longName.value
  {
    assert StartsWith(arg, Name(arg));
  }

  lemma NotFull(o: Opt, arg: string)
    requires o.kind != Argument && o.longName.Just? && !StartsWith(arg, o.longName.value)
    requires !(StartsWith(o.longName.value, "no-") && StartsWith(arg, o.longName.value[3..]))
    requires !(StartsWith(arg, "no-") && StartsWith(arg[3..], o.longName.value))
    ensures !FullMatch(o, Name(arg))
  {
    var name, long := Name(arg), o.longName.value;
    assert StartsWith(arg, name);
    assert ("no-" + name)[3..] == name && ("no-" + long)[3..] == long;
    assert StartsWith(arg, "no-" + long) ==> StartsWith(arg, "no-") && StartsWith(arg[3..], long);
  }

  /** Each entry is matched in full, is a candidate, or plays no part, whatever was found before it. */
  lemma ConsiderMeans(s: Search, o: Opt, arg: string)
    requires Named([o]) && Searching(s, arg)
    ensures Consider(s, o, arg) ==
      if FullMatch(o, Name(arg)) then Return(FullResult(o, arg))
      else if Candidate(o, arg).Just? then Continue(Abbreviated(s, o, arg, Candidate(o, arg).value))
      else Continue(s)
    ensures FullMatch(o, Name(arg)) ==> Candidate(o, arg) == Nothing
  {
    assert o in [o];
    if o.longName.Just? {
      var long := o.longName.value;
      if o.kind == Argument {
        if StartsWith(arg, long) {
          NameCovers(long, arg);
        }
        hide NameEnd;
      } else if StartsWith(arg, long) {
        MatchIsFull(s, o, arg, long, false);
        MatchIsFull(START, o, arg, long, false);
        NameCovers(long, arg);
        FullAsItIs(o, arg);
        hide NameEnd, FullMatch, Match;
      } else if StartsWith(long, "no-") && StartsWith(arg, long[3..]) {
        MatchIsFull(s, o, arg, long[3..], true);
        MatchIsFull(START, o, arg, long[3..], true);
        NameCovers(long[3..], arg);
        FullWithoutNo(o, arg);
        hide NameEnd, FullMatch, Match;
      } else if StartsWith(arg, "no-") && StartsWith(arg[3..], long) {
        NegatedName(arg, long);
        MatchIsFull(s, o, arg, "no-" + long, true);
        MatchIsFull(START, o, arg, "no-" + long, true);
        FullNegated(o, arg);
        hide NameEnd, FullMatch, Match;
      } else {
        NotFull(o, arg);
        hide NameEnd, FullMatch, Match;
      }
    }
  }

  function FirstFull(options: seq<Opt>, name: string): (r: Maybe<Opt>)
    ensures r.Just? ==> r.value in options && FullMatch(r.value, name)
    ensures r == Nothing <==> forall o | o in options :: !FullMatch(o, name)
  {
    if options == [] then Nothing
    else if FullMatch(options[0], name) then Just(options[0]) else FirstFull(options[1..], name)
  }

  function FirstCandidate(options: seq<Opt>, arg: string): (r: Maybe<Opt>)
    ensures r.Just? ==> r.value in options && Candidate(r.value, arg).Just?
    ensures r == Nothing <==> CountCandidates(options, arg) == 0
  {
    if options == [] then Nothing
    else if Candidate(options[0], arg).Just? then Just(options[0]) else FirstCandidate(options[1..], arg)
  }

  function CountCandidates(options: seq<Opt>, arg: string): nat {
    if options == [] then 0
    else (if Candidate(options[0], arg).Just? then 1 else 0) + CountCandidates(options[1..], arg)
  }

  /** The only candidate, with the value attached to the word unless it is negated. */
  function CandidateResult(o: Opt, arg: string): LongResult
    requires Candidate(o, arg).Just?
  {
    var unset := Candidate(o, arg).value;
    Resolved(o, unset, if unset then Nothing else Attached(arg))
  }

  /** The first full match wins; otherwise one abbreviated candidate is taken, two or more are
      ambiguous, and none is unknown. */
  function Meaning(options: seq<Opt>, arg: string): LongResult {
    match FirstFull(options, Name(arg))
    case Just(o) => FullResult(o, arg)
    case Nothing =>
      if CountCandidates(options, arg) >= 2 then Ambiguous
      else match FirstCandidate(options, arg)
        case Just(o) => CandidateResult(o, arg)
        case Nothing => Unknown
  }

  lemma {:induction false} SearchMeaning(options: seq<Opt>, arg: string, s: Search)
    requires Named(options) && Searching(s, arg)
    requires s.abbrev == Nothing ==> s.attached == Nothing && !s.ambiguous
    requires s.abbrev.Just? && !s.ambiguous ==> s.attached == if s.abbrev.value.1 then Nothing else Attached(arg)
    ensures Resolve(options, arg, s) ==
      match FirstFull(options, Name(arg))
      case Just(o) => FullResult(o, arg)
      case Nothing =>
        if s.abbrev == Nothing then Meaning(options, arg)
        else if s.ambiguous || CountCandidates(options, arg) >= 1 then Ambiguous
        else Resolved(s.abbrev.value.0, s.abbrev.value.1, s.attached)
  {
    if options != [] {
      var o := options[0];
      assert o in options && Named([o]);
      assert Named(options[1..]) by { assert forall x | x in options[1..] :: x in options; }
      ConsiderMeans(s, o, arg);
      hide Consider, FullMatch, Candidate, Named, Name, Attached;
      if !FullMatch(o, Name(arg)) {
        var c := Candidate(o, arg);
        SearchMeaning(options[1..], arg, if c.Just? then Abbreviated(s, o, arg, c.value) else s);
      }
    }
  }

  lemma ResolveMeans(options: seq<Opt>, arg: string)
    requires Named(options)
    ensures Resolve(options, arg, START) == Meaning(options, arg)
  {
    SearchMeaning(options, arg, START);
  }

  // ---------- Words without negation ----------

  /** No long name starts with "no-", and neither the word nor "no-" begins with the other. */
  predicate Plain(options: seq<Opt>, arg: string) {
    && Named(options) && !StartsWith("no-", arg) && !StartsWith(arg, "no-")
    && forall o | o in options && o.longName.Just? :: !StartsWith(o.longName.value, "no-")
  }

  /** The word names a proper beginning of the option. */
  predicate Abbreviates(o: Opt, arg: string) {
    o.kind != Argument && o.longName.Just? && StartsWith(o.longName.value, Name(arg)) && o.longName.value != Name(arg)
  }

  /** For plain words a full match is the name itself, and the candidates are its proper beginnings, none of
      them negated. */
  lemma PlainMeans(o: Opt, arg: string)
    requires Plain([o], arg)
    ensures FullMatch(o, Name(arg)) <==> o.longName == Just(Name(arg))
    ensures Candidate(o, arg) == if Abbreviates(o, arg) then Just(false) else Nothing
  {
    assert o in [o];
    ConsiderMeans(START, o, arg);
    if o.longName.Just? {
      var long, name := o.longName.value, Name(arg);
      assert StartsWith(arg, name);
      assert StartsWith("no-" + name, "no-") && StartsWith("no-" + long, "no-");
      assert name == "no-" + long ==> StartsWith(arg, "no-");
      if StartsWith(arg, long) {
        NameCovers(long, arg);
      }
    }
  }

  // ---------- Table order ----------

  lemma {:induction false} CountAppend(a: seq<Opt>, b: seq<Opt>, arg: string)
    ensures CountCandidates(a + b, arg) == CountCandidates(a, arg) + CountCandidates(b, arg)
  {
    hide Candidate;
    if a == [] {
      assert a + b == b;
    } else {
      assert (a + b)[1..] == a[1..] + b;
      CountAppend(a[1..], b, arg);
    }
  }

  lemma Without(a: seq<Opt>, b: seq<Opt>, j: nat)
    requires a != [] && multiset(a) == multiset(b) && j < |b| && b[j] == a[0]
    ensures multiset(a[1..]) == multiset(b[..j] + b[j + 1..])
  {
    assert a == [a[0]] + a[1..];
    assert b == b[..j] + [b[j]] + b[j + 1..];
    assert multiset(a) == multiset{a[0]} + multiset(a[1..]);
    assert multiset(b) == multiset{a[0]} + multiset(b[..j] + b[j + 1..]);
    assert multiset(a) - multiset{a[0]} == multiset(a[1..]);
  }

  lemma {:induction false} CountPermuted(a: seq<Opt>, b: seq<Opt>, arg: string)
    requires multiset(a) == multiset(b)
    ensures CountCandidates(a, arg) == CountCandidates(b, arg)
    decreases |a|
  {
    hide Candidate;
    if a == [] {
      assert |multiset(b)| == 0;
    } else {
      assert a[0] in multiset(b);
      var j :| 0 <= j < |b| && b[j] == a[0];
      Without(a, b, j);
      CountPermuted(a[1..], b[..j] + b[j + 1..], arg);
      CountAppend(b[..j], b[j..], arg);
      CountAppend(b[..j], b[j + 1..], arg);
      assert b == b[..j] + b[j..];
      assert b[j..][1..] == b[j + 1..];
    }
  }

  lemma {:induction false} CandidateCounts(options: seq<Opt>, arg: string, o: Opt)
    requires o in options && Candidate(o, arg).Just?
    ensures CountCandidates(options, arg) >= 1
  {
    hide Candidate;
    if o != options[0] {
      CandidateCounts(options[1..], arg, o);
    }
  }

  lemma {:induction false} UniqueCandidate(options: seq<Opt>, arg: string, o: Opt)
    requires CountCandidates(options, arg) == 1 && o in options && Candidate(o, arg).Just?
    ensures FirstCandidate(options, arg) == Just(o)
  {
    hide Candidate;
    if o != options[0] {
      CandidateCounts(options[1..], arg, o);
      UniqueCandidate(options[1..], arg, o);
    }
  }

  /** No two different entries share a long name. */
  predicate DistinctNames(options: seq<Opt>) {
    forall o, o' | o in options && o' in options && o.longName.Just? && o.longName == o'.longName :: o == o'
  }

  /** No word matches two different entries in full. */
  predicate OneFullMatch(options: seq<Opt>, name: string) {
    forall o, o' | o in options && o' in options && FullMatch(o, name) && FullMatch(o', name) :: o == o'
  }

  lemma SameElements(a: seq<Opt>, b: seq<Opt>)
    requires multiset(a) == multiset(b)
    ensures forall o :: o in a <==> o in b
  {
    forall o ensures o in a <==> o in b { assert o in multiset(a) <==> o in multiset(b); }
  }

  lemma SameMeaning(a: seq<Opt>, b: seq<Opt>, arg: string)
    requires multiset(a) == multiset(b) && OneFullMatch(a, Name(arg))
    ensures Meaning(a, arg) == Meaning(b, arg)
  {
    hide Candidate, FullMatch, Name, FullResult, CandidateResult;
    SameElements(a, b);
    CountPermuted(a, b, arg);
    var x, y := FirstFull(a, Name(arg)), FirstFull(b, Name(arg));
    if x.Just? {
      assert y.Just? && x.value == y.value;
    } else if CountCandidates(a, arg) == 1 {
      UniqueCandidate(b, arg, FirstCandidate(a, arg).value);
    }
  }

  lemma FullResultsDiffer(x: Opt, y: Opt, arg: string)
    requires x != y && DistinctNames([x, y]) && FullMatch(x, Name(arg)) && FullMatch(y, Name(arg))
    ensures FullResult(x, arg) != FullResult(y, arg)
  {
    assert x in [x, y] && y in [x, y];
    hide Name, Attached;
  }

  lemma ToFront(a: seq<Opt>, j: nat)
    requires j < |a|
    ensures multiset([a[j]] + (a[..j] + a[j + 1..])) == multiset(a)
  {
    assert a == a[..j] + [a[j]] + a[j + 1..];
  }

  /** The resolution of a word is the same for every order of the table exactly when no two different entries
      are matched in full by it. */
  lemma OrderIrrelevant(a: seq<Opt>, arg: string)
    requires Named(a) && DistinctNames(a)
    ensures (forall b: seq<Opt> | multiset(b) == multiset(a) :: Resolve(b, arg, START) == Resolve(a, arg, START))
       <==> OneFullMatch(a, Name(arg))
  {
    hide Resolve, Meaning, FullMatch, Candidate, Name, FullResult;
    ResolveMeans(a, arg);
    if OneFullMatch(a, Name(arg)) {
      forall b: seq<Opt> | multiset(b) == multiset(a) ensures Resolve(b, arg, START) == Resolve(a, arg, START) {
        SameElements(a, b);
        ResolveMeans(b, arg);
        SameMeaning(a, b, arg);
      }
    } else {
      var x, y :| x in a && y in a && FullMatch(x, Name(arg)) && FullMatch(y, Name(arg)) && x != y;
      var b := InFront(a, arg, x);
      var c := InFront(a, arg, y);
      FullResultsDiffer(x, y, arg);
    }
  }

  /** A table in which the entry comes first resolves its full match to it. */
  lemma InFront(a: seq<Opt>, arg: string, x: Opt) returns (b: seq<Opt>)
    requires Named(a) && x in a && FullMatch(x, Name(arg))
    ensures multiset(b) == multiset(a) && Resolve(b, arg, START) == FullResult(x, arg)
  {
    hide Resolve, FullMatch, Candidate, Name, FullResult;
    var j :| 0 <= j < |a| && a[j] == x;
    b := [x] + (a[..j] + a[j + 1..]);
    ToFront(a, j);
    SameElements(a, b);
    ResolveMeans(b, arg);
  }

  /** Some word names both entries in full: one is the negation of the other, or "no-" before its negation. */
  predicate Clash(x: Opt, y: Opt) {
    && x.longName.Just? && y.longName.Just?
    && (|| (y.longName.value == "no-" + x.longName.value && (y.kind != Argument || Negatable(x)))
        || (y.longName.value == "no-no-" + x.longName.value && y.kind != Argument && Negatable(x)))
  }

  /** The order of a table matters for some word exactly when two of its names clash. */
  lemma OrderMatters(a: seq<Opt>)
    requires Named(a) && DistinctNames(a)
    ensures (exists arg: string, b: seq<Opt> ::
              multiset(b) == multiset(a) && Resolve(b, arg, START) != Resolve(a, arg, START))
       <==> (exists x, y :: x in a && y in a && Clash(x, y))
  {
    hide Resolve, FullMatch, Clash, Name;
    if x, y :| x in a && y in a && Clash(x, y) {
      assert Named([x]);
      var name := ClashWord(x, y);
      OrderIrrelevant(a, name);
      assert !OneFullMatch(a, Name(name));
    }
    if arg: string, b: seq<Opt> :| multiset(b) == multiset(a) && Resolve(b, arg, START) != Resolve(a, arg, START) {
      OrderIrrelevant(a, arg);
      assert OneFullMatch(a, Name(arg)) ==> Resolve(b, arg, START) == Resolve(a, arg, START);
      var x, y :| x in a && y in a && FullMatch(x, Name(arg)) && FullMatch(y, Name(arg)) && x != y;
      BothMatched(x, y, Name(arg));
    }
  }

  lemma WholeName(name: string)
    requires '=' !in name
    ensures Name(name) == name
  {
    assert forall k | 0 <= k < |name| :: name[k] in name;
  }

  lemma ClashWord(x: Opt, y: Opt) returns (name: string)
    requires Clash(x, y) && Named([x])
    ensures Name(name) == name && FullMatch(x, name) && FullMatch(y, name) && x != y
  {
    assert x in [x];
    var long := x.longName.value;
    assert "no-no-" + long == "no-" + ("no-" + long);
    name := if y.longName.value == "no-" + long && y.kind != Argument then long else "no-" + long;
    WholeName(name);
  }

  lemma BothMatched(x: Opt, y: Opt, name: string)
    requires x != y && DistinctNames([x, y]) && FullMatch(x, name) && FullMatch(y, name)
    ensures Clash(x, y) || Clash(y, x)
  {
    assert x in [x, y] && y in [x, y];
    var a, b := x.longName.value, y.longName.value;
    assert "no-no-" + a == "no-" + ("no-" + a) && "no-no-" + b == "no-" + ("no-" + b);
    assert ("no-" + name)[3..] == name && ("no-" + a)[3..] == a && ("no-" + b)[3..] == b;
  }
}
