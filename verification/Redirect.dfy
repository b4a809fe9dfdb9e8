/** Objects as the value of a key, accfg/config.c: the loader looks the later keys up inside such an object, and
    not in the object they belong to. */
module Redirect {
  import opened Optional
  import opened Loader
  import opened Delivery

  // ---------- The values met through an object ----------

  /** Every array key is found in the object, as an array. */
  predicate FoundIn(entries: seq<Entry>, after: seq<Entry>) {
    forall e | e in after && e.value.Arr? :: Find(entries, e.key).Just? && Find(entries, e.key).value.Arr?
  }

  /** The arrays that these keys lead to in the object are regular. */
  predicate LeadsToRegular(entries: seq<Entry>, after: seq<Entry>) {
    forall e | e in after && e.value.Arr? ::
      Find(entries, e.key).Just? && Find(entries, e.key).value.Arr? ==> Regular(Find(entries, e.key).value)
  }

  /** The values that a walk over these keys comes to when it looks its arrays up in the object. */
  function Met(entries: seq<Entry>, after: seq<Entry>): seq<(string, string)>
    requires FoundIn(entries, after)
  {
    if after == [] then []
    else
      var e := after[0];
      assert e in after && forall x | x in after[1..] :: x in after;
      (if e.value.Scalar? then [(e.key, e.value.text)]
       else if e.value.Arr? then Stream(Find(entries, e.key).value) else [])
      + Met(entries, after[1..])
  }

  lemma ArrayIsRun(w: World, entries: seq<Entry>, key: string, st: State)
    requires Find(entries, key).Just? && Find(entries, key).value.Arr? && Regular(Find(entries, key).value)
    ensures ParseArray(w, Obj(entries), Just(key), st) == Run(w, Stream(Find(entries, key).value), st)
  {
    hide Find;
    ElementsAreRun(w, Find(entries, key).value.elements, st);
  }

  /** While all arrays are found, the walk sets the values that it meets. */
  lemma {:induction false} ParseMet(w: World, after: seq<Entry>, entries: seq<Entry>, st: State)
    requires FoundIn(entries, after) && LeadsToRegular(entries, after) && forall e | e in after :: !e.value.Obj?
    ensures Parse(w, after, Obj(entries), st) == Run(w, Met(entries, after), st)
    decreases |after|
  {
    hide Configure, Find, Regular;
    if after != [] {
      var e, rest := after[0], after[1..];
      assert e in after && forall x | x in rest :: x in after;
      var first := if e.value.Scalar? then [(e.key, e.value.text)]
        else if e.value.Arr? then Stream(Find(entries, e.key).value) else [];
      var (next, ok) := Run(w, first, st);
      ParseMet(w, rest, entries, next);
      assert Met(entries, after) == first + Met(entries, rest);
      RunAppend(w, first, Met(entries, rest), st);
      hide Met, Stream;
      match e.value {
        case Null =>
        case Scalar(text) =>
        case Arr(_) => ArrayIsRun(w, entries, e.key, st);
      }
    }
  }

  // ---------- Two loads that differ ----------

  /** A machine on which no name means anything. */
  const IDLE := World(map[], {}, {}, {}, false, false, false)

  lemma {:induction false} LostKey(after: seq<Entry>, entries: seq<Entry>, st: State)
    requires st.parent == Nothing && LeadsToRegular(entries, after) && forall e | e in after :: !e.value.Obj?
    ensures Parse(IDLE, after, Obj(entries), st).1 <==> FoundIn(entries, after)
    ensures Parse(IDLE, after, Obj(entries), st).0.parent == Nothing
    decreases |after|
  {
    hide Configure, Find, Regular;
    if after != [] {
      var e, rest := after[0], after[1..];
      assert e in after && forall x | x in rest :: x in after;
      assert FoundIn(entries, after) <==>
        (e.value.Arr? ==> Find(entries, e.key).Just? && Find(entries, e.key).value.Arr?) && FoundIn(entries, rest);
      match e.value {
        case Null => LostKey(rest, entries, st);
        case Scalar(text) =>
          RunIdle(IDLE, [(e.key, text)], st);
          LostKey(rest, entries, Configure(IDLE, st, Just(e.key), text).0);
        case Arr(_) =>
          var found := Find(entries, e.key);
          if found.Just? && found.value.Arr? {
            ArrayIsRun(IDLE, entries, e.key, st);
            RunIdle(IDLE, Stream(found.value), st);
            LostKey(rest, entries, Run(IDLE, Stream(found.value), st).0);
          }
      }
    }
  }

  function IndexOf(texts: seq<string>, text: string): (i: nat)
    requires text in texts
    ensures i < |texts| && texts[i] == text
  {
    if texts[0] == text then 0 else 1 + IndexOf(texts[1..], text)
  }

  /** A machine on which every text names a device of its own and every call succeeds. */
  function Recorder(texts: seq<string>): World {
    World(map text | text in texts :: DeviceName(IndexOf(texts, text)), set i | 0 <= i < |texts| :: Device(i), {}, {},
      false, true, false)
  }

  predicate Within(items: seq<(string, string)>, texts: seq<string>) {
    forall i | i in items :: i.1 in texts
  }

  /** The calls that the recorder sees, one for each value, from a cursor on some device. */
  function Record(items: seq<(string, string)>, texts: seq<string>, device: nat): (log: seq<Event>)
    requires Within(items, texts)
    ensures |log| == |items|
  {
    if items == [] then []
    else
      assert items[0] in items && forall i | i in items[1..] :: i in items;
      var (key, text) := items[0];
      if key == "dev" then
        [Activate(Device(IndexOf(texts, text)))] + Record(items[1..], texts, IndexOf(texts, text))
      else [Put(Device(device), key, text)] + Record(items[1..], texts, device)
  }

  const STARTED := START.(dev := Just(0), parent := Just(0))

  predicate OnDevice(st: State) {
    st.dev.Just? && st.parent.Just? && st.active == {}
  }

  lemma {:induction false} RunRecords(items: seq<(string, string)>, texts: seq<string>, st: State)
    requires OnDevice(st) && Within(items, texts)
    ensures var (end, ok) := Run(Recorder(texts), items, st);
      ok && OnDevice(end) && end.log == st.log + Record(items, texts, st.dev.value)
  {
    hide Configure, Recorder, OnDevice, Within;
    if items == [] {
      assert st.log + [] == st.log;
    } else {
      hide Record, Run;
      RunFirst(Recorder(texts), items, st);
      var (next, ok) := Configure(Recorder(texts), st, Just(items[0].0), items[0].1);
      OneRecord(items, texts, st);
      RunRecords(items[1..], texts, next);
      SplitLog(st.log, Record(items, texts, st.dev.value));
    }
  }

  lemma RunFirst(w: World, items: seq<(string, string)>, st: State)
    requires items != []
    ensures var (next, ok) := Configure(w, st, Just(items[0].0), items[0].1);
      Run(w, items, st) == if ok then Run(w, items[1..], next) else (next, false)
  {
    hide Configure;
  }

  lemma SplitLog(log: seq<Event>, more: seq<Event>)
    requires more != []
    ensures log + more[..1] + more[1..] == log + more
  {}

  lemma OneRecord(items: seq<(string, string)>, texts: seq<string>, st: State)
    requires OnDevice(st) && Within(items, texts) && items != []
    ensures st.dev.Just? && Configure(Recorder(texts), st, Just(items[0].0), items[0].1).0.dev.Just?
    ensures Within(items[1..], texts)
    ensures var (next, ok) := Configure(Recorder(texts), st, Just(items[0].0), items[0].1);
      && ok && OnDevice(next) && next.log == st.log + Record(items, texts, st.dev.value)[..1]
      && Record(items, texts, st.dev.value)[1..] == Record(items[1..], texts, next.dev.value)
  {
    assert items[0] in items && forall i | i in items[1..] :: i in items;
  }

  /** Different values leave different records. */
  lemma {:induction false} RecordInjective(
      a: seq<(string, string)>, b: seq<(string, string)>, texts: seq<string>, device: nat)
    requires Within(a, texts) && Within(b, texts)
    ensures Record(a, texts, device) == Record(b, texts, device) <==> a == b
  {
    var x, y := Record(a, texts, device), Record(b, texts, device);
    if x == y && a != [] {
      assert a[0] in a && b[0] in b && (forall i | i in a[1..] :: i in a) && forall i | i in b[1..] :: i in b;
      assert x[0] == y[0];
      assert a[0] == b[0];
      var next := if a[0].0 == "dev" then IndexOf(texts, a[0].1) else device;
      assert x[1..] == Record(a[1..], texts, next) && y[1..] == Record(b[1..], texts, next);
      RecordInjective(a[1..], b[1..], texts, next);
      assert a == [a[0]] + a[1..] && b == [b[0]] + b[1..];
    }
  }

  function Texts(items: seq<(string, string)>): (texts: seq<string>)
    ensures |texts| == |items| && forall i | 0 <= i < |items| :: texts[i] == items[i].1
  {
    seq(|items|, i requires 0 <= i < |items| => items[i].1)
  }

  lemma TextsCover(items: seq<(string, string)>, texts: seq<string>)
    requires forall t | t in Texts(items) :: t in texts
    ensures Within(items, texts)
  {
    forall i | i in items ensures i.1 in texts {
      var k :| 0 <= k < |items| && items[k] == i;
      assert Texts(items)[k] in texts;
    }
  }

  /** The recorder tells different streams apart. */
  lemma RecorderSeparates(a: seq<(string, string)>, b: seq<(string, string)>, texts: seq<string>, st: State)
    requires OnDevice(st) && Within(a, texts) && Within(b, texts) && a != b
    ensures Run(Recorder(texts), a, st) != Run(Recorder(texts), b, st)
  {
    hide Run, Record, Within;
    RunRecords(a, texts, st);
    RunRecords(b, texts, st);
    RecordInjective(a, b, texts, st.dev.value);
    var x, y := Record(a, texts, st.dev.value), Record(b, texts, st.dev.value);
    assert (st.log + x)[|st.log|..] == x && (st.log + y)[|st.log|..] == y;
  }

  // ---------- The rest of an object, looked up in another one ----------

  /** Keys that are found in one object load alike when looked up in another, on every machine and from every
      state, exactly when they are found there too and lead to the same values. */
  lemma LookupsAgree(a: seq<Entry>, b: seq<Entry>, after: seq<Entry>)
    requires LeadsToRegular(a, after) && LeadsToRegular(b, after) && forall e | e in after :: !e.value.Obj?
    requires FoundIn(b, after)
    ensures (forall w: World, st: State :: Parse(w, after, Obj(a), st) == Parse(w, after, Obj(b), st))
       <==> FoundIn(a, after) && Met(a, after) == Met(b, after)
  {
    hide Parse, Run, Met, FoundIn, LeadsToRegular, Within;
    if !FoundIn(a, after) {
      LostKey(after, a, START);
      LostKey(after, b, START);
      assert Parse(IDLE, after, Obj(a), START) != Parse(IDLE, after, Obj(b), START);
    } else if Met(a, after) == Met(b, after) {
      forall w: World, st: State ensures Parse(w, after, Obj(a), st) == Parse(w, after, Obj(b), st) {
        ParseMet(w, after, a, st);
        ParseMet(w, after, b, st);
      }
    } else {
      var texts := Texts(Met(a, after)) + Texts(Met(b, after));
      TextsCover(Met(a, after), texts);
      TextsCover(Met(b, after), texts);
      RecorderSeparates(Met(a, after), Met(b, after), texts, STARTED);
      ParseMet(Recorder(texts), after, a, STARTED);
      ParseMet(Recorder(texts), after, b, STARTED);
      assert Parse(Recorder(texts), after, Obj(a), STARTED) != Parse(Recorder(texts), after, Obj(b), STARTED);
    }
  }

  // ---------- A whole document ----------

  function Whole(before: seq<Entry>, key: string, inner: seq<Entry>, after: seq<Entry>): (whole: Doc)
    ensures whole.Obj?
  {
    Obj(before + [Entry(key, Obj(inner))] + after)
  }

  /** What the load would be if the keys behind the inner object were looked up where they stand. */
  function InPlace(w: World, before: seq<Entry>, key: string, inner: seq<Entry>, after: seq<Entry>, st: State): Step {
    var whole := Whole(before, key, inner, after);
    var (start, ok) := Parse(w, before, whole, st);
    if ok then Parse(w, after, whole, Parse(w, inner, Obj(inner), start).0) else (start, false)
  }

  lemma {:induction false} RegularParts(entries: seq<Entry>)
    requires RegularEntries(entries)
    ensures forall e | e in entries :: !e.value.Obj? && (e.value.Arr? ==> Regular(e.value))
    ensures DistinctKeys(entries)
  {
    if entries != [] {
      RegularParts(entries[1..]);
      forall i, j | 0 <= i < j < |entries| ensures entries[i].key != entries[j].key {
        assert entries[j] == entries[1..][j - 1] && entries[j] in entries[1..];
        if i > 0 {
          assert entries[i] == entries[1..][i - 1];
        }
      }
    }
  }

  /** The keys around the inner object are found in the whole where they stand. */
  predicate FoundInPlace(entries: seq<Entry>, part: seq<Entry>) {
    forall e | e in part :: Find(entries, e.key) == Just(e.value)
  }

  lemma {:induction false} MetInPlace(entries: seq<Entry>, part: seq<Entry>)
    requires FoundInPlace(entries, part) && forall e | e in part :: !e.value.Obj? && (e.value.Arr? ==> Regular(e.value))
    ensures FoundIn(entries, part) && LeadsToRegular(entries, part) && Met(entries, part) == EntriesStream(part)
  {
    if part != [] {
      assert part[0] in part && forall x | x in part[1..] :: x in part;
      MetInPlace(entries, part[1..]);
    }
  }

  lemma FoundWhereItStands(entries: seq<Entry>, i: nat)
    requires i < |entries| && forall j | 0 <= j < i :: entries[j].key != entries[i].key
    ensures Find(entries, entries[i].key) == Just(entries[i].value)
  {
    hide Find;
    assert entries[..i] + [entries[i]] + entries[i + 1..] == entries;
    FindInserted(entries[..i], entries[i], entries[i + 1..]);
  }

  predicate DistinctKeys(entries: seq<Entry>) {
    forall i, j | 0 <= i < j < |entries| :: entries[i].key != entries[j].key
  }

  lemma PartInPlace(entries: seq<Entry>, part: seq<Entry>)
    requires DistinctKeys(entries) && forall e | e in part :: e in entries
    ensures FoundInPlace(entries, part)
  {
    hide Find;
    forall e | e in part ensures Find(entries, e.key) == Just(e.value) {
      var i :| 0 <= i < |entries| && entries[i] == e;
      FoundWhereItStands(entries, i);
    }
  }

  lemma OneMoreKey(before: seq<Entry>, o: Entry, after: seq<Entry>)
    requires DistinctKeys(before + after) && forall e | e in before + after :: e.key != o.key
    ensures DistinctKeys(before + [o] + after)
  {
    var all, entries, n := before + after, before + [o] + after, |before|;
    forall i, j | 0 <= i < j < |entries| ensures entries[i].key != entries[j].key {
      var i', j' := if i < n then i else i - 1, if j < n then j else j - 1;
      assert i != n ==> entries[i] == all[i'] && all[i'] in all;
      assert j != n ==> entries[j] == all[j'] && all[j'] in all;
    }
  }

  /** A regular document but for one object as the value of a key. */
  predicate OneObjectKey(before: seq<Entry>, key: string, inner: seq<Entry>, after: seq<Entry>) {
    RegularEntries(before + after) && RegularEntries(inner) && forall e | e in before + after :: e.key != key
  }

  lemma PartsMet(before: seq<Entry>, key: string, inner: seq<Entry>, after: seq<Entry>)
    requires OneObjectKey(before, key, inner, after)
    ensures var entries := Whole(before, key, inner, after).entries;
      && FoundIn(entries, before) && LeadsToRegular(entries, before) && Met(entries, before) == EntriesStream(before)
      && FoundIn(entries, after) && LeadsToRegular(entries, after) && Met(entries, after) == EntriesStream(after)
      && FoundIn(inner, inner) && LeadsToRegular(inner, inner) && Met(inner, inner) == EntriesStream(inner)
      && LeadsToRegular(inner, after)
    ensures forall e | e in before || e in after || e in inner :: !e.value.Obj?
  {
    var entries := Whole(before, key, inner, after).entries;
    RegularParts(before + after);
    RegularParts(inner);
    hide RegularEntries, Find, FoundIn, LeadsToRegular, Met, EntriesStream, DistinctKeys, FoundInPlace;
    assert (forall e | e in before :: e in before + after) && forall e | e in after :: e in before + after;
    OneMoreKey(before, Entry(key, Obj(inner)), after);
    PartInPlace(entries, before);
    PartInPlace(entries, after);
    PartInPlace(inner, inner);
    MetInPlace(entries, before);
    MetInPlace(entries, after);
    MetInPlace(inner, inner);
    LeadsInside(inner, after);
  }

  lemma LeadsInside(inner: seq<Entry>, after: seq<Entry>)
    requires forall e | e in inner && e.value.Arr? :: Regular(e.value)
    ensures LeadsToRegular(inner, after)
  {
    hide Regular;
    forall e | e in after && e.value.Arr? && Find(inner, e.key).Just? && Find(inner, e.key).value.Arr?
      ensures Regular(Find(inner, e.key).value)
    {
      assert Entry(e.key, Find(inner, e.key).value) in inner;
    }
  }

  /** The load and the one that was meant, up to the keys behind the inner object. */
  lemma UpToInner(w: World, before: seq<Entry>, key: string, inner: seq<Entry>, after: seq<Entry>, st: State)
      returns (ok: bool, mid: State)
    requires OneObjectKey(before, key, inner, after)
    ensures ok == Run(w, EntriesStream(before), st).1
    ensures mid == Run(w, EntriesStream(inner), Run(w, EntriesStream(before), st).0).0
    ensures var whole := Whole(before, key, inner, after);
      var load := Parse(w, whole.entries, whole, st);
      && (ok ==> load == Parse(w, after, Obj(inner), mid))
      && (ok ==> InPlace(w, before, key, inner, after, st) == Parse(w, after, whole, mid))
      && (!ok ==> load == InPlace(w, before, key, inner, after, st))
  {
    PartsMet(before, key, inner, after);
    hide Run, FoundIn, LeadsToRegular, Met, EntriesStream, Find, RegularEntries, Parse;
    var whole := Whole(before, key, inner, after);
    ObjectKeyRedirects(w, before, key, inner, after, st);
    ParseMet(w, before, whole.entries, st);
    var (start, done) := Parse(w, before, whole, st);
    ParseMet(w, inner, inner, start);
    ok, mid := done, Parse(w, inner, Obj(inner), start).0;
  }

  /** An object as the value of a key makes no difference to the keys behind it, on any machine, exactly when each
      array among them is found inside it too, and the values there are those of the arrays that were meant. */
  lemma RedirectAgrees(before: seq<Entry>, key: string, inner: seq<Entry>, after: seq<Entry>)
    requires OneObjectKey(before, key, inner, after)
    ensures (forall w: World, st: State ::
        Parse(w, Whole(before, key, inner, after).entries, Whole(before, key, inner, after), st)
        == InPlace(w, before, key, inner, after, st))
      <==> FoundIn(inner, after) && Met(inner, after) == EntriesStream(after)
  {
    PartsMet(before, key, inner, after);
    hide Run, FoundIn, LeadsToRegular, Met, EntriesStream, Parse, InPlace, OneObjectKey, Whole, Within;
    var whole := Whole(before, key, inner, after);
    if !FoundIn(inner, after) {
      var ok, mid := UpToInner(IDLE, before, key, inner, after, START);
      IdleStays(EntriesStream(before), START);
      IdleStays(EntriesStream(inner), Run(IDLE, EntriesStream(before), START).0);
      LostKey(after, inner, mid);
      LostKey(after, whole.entries, mid);
      assert Parse(IDLE, whole.entries, whole, START) != InPlace(IDLE, before, key, inner, after, START);
    } else if Met(inner, after) == EntriesStream(after) {
      forall w: World, st: State
        ensures Parse(w, whole.entries, whole, st) == InPlace(w, before, key, inner, after, st)
      {
        var ok, mid := UpToInner(w, before, key, inner, after, st);
        ParseMet(w, after, inner, mid);
        ParseMet(w, after, whole.entries, mid);
      }
    } else {
      var a, b := Met(inner, after), EntriesStream(after);
      var texts := Texts(EntriesStream(before)) + Texts(EntriesStream(inner)) + Texts(a) + Texts(b);
      TextsCover(EntriesStream(before), texts);
      TextsCover(EntriesStream(inner), texts);
      TextsCover(a, texts);
      TextsCover(b, texts);
      var w := Recorder(texts);
      var ok, mid := UpToInner(w, before, key, inner, after, STARTED);
      RunRecords(EntriesStream(before), texts, STARTED);
      RunRecords(EntriesStream(inner), texts, Run(w, EntriesStream(before), STARTED).0);
      RecorderSeparates(a, b, texts, mid);
      ParseMet(w, after, inner, mid);
      ParseMet(w, after, whole.entries, mid);
      assert Parse(w, whole.entries, whole, STARTED) != InPlace(w, before, key, inner, after, STARTED);
    }
  }

  /** For instance an empty object in front of an array of objects makes the load fail. */
  lemma MissedKey()
    ensures var group := Obj([Entry("dev", Scalar("group0.0"))]);
      var entries := [Entry("info", Obj([])), Entry("groups", Arr([group]))];
      !Parse(IDLE, entries, Obj(entries), START).1 && Parse(IDLE, entries[1..], Obj(entries[1..]), START).1
  {
    var group := Obj([Entry("dev", Scalar("group0.0"))]);
    var after := [Entry("groups", Arr([group]))];
    var entries := [Entry("info", Obj([]))] + after;
    assert entries == [Entry("info", Obj([])), Entry("groups", Arr([group]))] && entries[1..] == after;
    EnterObject(IDLE, entries[0], after, Obj(entries), START);
    assert RegularElements([group]) && after[0] in after;
    assert Find([], "groups") == Nothing && Find(after, "groups") == Just(Arr([group]));
    hide RegularElements, Find;
    LostKey(after, [], START);
    LostKey(after, after, START);
  }

  /** A second object as the value of a key must be found inside the first, or the load fails. */
  lemma SecondObject(w: World, first: Entry, second: Entry, after: seq<Entry>, st: State)
    requires first.value.Obj? && second.value.Obj?
    ensures var whole := [first, second] + after;
      Parse(w, whole, Obj(whole), st).1 ==>
        Find(first.value.entries, second.key).Just? && Find(first.value.entries, second.key).value.Obj?
  {
    hide Configure;
    var whole := [first, second] + after;
    assert whole == [first] + ([second] + after) && ([second] + after)[0] == second;
    assert Find(whole, first.key) == Just(first.value);
    EnterObject(w, first, [second] + after, Obj(whole), st);
  }

  lemma IdleStays(items: seq<(string, string)>, st: State)
    requires st.parent == Nothing
    ensures Run(IDLE, items, st).1 && Run(IDLE, items, st).0.parent == Nothing
  {
    RunIdle(IDLE, items, st);
  }

  // ---------- Documents that fail whatever the machine ----------

  /** No key twice, and no object as the value of a key. */
  predicate Plainly(doc: Doc) {
    match doc
    case Obj(entries) => PlainEntries(entries)
    case Arr(elements) => PlainElements(elements)
    case _ => true
  }

  predicate PlainElements(elements: seq<Doc>) {
    elements == [] || (Plainly(elements[0]) && PlainElements(elements[1..]))
  }

  predicate PlainEntries(entries: seq<Entry>) {
    entries == [] || (
      && (forall e | e in entries[1..] :: e.key != entries[0].key)
      && !entries[0].value.Obj? && Plainly(entries[0].value)
      && PlainEntries(entries[1..]))
  }

  /** On an idle machine such an array loads exactly when no array in it is empty, and none holds a null or a scalar. */
  lemma IdleLoad(doc: Doc)
    requires doc.Arr? && Plainly(doc)
    ensures ParseArray(IDLE, doc, Nothing, START).1 <==> Regular(doc)
  {
    IdleElements(doc.elements, START);
    hide ParseElements;
  }

  lemma {:induction false} IdleElements(elements: seq<Doc>, st: State)
    requires PlainElements(elements) && st.parent == Nothing
    ensures var (end, ok) := ParseElements(IDLE, elements, st);
      end.parent == Nothing && (ok <==> RegularElements(elements))
    decreases ElementsWeight(elements)
  {
    assert forall text :: Configure(IDLE, st, Nothing, text) == (st, false);
    hide Configure, ParseArray, Parse;
    if elements != [] {
      assert Weight(elements[0]) < ElementsWeight(elements);
      match elements[0] {
        case Obj(entries) =>
          assert [] + entries == entries;
          PlainDistinct(entries);
          IdleEntries([], entries, st);
          IdleElements(elements[1..], Parse(IDLE, entries, Obj(entries), st).0);
        case Arr(inner) =>
          IdleElements(inner, st);
          IdleArray(inner, st);
          IdleElements(elements[1..], ParseElements(IDLE, inner, st).0);
        case _ =>
      }
    }
  }

  lemma IdleArray(elements: seq<Doc>, st: State)
    ensures ParseArray(IDLE, Arr(elements), Nothing, st)
         == if elements == [] then (st, false) else ParseElements(IDLE, elements, st)
  {
    hide ParseElements;
  }

  lemma {:induction false} PlainDistinct(entries: seq<Entry>)
    requires PlainEntries(entries)
    ensures DistinctKeys(entries)
  {
    hide Plainly;
    if entries != [] {
      PlainDistinct(entries[1..]);
      forall i, j | 0 <= i < j < |entries| ensures entries[i].key != entries[j].key {
        assert entries[j] == entries[1..][j - 1] && entries[j] in entries[1..];
        assert i > 0 ==> entries[i] == entries[1..][i - 1];
      }
    }
  }

  lemma {:induction false} IdleEntries(before: seq<Entry>, after: seq<Entry>, st: State)
    requires PlainEntries(after) && DistinctKeys(before + after) && st.parent == Nothing
    ensures var (end, ok) := Parse(IDLE, after, Obj(before + after), st);
      end.parent == Nothing && (ok <==> RegularEntries(after))
    decreases EntriesWeight(after)
  {
    hide Configure, DistinctKeys;
    if after != [] {
      var e, rest := after[0], after[1..];
      assert before + after == before + [e] + rest;
      match e.value {
        case Null => IdleEntries(before + [e], rest, st);
        case Scalar(text) =>
          IdleStep(e.key, text, st);
          IdleEntries(before + [e], rest, Configure(IDLE, st, Just(e.key), text).0);
        case Arr(elements) =>
          FirstFound(before, after);
          IdleElements(elements, st);
          IdleEntries(before + [e], rest, ParseElements(IDLE, elements, st).0);
        case Obj(_) =>
      }
    }
  }

  lemma IdleStep(key: string, text: string, st: State)
    requires st.parent == Nothing
    ensures var (end, ok) := Configure(IDLE, st, Just(key), text); ok && end.parent == Nothing
  {}

  lemma FirstFound(before: seq<Entry>, after: seq<Entry>)
    requires after != [] && DistinctKeys(before + after)
    ensures Find(before + after, after[0].key) == Just(after[0].value)
  {
    hide Find;
    assert (before + after)[|before|] == after[0];
    FoundWhereItStands(before + after, |before|);
  }
}
