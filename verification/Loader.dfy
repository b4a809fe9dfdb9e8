/** The configuration loader, accfg/config.c: a walk over a JSON document that drives a cursor. */
module Loader {
  import opened Optional

  /** A parsed document; booleans, numbers and strings are scalars. */
  datatype Doc = Null | Scalar(text: string) | Arr(elements: seq<Doc>) | Obj(entries: seq<Entry>)
  datatype Entry = Entry(key: string, value: Doc)

  datatype Target =
    | Device(device: nat)
    | Wq(device: nat, id: nat)
    | Engine(device: nat, id: nat)
    | Group(device: nat, id: nat)

  /** What the value of a "dev" key says. */
  datatype Name =
    | DeviceName(device: nat)
    | WqName(id: nat)
    | EngineName(id: nat)
    | GroupName(id: nat)
    | BadDevice
    | BadPart
    | OtherName

  /** The calls made on the way. */
  datatype Event =
    | Disable(target: Target)
    | Activate(target: Target)
    | Put(target: Target, key: string, text: string)
    | PutDefault(target: Target, key: string, text: string)

  /** The machine and the command line.  `stuck` devices cannot be disabled, and `rejects` lists the
      settings that fail. */
  datatype World = World(
    names: map<string, Name>,
    present: set<Target>,
    stuck: set<nat>,
    rejects: set<(Target, string, string)>,
    forced: bool,
    enable: bool,
    defaults: bool)
  {
    function NameOf(text: string): Name {
      if text in names then names[text] else OtherName
    }
  }

  /** The static cursor, the targets that are active, and the calls so far. */
  datatype State = State(
    dev: Maybe<nat>,
    parent: Maybe<nat>,
    group: Maybe<Target>,
    wq: Maybe<Target>,
    engine: Maybe<Target>,
    active: set<Target>,
    log: seq<Event>)

  /** A loader that has met no device, on a machine where nothing is active. */
  const START := State(Nothing, Nothing, Nothing, Nothing, Nothing, {}, [])

  type Step = (State, bool)

  // ---------- One value ----------

  /** The targets that stop being active when a device is disabled. */
  function Under(active: set<Target>, device: nat): set<Target> {
    set t | t in active && t.device == device
  }

  function Activation(w: World, t: Target): seq<Event> {
    if w.enable then [Activate(t)] else []
  }

  function EnterDevice(w: World, st: State, id: nat): Step {
    var t := Device(id);
    var st := st.(parent := Nothing);
    if t !in w.present then (st, false)
    else if t in st.active && !w.forced then (st, true)
    else if t in st.active && id in w.stuck then (st.(dev := Just(id), log := st.log + [Disable(t)]), false)
    else
      var st := if t in st.active
        then st.(active := st.active - Under(st.active, id), log := st.log + [Disable(t)]) else st;
      (st.(dev := Just(id), parent := Just(id), log := st.log + Activation(w, t)), true)
  }

  function EnterPart(w: World, st: State, name: Name): Step
    requires st.parent.Just?
  {
    match name
    case WqName(id) =>
      var t := Wq(st.parent.value, id);
      if t !in w.present then (st, false)
      else if t in st.active then (st, true)
      else (st.(wq := Just(t), log := st.log + Activation(w, t)), true)
    case EngineName(id) =>
      var t := Engine(st.parent.value, id);
      if t !in w.present then (st, false) else (st.(engine := Just(t)), true)
    case GroupName(id) =>
      var t := Group(st.parent.value, id);
      if t !in w.present then (st, false) else (st.(group := Just(t)), true)
    case BadPart => (st, false)
    case _ => (st, true)
  }

  /** The "dev" key moves the cursor. */
  function Enter(w: World, st: State, text: string): Step {
    var name := w.NameOf(text);
    var st := st.(dev := Nothing, group := Nothing, wq := Nothing, engine := Nothing);
    if name.DeviceName? then EnterDevice(w, st, name.device)
    else if name.BadDevice? then (st, false)
    else if st.parent == Nothing then (st, true)
    else EnterPart(w, st, name)
  }

  function PutOn(w: World, st: State, t: Target, key: string, text: string): Step {
    (st.(log := st.log + [Put(t, key, text)]), (t, key, text) !in w.rejects)
  }

  /** Every other key goes to the first part of the cursor that is set. */
  function Assign(w: World, st: State, key: string, text: string): Step {
    if st.parent == Nothing then (st, true)
    else if st.wq.Just? && w.defaults then (st.(log := st.log + [PutDefault(st.wq.value, key, text)]), true)
    else if st.dev.Just? then PutOn(w, st, Device(st.dev.value), key, text)
    else if st.group.Just? then PutOn(w, st, st.group.value, key, text)
    else if st.wq.Just? then PutOn(w, st, st.wq.value, key, text)
    else if st.engine.Just? then PutOn(w, st, st.engine.value, key, text)
    else (st, false)
  }

  function Configure(w: World, st: State, key: Maybe<string>, text: string): Step {
    match key
    case Nothing => (st, false)
    case Just(k) => if k == "dev" then Enter(w, st, text) else Assign(w, st, k, text)
  }

  // ---------- The walk ----------

  function Weight(doc: Doc): nat {
    match doc
    case Arr(elements) => 1 + ElementsWeight(elements)
    case Obj(entries) => 1 + EntriesWeight(entries)
    case _ => 1
  }

  function ElementsWeight(elements: seq<Doc>): nat {
    if elements == [] then 0 else 1 + Weight(elements[0]) + ElementsWeight(elements[1..])
  }

  function EntriesWeight(entries: seq<Entry>): nat {
    if entries == [] then 0 else 1 + Weight(entries[0].value) + EntriesWeight(entries[1..])
  }

  function Find(entries: seq<Entry>, key: string): (r: Maybe<Doc>)
    ensures r.Just? ==> Weight(r.value) < EntriesWeight(entries)
    ensures r.Just? ==> Entry(key, r.value) in entries
    ensures r == Nothing ==> forall e | e in entries :: e.key != key
  {
    if entries == [] then Nothing
    else if entries[0].key == key then Just(entries[0].value)
    else Find(entries[1..], key)
  }

  /** `json_parse` from some entry on; `jobj` is the object that later keys are looked up in. */
  function Parse(w: World, entries: seq<Entry>, jobj: Doc, st: State): Step
    requires jobj.Obj?
    decreases Weight(jobj), 2, |entries|
  {
    if entries == [] then (st, true)
    else
      var Entry(key, value) := entries[0];
      match value
      case Null => Parse(w, entries[1..], jobj, st)
      case Scalar(text) =>
        var (next, ok) := Configure(w, st, Just(key), text);
        if ok then Parse(w, entries[1..], jobj, next) else (next, false)
      case Obj(_) =>
        (match Find(jobj.entries, key)
         case Just(inner) =>
           if inner.Obj? then Parse(w, entries[1..], inner, Parse(w, inner.entries, inner, st).0) else (st, false)
         case Nothing => (st, false))
      case Arr(_) =>
        var (next, ok) := ParseArray(w, jobj, Just(key), st);
        if ok then Parse(w, entries[1..], jobj, next) else (next, false)
  }

  function ArrayAt(jobj: Doc, key: Maybe<string>): (r: Maybe<Doc>)
    ensures r.Just? ==> r.value.Arr? && Weight(r.value) <= Weight(jobj)
  {
    if key == Nothing then if jobj.Arr? then Just(jobj) else Nothing
    else if !jobj.Obj? then Nothing
    else match Find(jobj.entries, key.value)
      case Just(Arr(elements)) => Just(Arr(elements))
      case _ => Nothing
  }

  /** `json_parse_array`. */
  function ParseArray(w: World, jobj: Doc, key: Maybe<string>, st: State): Step
    decreases Weight(jobj), 1, 0
  {
    match ArrayAt(jobj, key)
    case Nothing => (st, false)
    case Just(jarray) => if jarray.elements == [] then (st, false) else ParseElements(w, jarray.elements, st)
  }

  function ParseElements(w: World, elements: seq<Doc>, st: State): Step
    decreases ElementsWeight(elements), 0, 0
  {
    if elements == [] then (st, true)
    else
      var (next, ok) :=
        match elements[0]
        case Null => (st, false)
        case Arr(_) => ParseArray(w, elements[0], Nothing, st)
        case Scalar(text) => Configure(w, st, Nothing, text)
        case Obj(entries) => Parse(w, entries, elements[0], st);
      if ok then ParseElements(w, elements[1..], next) else (next, false)
  }

  /** The loader and its static variables. */
  class Loader {
    const world: World
    var dev: Maybe<nat>
    var parent: Maybe<nat>
    var group: Maybe<Target>
    var wq: Maybe<Target>
    var engine: Maybe<Target>
    var active: set<Target>
    var log: seq<Event>

    ghost function Now(): State
      reads this
    {
      State(dev, parent, group, wq, engine, active, log)
    }

    constructor (world: World, active: set<Target>)
      ensures this.world == world && Now() == State(Nothing, Nothing, Nothing, Nothing, Nothing, active, [])
    {
      this.world, this.active, log := world, active, [];
      dev, parent, group, wq, engine := Nothing, Nothing, Nothing, Nothing, Nothing;
    }

    method ConfigureJsonValue(key: Maybe<string>, text: string) returns (ok: bool)
      modifies this
      ensures (Now(), ok) == Configure(world, old(Now()), key, text)
    {
      if key == Nothing { return false; }
      if key.value == "dev" {
        dev, group, wq, engine := Nothing, Nothing, Nothing, Nothing;
        var name := world.NameOf(text);
        if name.BadDevice? { return false; }
        if name.DeviceName? {
          var t := Device(name.device);
          parent := Nothing;
          if t !in world.present { return false; }
          if t in active {
            if !world.forced { return true; }
            dev := Just(name.device);
            log := log + [Disable(t)];
            if name.device in world.stuck { return false; }
            active := active - Under(active, name.device);
          }
          dev := Just(name.device);
          log := log + Activation(world, t);
          parent := dev;
          return true;
        }
        if parent == Nothing { return true; }
        match name {
          case WqName(id) =>
            var t := Wq(parent.value, id);
            if t !in world.present { return false; }
            if t in active { return true; }
            wq := Just(t);
            log := log + Activation(world, t);
          case EngineName(id) =>
            var t := Engine(parent.value, id);
            if t !in world.present { return false; }
            engine := Just(t);
          case GroupName(id) =>
            var t := Group(parent.value, id);
            if t !in world.present { return false; }
            group := Just(t);
          case BadPart => return false;
          case _ =>
        }
        return true;
      }
      if parent == Nothing { return true; }
      if wq.Just? && world.defaults {
        log := log + [PutDefault(wq.value, key.value, text)];
        return true;
      }
      var t;
      if dev.Just? {
        t := Device(dev.value);
      } else if group.Just? {
        t := group.value;
      } else if wq.Just? {
        t := wq.value;
      } else if engine.Just? {
        t := engine.value;
      } else {
        return false;
      }
      log := log + [Put(t, key.value, text)];
      ok := (t, key.value, text) !in world.rejects;
    }

    method JsonParse(whole: Doc) returns (ok: bool)
      requires whole.Obj?
      modifies this
      ensures (Now(), ok) == Parse(world, whole.entries, whole, old(Now()))
      decreases Weight(whole), 2
    {
      hide Configure;
      var jobj := whole;
      var entries := whole.entries;
      assert entries[0..] == entries;
      for i := 0 to |entries|
        invariant jobj.Obj? && Weight(jobj) <= Weight(whole)
        invariant Parse(world, entries[i..], jobj, Now()) == Parse(world, entries, whole, old(Now()))
      {
        assert entries[i..][1..] == entries[i + 1..];
        var Entry(key, value) := entries[i];
        match value {
          case Scalar(text) =>
            ok := ConfigureJsonValue(Just(key), text);
            if !ok { return; }
          case Obj(_) =>
            var inner := Find(jobj.entries, key);
            if inner == Nothing || !inner.value.Obj? { return false; }
            jobj := inner.value;
            var _ := JsonParse(jobj);
          case Arr(_) =>
            ok := JsonParseArray(jobj, Just(key));
            if !ok { return; }
          case Null =>
        }
      }
      ok := true;
    }

    method JsonParseArray(jobj: Doc, key: Maybe<string>) returns (ok: bool)
      modifies this
      ensures (Now(), ok) == ParseArray(world, jobj, key, old(Now()))
      decreases Weight(jobj), 1
    {
      hide Configure;
      var jarray := ArrayAt(jobj, key);
      if jarray == Nothing || |jarray.value.elements| == 0 { return false; }
      var elements := jarray.value.elements;
      assert elements[0..] == elements;
      for i := 0 to |elements|
        invariant ElementsWeight(elements[i..]) < Weight(jobj)
        invariant ParseElements(world, elements[i..], Now()) == ParseElements(world, elements, old(Now()))
      {
        assert elements[i..][1..] == elements[i + 1..];
        match elements[i] {
          case Null => return false;
          case Arr(_) => ok := JsonParseArray(elements[i], Nothing);
          case Scalar(text) => ok := ConfigureJsonValue(Nothing, text);
          case Obj(_) => ok := JsonParse(elements[i]);
        }
        if !ok { return; }
      }
      ok := true;
    }
  }

  // ---------- Documents as a stream of values ----------

  /** The values are set in the order of the document, up to the first failure. */
  function Run(w: World, items: seq<(string, string)>, st: State): Step {
    if items == [] then (st, true)
    else
      var (next, ok) := Configure(w, st, Just(items[0].0), items[0].1);
      if ok then Run(w, items[1..], next) else (next, false)
  }

  /** No key twice, arrays with at least one element, no array of scalars or nulls, and no object as the
      value of a key. */
  predicate Regular(doc: Doc) {
    match doc
    case Obj(entries) => RegularEntries(entries)
    case Arr(elements) => elements != [] && RegularElements(elements)
    case _ => false
  }

  predicate RegularElements(elements: seq<Doc>) {
    elements == [] || (Regular(elements[0]) && RegularElements(elements[1..]))
  }

  predicate RegularEntries(entries: seq<Entry>) {
    entries == [] || (
      && (forall e | e in entries[1..] :: e.key != entries[0].key)
      && !entries[0].value.Obj?
      && (entries[0].value.Arr? ==> Regular(entries[0].value))
      && RegularEntries(entries[1..]))
  }

  function Stream(doc: Doc): seq<(string, string)> {
    match doc
    case Obj(entries) => EntriesStream(entries)
    case Arr(elements) => ElementsStream(elements)
    case _ => []
  }

  function ElementsStream(elements: seq<Doc>): seq<(string, string)> {
    if elements == [] then [] else Stream(elements[0]) + ElementsStream(elements[1..])
  }

  function EntriesStream(entries: seq<Entry>): seq<(string, string)> {
    if entries == [] then []
    else
      var Entry(key, value) := entries[0];
      (if value.Scalar? then [(key, value.text)] else Stream(value)) + EntriesStream(entries[1..])
  }

  lemma OneEntryMore(e: Entry, rest: seq<Entry>)
    ensures EntriesStream([e] + rest)
         == (if e.value.Scalar? then [(e.key, e.value.text)] else Stream(e.value)) + EntriesStream(rest)
    ensures RegularEntries([e] + rest) <==>
      && (forall x | x in rest :: x.key != e.key) && !e.value.Obj? && (e.value.Arr? ==> Regular(e.value))
      && RegularEntries(rest)
  {
    assert ([e] + rest)[1..] == rest;
  }

  lemma ThreeItems(w: World, a: (string, string), b: (string, string), c: (string, string), st: State)
    ensures var (s, ok) := Configure(w, st, Just(a.0), a.1);
      Run(w, [a, b, c], st) == if !ok then (s, false)
      else
        var (t, fine) := Configure(w, s, Just(b.0), b.1);
        if fine then Configure(w, t, Just(c.0), c.1) else (t, false)
  {
    hide Configure;
    assert [a, b, c][1..] == [b, c] && [b, c][1..] == [c] && [c][1..] == [];
    var s := Configure(w, st, Just(a.0), a.1).0;
    var t := Configure(w, s, Just(b.0), b.1).0;
    assert Run(w, [c], t) == Configure(w, t, Just(c.0), c.1);
    var r := Configure(w, s, Just(b.0), b.1);
    assert Run(w, [b, c], s) == if r.1 then Run(w, [c], t) else (t, false);
  }

  lemma OneElementMore(doc: Doc, rest: seq<Doc>)
    ensures ElementsStream([doc] + rest) == Stream(doc) + ElementsStream(rest)
    ensures RegularElements([doc] + rest) <==> Regular(doc) && RegularElements(rest)
  {
    assert ([doc] + rest)[1..] == rest;
  }

  lemma {:induction false} RunAppend(w: World, a: seq<(string, string)>, b: seq<(string, string)>, st: State)
    ensures var (mid, ok) := Run(w, a, st); Run(w, a + b, st) == if ok then Run(w, b, mid) else (mid, false)
  {
    hide Configure;
    if a == [] {
      assert a + b == b;
    } else {
      assert (a + b)[1..] == a[1..] + b;
      var (next, ok) := Configure(w, st, Just(a[0].0), a[0].1);
      RunAppend(w, a[1..], b, next);
    }
  }

  lemma {:induction false} FindRegular(before: seq<Entry>, after: seq<Entry>)
    requires after != [] && RegularEntries(before + after)
    ensures Find(before + after, after[0].key) == Just(after[0].value)
  {
    if before == [] {
      assert before + after == after;
    } else {
      assert (before + after)[1..] == before[1..] + after;
      assert after[0] in (before + after)[1..];
      FindRegular(before[1..], after);
    }
  }

  /** On a regular document the walk sets the values in document order. */
  lemma {:induction false} ParseIsRun(w: World, before: seq<Entry>, after: seq<Entry>, st: State)
    requires RegularEntries(before + after) && RegularEntries(after)
    ensures Parse(w, after, Obj(before + after), st) == Run(w, EntriesStream(after), st)
    decreases EntriesWeight(after)
  {
    hide Configure;
    if after != [] {
      var rest := after[1..];
      assert before + after == before + [after[0]] + rest;
      var Entry(key, value) := after[0];
      match value
      case Scalar(text) =>
        var (next, ok) := Configure(w, st, Just(key), text);
        ParseIsRun(w, before + [after[0]], rest, next);
        assert [(key, text)] + EntriesStream(rest) == EntriesStream(after);
      case Null =>
        ParseIsRun(w, before + [after[0]], rest, st);
        assert Stream(Null) == [] && [] + EntriesStream(rest) == EntriesStream(rest);
      case Arr(elements) =>
        FindRegular(before, after);
        ElementsAreRun(w, elements, st);
        var (next, ok) := ParseElements(w, elements, st);
        ParseIsRun(w, before + [after[0]], rest, next);
        RunAppend(w, Stream(value), EntriesStream(rest), st);
      case Obj(_) =>
    }
  }

  lemma {:induction false} ElementsAreRun(w: World, elements: seq<Doc>, st: State)
    requires RegularElements(elements)
    ensures ParseElements(w, elements, st) == Run(w, ElementsStream(elements), st)
    decreases ElementsWeight(elements)
  {
    hide Configure;
    if elements != [] {
      var next := Run(w, Stream(elements[0]), st).0;
      assert Weight(elements[0]) < ElementsWeight(elements);
      match elements[0] {
        case Obj(entries) =>
          assert [] + entries == entries;
          ParseIsRun(w, [], entries, st);
        case Arr(inner) => ElementsAreRun(w, inner, st);
      }
      ElementsAreRun(w, elements[1..], next);
      RunAppend(w, Stream(elements[0]), ElementsStream(elements[1..]), st);
    }
  }

  // ---------- Objects as the value of a key ----------

  /** Keys that lead on into the document are found with the same value in both objects. */
  predicate SameLookups(after: seq<Entry>, a: Doc, b: Doc)
    requires a.Obj? && b.Obj?
  {
    forall e | e in after && (e.value.Arr? || e.value.Obj?) :: Find(a.entries, e.key) == Find(b.entries, e.key)
  }

  lemma {:induction false} SameParse(w: World, after: seq<Entry>, a: Doc, b: Doc, st: State)
    requires a.Obj? && b.Obj? && SameLookups(after, a, b)
    ensures Parse(w, after, a, st) == Parse(w, after, b, st)
    decreases |after|
  {
    hide Configure;
    if after != [] {
      var e, rest := after[0], after[1..];
      assert e in after && forall x | x in rest :: x in after;
      match e.value {
        case Null => SameParse(w, rest, a, b, st);
        case Scalar(text) => SameParse(w, rest, a, b, Configure(w, st, Just(e.key), text).0);
        case Arr(_) => SameParse(w, rest, a, b, ParseArray(w, a, Just(e.key), st).0);
        case Obj(_) =>
      }
    }
  }

  /** Up to the first object as the value of a key the lookups stay in the same object. */
  lemma {:induction false} ParseAppend(w: World, before: seq<Entry>, after: seq<Entry>, jobj: Doc, st: State)
    requires jobj.Obj? && forall e | e in before :: !e.value.Obj?
    ensures var (mid, ok) := Parse(w, before, jobj, st);
      Parse(w, before + after, jobj, st) == if ok then Parse(w, after, jobj, mid) else (mid, false)
    decreases |before|
  {
    hide Configure;
    if before == [] {
      assert before + after == after;
    } else {
      var e, rest := before[0], before[1..];
      assert e in before && (before + after)[1..] == rest + after && forall x | x in rest :: x in before;
      match e.value {
        case Null => ParseAppend(w, rest, after, jobj, st);
        case Scalar(text) => ParseAppend(w, rest, after, jobj, Configure(w, st, Just(e.key), text).0);
        case Arr(_) => ParseAppend(w, rest, after, jobj, ParseArray(w, jobj, Just(e.key), st).0);
      }
    }
  }

  lemma {:induction false} FindInserted(before: seq<Entry>, e: Entry, after: seq<Entry>)
    requires forall x | x in before :: x.key != e.key
    ensures Find(before + [e] + after, e.key) == Just(e.value)
  {
    if before == [] {
      assert before + [e] + after == [e] + after;
    } else {
      assert before[0] in before && (before + [e] + after)[1..] == before[1..] + [e] + after;
      FindInserted(before[1..], e, after);
    }
  }

  lemma EnterObject(w: World, e: Entry, after: seq<Entry>, jobj: Doc, st: State)
    requires e.value.Obj? && jobj.Obj? && Find(jobj.entries, e.key) == Just(e.value)
    ensures Parse(w, [e] + after, jobj, st) == Parse(w, after, e.value, Parse(w, e.value.entries, e.value, st).0)
  {
    hide Configure, Find;
    assert ([e] + after)[1..] == after;
  }

  /** An object as the value of a key: what is before it loads as it would alone; then it is loaded, and whether
      that fails is lost; then the keys after it are looked up in it.  They load as they would in the whole object
      if the array and object keys among them are found with the same value in both, so scalars are not affected,
      and an array key that comes next succeeds exactly when the inner object holds a nonempty array there that
      loads. */
  lemma ObjectKeyRedirects(
      w: World, before: seq<Entry>, key: string, inner: seq<Entry>, after: seq<Entry>, st: State)
    requires forall e | e in before :: e.key != key && !e.value.Obj?
    ensures var whole := Obj(before + [Entry(key, Obj(inner))] + after);
      var (start, ok) := Parse(w, before, whole, st);
      var mid := Parse(w, inner, Obj(inner), start).0;
      && Parse(w, whole.entries, whole, st) == (if ok then Parse(w, after, Obj(inner), mid) else (start, false))
      && (SameLookups(after, Obj(inner), whole) ==>
          Parse(w, after, Obj(inner), mid) == Parse(w, after, whole, mid))
      && (after != [] && after[0].value.Arr? ==>
          var found := Find(inner, after[0].key);
          ParseArray(w, Obj(inner), Just(after[0].key), mid).1 <==>
          (&& found.Just? && found.value.Arr? && found.value.elements != []
           && ParseElements(w, found.value.elements, mid).1))
  {
    hide Configure, ParseElements, SameLookups;
    var e := Entry(key, Obj(inner));
    var whole := Obj(before + [e] + after);
    var (start, ok) := Parse(w, before, whole, st);
    var mid := Parse(w, inner, Obj(inner), start).0;
    assert before + [e] + after == before + ([e] + after) && ([e] + after)[1..] == after;
    FindInserted(before, e, after);
    EnterObject(w, e, after, whole, start);
    hide Parse, Find;
    ParseAppend(w, before, [e] + after, whole, st);
    if SameLookups(after, Obj(inner), whole) {
      SameParse(w, after, Obj(inner), whole, mid);
    }
  }
}
