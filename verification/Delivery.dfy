/** What the loader of accfg/config.c delivers where: documents as streams of values, cut into segments at
    every "dev", and each segment delivered to the target that its name selects. */
module Delivery {
  import opened Optional
  import opened Loader

  // ---------- Segments ----------

  /** A name and the settings that follow it up to the next name. */
  datatype Listed = Listed(name: string, settings: seq<(string, string)>)

  /** The values up to the first name. */
  function Lead(items: seq<(string, string)>): (lead: seq<(string, string)>)
    ensures |lead| <= |items| && items[..|lead|] == lead && forall s | s in lead :: s.0 != "dev"
    ensures |lead| < |items| ==> items[|lead|].0 == "dev"
  {
    if items == [] || items[0].0 == "dev" then [] else [items[0]] + Lead(items[1..])
  }

  function Segments(items: seq<(string, string)>): seq<Listed>
    decreases |items|
  {
    var rest := items[|Lead(items)|..];
    if rest == [] then []
    else
      var settings := Lead(rest[1..]);
      [Listed(rest[0].1, settings)] + Segments(rest[1 + |settings|..])
  }

  function Flatten(objects: seq<Listed>): seq<(string, string)> {
    if objects == [] then [] else [("dev", objects[0].name)] + objects[0].settings + Flatten(objects[1..])
  }

  lemma {:induction false} FlattenAppend(a: seq<Listed>, b: seq<Listed>)
    ensures Flatten(a + b) == Flatten(a) + Flatten(b)
  {
    if a == [] {
      assert a + b == b;
    } else {
      assert (a + b)[1..] == a[1..] + b;
      FlattenAppend(a[1..], b);
    }
  }

  /** No setting of any object is called "dev". */
  predicate Attributes(objects: seq<Listed>) {
    forall l, s | l in objects && s in l.settings :: s.0 != "dev"
  }

  lemma {:induction false} LeadOf(settings: seq<(string, string)>, more: seq<(string, string)>)
    requires (forall s | s in settings :: s.0 != "dev") && (more != [] ==> more[0].0 == "dev")
    ensures Lead(settings + more) == settings
  {
    if settings == [] {
      assert settings + more == more;
    } else {
      assert settings[0] in settings && (settings + more)[1..] == settings[1..] + more;
      LeadOf(settings[1..], more);
    }
  }

  lemma SegmentsUnfold(items: seq<(string, string)>)
    requires items != [] && items[0].0 == "dev"
    ensures var settings := Lead(items[1..]);
      Segments(items) == [Listed(items[0].1, settings)] + Segments(items[1 + |settings|..])
  {
    NoLead(items);
    hide Lead;
    assert items[0..] == items;
  }

  lemma SegmentsNext(name: string, settings: seq<(string, string)>, more: seq<(string, string)>)
    requires (forall s | s in settings :: s.0 != "dev") && (more != [] ==> more[0].0 == "dev")
    ensures Segments([("dev", name)] + settings + more) == [Listed(name, settings)] + Segments(more)
  {
    hide Lead, Segments;
    LeadOf(settings, more);
    var items := [("dev", name)] + settings + more;
    assert items[1..] == settings + more && items[1 + |settings|..] == more;
    SegmentsUnfold(items);
  }

  /** Nothing is lost or reordered behind the values before the first name. */
  lemma {:induction false} SegmentsCover(items: seq<(string, string)>)
    ensures items == Lead(items) + Flatten(Segments(items))
    ensures Attributes(Segments(items))
    decreases |items|
  {
    hide Lead;
    var lead := Lead(items);
    var rest := items[|lead|..];
    if rest != [] {
      var settings := Lead(rest[1..]);
      var more := rest[1 + |settings|..];
      assert rest[1..][|settings|..] == more;
      assert items == lead + ([rest[0]] + settings + more);
      SegmentsCover(more);
      NoLead(more);
      SegmentsSkipLead(items);
      SegmentsNext(rest[0].1, settings, more);
      hide Segments;
      assert rest == [rest[0]] + settings + more;
    }
  }

  lemma NoLead(items: seq<(string, string)>)
    requires items != [] ==> items[0].0 == "dev"
    ensures Lead(items) == []
  {}

  lemma SegmentsSkipLead(items: seq<(string, string)>)
    ensures Segments(items) == Segments(items[|Lead(items)|..])
  {
    var rest := items[|Lead(items)|..];
    NoLead(rest);
    hide Lead;
    assert rest[0..] == rest;
  }

  lemma FlatStartsWithName(objects: seq<Listed>)
    ensures Flatten(objects) != [] ==> Flatten(objects)[0].0 == "dev"
  {}

  lemma AttributesOfParts(objects: seq<Listed>)
    requires Attributes(objects) && objects != []
    ensures Attributes(objects[1..]) && forall s | s in objects[0].settings :: s.0 != "dev"
  {
    assert objects[0] in objects && forall x | x in objects[1..] :: x in objects;
  }

  lemma {:induction false} SegmentsOfFlat(objects: seq<Listed>)
    requires Attributes(objects)
    ensures Segments(Flatten(objects)) == objects
  {
    if objects != [] {
      var l, more := objects[0], Flatten(objects[1..]);
      hide Segments, Attributes;
      AttributesOfParts(objects);
      SegmentsOfFlat(objects[1..]);
      FlatStartsWithName(objects[1..]);
      SegmentsNext(l.name, l.settings, more);
      assert Listed(l.name, l.settings) == l;
    } else {
      assert Segments([]) == [];
    }
  }

  // ---------- Delivery without a cursor ----------

  /** The device that parts belong to, the active targets, and the calls so far. */
  datatype Delivery = Delivery(parent: Maybe<nat>, active: set<Target>, log: seq<Event>)

  function Project(st: State): Delivery {
    Delivery(st.parent, st.active, st.log)
  }

  /** The target an object names, if it names one. */
  datatype Owner = To(target: Target) | Nobody | Ignored | Failed

  function Present(w: World, d: Delivery, t: Target): Owner {
    if t !in w.present then Failed else if t.Wq? && t in d.active then Nobody else To(t)
  }

  function PartOwner(w: World, d: Delivery, name: Name, parent: nat): Owner {
    match name
    case WqName(id) => Present(w, d, Wq(parent, id))
    case EngineName(id) => Present(w, d, Engine(parent, id))
    case GroupName(id) => Present(w, d, Group(parent, id))
    case BadPart => Failed
    case _ => Nobody
  }

  function OwnerOf(w: World, d: Delivery, text: string): Owner {
    match w.NameOf(text)
    case BadDevice => Failed
    case DeviceName(id) =>
      var t := Device(id);
      if t in w.present && t in d.active && !w.forced then Ignored
      else if t in d.active && id in w.stuck then Failed
      else Present(w, d, t)
    case _ => if d.parent == Nothing then Ignored else PartOwner(w, d, w.NameOf(text), d.parent.value)
  }

  /** The calls that a name alone makes: a forced device is disabled, and devices and queues are put down for
      activation. */
  function AnnounceCalls(w: World, d: Delivery, text: string): seq<Event> {
    var o := OwnerOf(w, d, text);
    (if Disables(w, d, text) then [Disable(Device(w.NameOf(text).device))] else [])
    + (if o.To? && (o.target.Device? || o.target.Wq?) && w.enable then [Activate(o.target)] else [])
  }

  predicate Disables(w: World, d: Delivery, text: string) {
    var name := w.NameOf(text);
    name.DeviceName? && Device(name.device) in w.present && Device(name.device) in d.active && w.forced
  }

  /** What a name does: a device that can be configured becomes the one that parts belong to, any other device
      leaves none, and a device that was disabled is no longer active, nor is anything under it. */
  function Announce(w: World, d: Delivery, text: string): Delivery {
    var name, o := w.NameOf(text), OwnerOf(w, d, text);
    Delivery(
      if !name.DeviceName? then d.parent else if o.To? then Just(name.device) else Nothing,
      if Disables(w, d, text) && o.To? then set t | t in d.active && t.device != name.device else d.active,
      d.log + AnnounceCalls(w, d, text))
  }

  function PutAll(w: World, t: Target, settings: seq<(string, string)>, d: Delivery): (Delivery, bool) {
    if settings == [] then (d, true)
    else
      var (key, text) := settings[0];
      if t.Wq? && w.defaults then PutAll(w, t, settings[1..], d.(log := d.log + [PutDefault(t, key, text)]))
      else
        var next := d.(log := d.log + [Put(t, key, text)]);
        if (t, key, text) in w.rejects then (next, false) else PutAll(w, t, settings[1..], next)
  }

  /** All settings of one object go to the target it names. */
  function DeliverOne(w: World, l: Listed, d: Delivery): (Delivery, bool) {
    var next := Announce(w, d, l.name);
    match OwnerOf(w, d, l.name)
    case To(t) => PutAll(w, t, l.settings, next)
    case Nobody => (next, l.settings == [])
    case Ignored => (next, true)
    case Failed => (next, false)
  }

  function Deliver(w: World, objects: seq<Listed>, d: Delivery): (Delivery, bool) {
    if objects == [] then (d, true)
    else
      var (next, ok) := DeliverOne(w, objects[0], d);
      if ok then Deliver(w, objects[1..], next) else (next, false)
  }

  /** The cursor selects the owner and nothing else. */
  predicate Selects(st: State, o: Owner) {
    match o
    case Ignored => st.parent == Nothing
    case Failed => false
    case _ =>
      && st.parent.Just?
      && st.dev == (if o.To? && o.target.Device? then Just(o.target.device) else Nothing)
      && st.group == (if o.To? && o.target.Group? then Just(o.target) else Nothing)
      && st.wq == (if o.To? && o.target.Wq? then Just(o.target) else Nothing)
      && st.engine == (if o.To? && o.target.Engine? then Just(o.target) else Nothing)
  }

  lemma EnterSelects(w: World, st: State, text: string)
    ensures var (next, ok) := Enter(w, st, text);
      && Project(next) == Announce(w, Project(st), text)
      && (ok <==> !OwnerOf(w, Project(st), text).Failed?)
      && (ok ==> Selects(next, OwnerOf(w, Project(st), text)))
  {
    assert st.log + [] == st.log;
    if w.NameOf(text).DeviceName? {
      var t := Device(w.NameOf(text).device);
      assert st.log + [Disable(t)] + Activation(w, t) == st.log + ([Disable(t)] + Activation(w, t));
    }
  }

  lemma {:induction false} RunSettings(w: World, settings: seq<(string, string)>, st: State, o: Owner)
    requires Selects(st, o) && forall s | s in settings :: s.0 != "dev"
    ensures var (end, ok) := Run(w, settings, st);
      (Project(end), ok) ==
      if o.To? then PutAll(w, o.target, settings, Project(st))
      else (Project(st), o.Ignored? || settings == [])
  {
    hide Enter;
    if settings != [] {
      assert settings[0] in settings;
      var (next, ok) := Configure(w, st, Just(settings[0].0), settings[0].1);
      if ok {
        assert Selects(next, o);
        RunSettings(w, settings[1..], next, o);
      }
    }
  }

  lemma {:induction false} RunDelivers(w: World, objects: seq<Listed>, st: State)
    requires Attributes(objects)
    ensures var (end, ok) := Run(w, Flatten(objects), st);
      (Project(end), ok) == Deliver(w, objects, Project(st))
  {
    hide Enter, Announce, OwnerOf, Selects, PutAll;
    if objects != [] {
      var l := objects[0];
      var items := [("dev", l.name)] + l.settings;
      assert l in objects && items[1..] == l.settings;
      EnterSelects(w, st, l.name);
      var (entered, ok) := Enter(w, st, l.name);
      if ok {
        RunSettings(w, l.settings, entered, OwnerOf(w, Project(st), l.name));
      }
      RunAppend(w, items, Flatten(objects[1..]), st);
      RunDelivers(w, objects[1..], Run(w, items, st).0);
    }
  }

  /** Before any device the values have no effect. */
  lemma {:induction false} RunLead(w: World, lead: seq<(string, string)>, st: State)
    requires st.parent == Nothing && forall s | s in lead :: s.0 != "dev"
    ensures Run(w, lead, st) == (st, true)
  {
    if lead != [] {
      assert lead[0] in lead;
      RunLead(w, lead[1..], st);
    }
  }

  /** The state of a loader that has not met a device, or a document that starts with a name. */
  predicate Fresh(doc: Doc, st: State) {
    st.parent == Nothing || Lead(Stream(doc)) == []
  }

  /** On every regular document, in any key order, each value is delivered to the target that the nearest name
      before it selects, although the walk drives one cursor through all objects. */
  lemma LoaderDelivers(w: World, doc: Doc, st: State)
    requires doc.Arr? && Regular(doc) && Fresh(doc, st)
    ensures var (end, ok) := ParseArray(w, doc, Nothing, st);
      (Project(end), ok) == Deliver(w, Segments(Stream(doc)), Project(st))
  {
    hide Run, Deliver, Segments, Lead;
    var items := Stream(doc);
    ElementsAreRun(w, doc.elements, st);
    SegmentsCover(items);
    var lead, flat := Lead(items), Flatten(Segments(items));
    RunAppend(w, lead, flat, st);
    if lead == [] {
      assert lead + flat == flat;
    } else {
      RunLead(w, lead, st);
    }
    RunDelivers(w, Segments(items), st);
  }

  // ---------- When a load succeeds, and what it has done ----------

  predicate Accepted(w: World, t: Target, s: (string, string)) {
    (t.Wq? && w.defaults) || (t, s.0, s.1) !in w.rejects
  }

  function Setting(w: World, t: Target, s: (string, string)): Event {
    if t.Wq? && w.defaults then PutDefault(t, s.0, s.1) else Put(t, s.0, s.1)
  }

  /** A delivery succeeds exactly when no setting is rejected, and then every setting has been made once, in
      the order of the object. */
  lemma {:induction false} EverySettingOnce(w: World, t: Target, settings: seq<(string, string)>, d: Delivery)
    ensures var (end, ok) := PutAll(w, t, settings, d);
      && (ok <==> forall s | s in settings :: Accepted(w, t, s))
      && (ok ==> end.log == d.log + seq(|settings|, i requires 0 <= i < |settings| => Setting(w, t, settings[i])))
      && (ok ==> end == d.(log := end.log))
  {
    if settings == [] {
      assert d.log == d.log + [];
    } else {
      var first := Setting(w, t, settings[0]);
      EverySettingOnce(w, t, settings[1..], d.(log := d.log + [first]));
      var rest := settings[1..];
      assert settings[0] in settings;
      assert forall s :: s in settings <==> s == settings[0] || s in rest;
      assert seq(|settings|, i requires 0 <= i < |settings| => Setting(w, t, settings[i]))
        == [first] + seq(|rest|, i requires 0 <= i < |rest| => Setting(w, t, rest[i]));
    }
  }

  /** The calls that the settings of one segment make. */
  function SettingCalls(w: World, o: Owner, settings: seq<(string, string)>): seq<Event> {
    if o.To? then seq(|settings|, i requires 0 <= i < |settings| => Setting(w, o.target, settings[i])) else []
  }

  /** A segment is taken: its owner can be selected, and takes every setting if there are any. */
  predicate Taken(w: World, o: Owner, settings: seq<(string, string)>) {
    match o
    case To(t) => forall s | s in settings :: Accepted(w, t, s)
    case Nobody => settings == []
    case Ignored => true
    case Failed => false
  }

  function Advance(w: World, l: Listed, d: Delivery): Delivery {
    var next := Announce(w, d, l.name);
    next.(log := next.log + SettingCalls(w, OwnerOf(w, d, l.name), l.settings))
  }

  /** Where a load stands after taking all of these segments. */
  function After(w: World, objects: seq<Listed>, d: Delivery): Delivery {
    if objects == [] then d else After(w, objects[1..], Advance(w, objects[0], d))
  }

  /** The owner of segment i when all before it have been taken. */
  function OwnerAt(w: World, objects: seq<Listed>, d: Delivery, i: nat): Owner
    requires i < |objects|
  {
    OwnerOf(w, After(w, objects[..i], d), objects[i].name)
  }

  /** The calls of all segments, one after the other. */
  function AllCalls(w: World, objects: seq<Listed>, d: Delivery): seq<Event> {
    if objects == [] then []
    else
      AnnounceCalls(w, d, objects[0].name)
      + SettingCalls(w, OwnerOf(w, d, objects[0].name), objects[0].settings)
      + AllCalls(w, objects[1..], Advance(w, objects[0], d))
  }

  lemma DeliverOneTakes(w: World, l: Listed, d: Delivery)
    ensures var (next, ok) := DeliverOne(w, l, d);
      && (ok <==> Taken(w, OwnerOf(w, d, l.name), l.settings))
      && (ok ==> next == Advance(w, l, d))
  {
    hide OwnerOf, Announce, PutAll;
    var o, next := OwnerOf(w, d, l.name), Announce(w, d, l.name);
    assert next.log + [] == next.log;
    if o.To? {
      EverySettingOnce(w, o.target, l.settings, next);
    }
  }

  lemma {:induction false} DeliverTakes(w: World, objects: seq<Listed>, d: Delivery)
    ensures var (end, ok) := Deliver(w, objects, d);
      && (ok <==> forall i | 0 <= i < |objects| :: Taken(w, OwnerAt(w, objects, d, i), objects[i].settings))
      && (ok ==> end == After(w, objects, d))
  {
    hide OwnerOf, Advance, Taken, DeliverOne;
    if objects != [] {
      var l, rest := objects[0], objects[1..];
      var next := Advance(w, l, d);
      DeliverOneTakes(w, l, d);
      DeliverTakes(w, rest, next);
      assert OwnerAt(w, objects, d, 0) == OwnerOf(w, d, l.name);
      forall i | 1 <= i < |objects|
        ensures OwnerAt(w, objects, d, i) == OwnerAt(w, rest, next, i - 1) && objects[i] == rest[i - 1]
      {
        assert objects[..i][1..] == rest[..i - 1];
      }
      if forall i | 0 <= i < |objects| :: Taken(w, OwnerAt(w, objects, d, i), objects[i].settings) {
        forall i | 0 <= i < |rest| ensures Taken(w, OwnerAt(w, rest, next, i), rest[i].settings) {
          assert Taken(w, OwnerAt(w, objects, d, i + 1), objects[i + 1].settings);
        }
      }
    }
  }

  lemma {:induction false} AfterLog(w: World, objects: seq<Listed>, d: Delivery)
    ensures After(w, objects, d).log == d.log + AllCalls(w, objects, d)
  {
    hide OwnerOf, AnnounceCalls, SettingCalls;
    if objects == [] {
      assert d.log + [] == d.log;
    } else {
      AfterLog(w, objects[1..], Advance(w, objects[0], d));
      var first := AnnounceCalls(w, d, objects[0].name);
      var second := SettingCalls(w, OwnerOf(w, d, objects[0].name), objects[0].settings);
      var third := AllCalls(w, objects[1..], Advance(w, objects[0], d));
      assert d.log + first + second + third == d.log + (first + second + third);
    }
  }

  /** A load succeeds exactly when every owner can be selected, no segment without an owner has settings, and every
      setting is accepted; its calls are then those of the segments, one after the other. */
  lemma LoadSucceeds(w: World, doc: Doc, st: State)
    requires doc.Arr? && Regular(doc) && Fresh(doc, st)
    ensures var objects := Segments(Stream(doc));
      var (end, ok) := ParseArray(w, doc, Nothing, st);
      && (ok <==> forall i | 0 <= i < |objects| ::
          Taken(w, OwnerAt(w, objects, Project(st), i), objects[i].settings))
      && (ok ==> end.log == st.log + AllCalls(w, objects, Project(st)))
  {
    hide ParseArray, Deliver, After, AllCalls, Taken, OwnerAt, Segments, Stream, Regular, Fresh;
    LoaderDelivers(w, doc, st);
    DeliverTakes(w, Segments(Stream(doc)), Project(st));
    AfterLog(w, Segments(Stream(doc)), Project(st));
  }

  // ---------- Active devices and queues ----------

  /** The name of a device, good or not. */
  predicate NamesDevice(w: World, item: (string, string)) {
    item.0 == "dev" && (w.NameOf(item.1).DeviceName? || w.NameOf(item.1).BadDevice?)
  }

  lemma {:induction false} RunIdle(w: World, items: seq<(string, string)>, st: State)
    requires st.parent == Nothing && forall i | i in items :: !NamesDevice(w, i)
    ensures var (end, ok) := Run(w, items, st); ok && Project(end) == Project(st)
  {
    if items != [] {
      assert items[0] in items;
      RunIdle(w, items[1..], Configure(w, st, Just(items[0].0), items[0].1).0);
    }
  }

  /** Without the force flag the whole subtree of an active device is skipped, whatever the order of its
      keys: no call is made and nothing fails. */
  lemma ActiveDeviceSkipped(w: World, entries: seq<Entry>, name: string, st: State)
    requires RegularEntries(entries) && entries != [] && entries[0] == Entry("dev", Scalar(name))
    requires w.NameOf(name).DeviceName? && !w.forced
    requires Device(w.NameOf(name).device) in w.present && Device(w.NameOf(name).device) in st.active
    requires forall i | i in EntriesStream(entries[1..]) :: !NamesDevice(w, i)
    ensures var (end, ok) := Parse(w, entries, Obj(entries), st);
      ok && Project(end) == Project(st).(parent := Nothing)
  {
    assert [] + entries == entries;
    ParseIsRun(w, [], entries, st);
    var items := EntriesStream(entries);
    assert items[0] == ("dev", name) && items[1..] == EntriesStream(entries[1..]);
    hide EntriesStream;
    RunIdle(w, items[1..], Enter(w, st, name).0);
  }

  /** Queues are active only under active devices. */
  predicate Coherent(active: set<Target>) {
    forall t | t in active && t.Wq? :: Device(t.device) in active
  }

  /** The device that parts belong to is not active. */
  predicate Quiet(d: Delivery) {
    Coherent(d.active) && (d.parent.Just? ==> Device(d.parent.value) !in d.active)
  }

  lemma {:induction false} StaysQuiet(w: World, objects: seq<Listed>, d: Delivery)
    requires Quiet(d)
    ensures Quiet(After(w, objects, d))
  {
    if objects != [] {
      StaysQuiet(w, objects[1..], Advance(w, objects[0], d));
    }
  }

  /** A queue that is active under the current device is announced as skipped, but with one setting the load fails.
      From a state in which queues are active only under active devices this never happens: the device was skipped
      with them, or they were disabled with it. */
  lemma ActiveQueueStopsLoad(w: World, doc: Doc, st: State, i: nat)
    requires doc.Arr? && Regular(doc) && Fresh(doc, st) && i < |Segments(Stream(doc))|
    ensures var objects := Segments(Stream(doc));
      var d, name := After(w, objects[..i], Project(st)), w.NameOf(objects[i].name);
      name.WqName? && d.parent.Just? && Wq(d.parent.value, name.id) in w.present
        && Wq(d.parent.value, name.id) in d.active ==>
      && (objects[i].settings != [] ==> !ParseArray(w, doc, Nothing, st).1)
      && !Quiet(Project(st))
  {
    hide ParseArray, Deliver, AllCalls, Segments, Stream, Regular, Fresh, After, Quiet;
    LoadSucceeds(w, doc, st);
    var objects := Segments(Stream(doc));
    var d, name := After(w, objects[..i], Project(st)), w.NameOf(objects[i].name);
    if name.WqName? && d.parent.Just? && Wq(d.parent.value, name.id) in w.present
        && Wq(d.parent.value, name.id) in d.active {
      assert OwnerAt(w, objects, Project(st), i) == Nobody;
      if Quiet(Project(st)) {
        StaysQuiet(w, objects[..i], Project(st));
        NotQuiet(d, name.id);
      }
    }
  }

  const ONE_QUEUE := World(
    map["dsa0" := DeviceName(0), "wq0.0" := WqName(0)], {Device(0), Wq(0, 0)}, {}, {}, false, false, false)
  const DEVICE := Obj([Entry("dev", Scalar("dsa0"))])
  const QUEUE := Obj([Entry("dev", Scalar("wq0.0")), Entry("mode", Scalar("shared"))])
  const QUEUE_ITEMS := [("dev", "dsa0"), ("dev", "wq0.0"), ("mode", "shared")]

  lemma QueueStream()
    ensures RegularElements([DEVICE, QUEUE]) && ElementsStream([DEVICE, QUEUE]) == QUEUE_ITEMS
  {
    OneEntryMore(Entry("dev", Scalar("dsa0")), []);
    OneEntryMore(Entry("mode", Scalar("shared")), []);
    OneEntryMore(Entry("dev", Scalar("wq0.0")), [Entry("mode", Scalar("shared"))]);
    OneElementMore(QUEUE, []);
    OneElementMore(DEVICE, [QUEUE]);
    assert [("dev", "dsa0")] + ([("dev", "wq0.0")] + [("mode", "shared")]) == QUEUE_ITEMS;
  }

  /** For instance a setting for a queue fails the load when the queue is active under an inactive device. */
  lemma ActiveQueueFails()
    ensures ParseArray(ONE_QUEUE, Arr([DEVICE, QUEUE]), Nothing, START).1
    ensures !ParseArray(ONE_QUEUE, Arr([DEVICE, QUEUE]), Nothing, START.(active := {Wq(0, 0)})).1
  {
    QueueStream();
    ElementsAreRun(ONE_QUEUE, [DEVICE, QUEUE], START);
    ElementsAreRun(ONE_QUEUE, [DEVICE, QUEUE], START.(active := {Wq(0, 0)}));
    ThreeItems(ONE_QUEUE, QUEUE_ITEMS[0], QUEUE_ITEMS[1], QUEUE_ITEMS[2], START);
    ThreeItems(ONE_QUEUE, QUEUE_ITEMS[0], QUEUE_ITEMS[1], QUEUE_ITEMS[2], START.(active := {Wq(0, 0)}));
    hide Stream, EntriesStream, ElementsStream, RegularElements, Run;
  }

  lemma NotQuiet(d: Delivery, id: nat)
    requires d.parent.Just? && Wq(d.parent.value, id) in d.active
    ensures !Quiet(d)
  {}
}
