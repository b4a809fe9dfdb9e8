/** What a load does to devices that are active when it starts, accfg/config.c: with the force flag each of them that
    the document names is disabled, once and before anything is done to it, and nothing else is. */
module Forced {
  import opened Optional
  import opened Loader
  import opened Delivery

  /** A name leaves every target of other devices as active as it was.  The targets of the device it names stay
      active too, unless that device is active, present and can be disabled under the force flag; then none does. */
  lemma EnterTouches(w: World, st: State, text: string, t: Target)
    ensures var name := w.NameOf(text);
      var disabled := name.DeviceName? && w.forced && name.device !in w.stuck
        && Device(name.device) in st.active && Device(name.device) in w.present;
      t in Enter(w, st, text).0.active <==> t in st.active && !(disabled && t.device == name.device)
  {}

  lemma AnnounceTouches(w: World, d: Delivery, text: string, t: Target)
    ensures var name := w.NameOf(text);
      var disabled := name.DeviceName? && w.forced && name.device !in w.stuck
        && Device(name.device) in d.active && Device(name.device) in w.present;
      t in Announce(w, d, text).active <==> t in d.active && !(disabled && t.device == name.device)
  {}

  /** The document names the device. */
  predicate Named(w: World, objects: seq<Listed>, device: nat) {
    exists l | l in objects :: w.NameOf(l.name) == DeviceName(device)
  }

  predicate AllTaken(w: World, objects: seq<Listed>, d: Delivery) {
    objects == []
    || (Taken(w, OwnerOf(w, d, objects[0].name), objects[0].settings)
        && AllTaken(w, objects[1..], Advance(w, objects[0], d)))
  }

  lemma {:induction false} TakenOneByOne(w: World, objects: seq<Listed>, d: Delivery)
    ensures AllTaken(w, objects, d) <==> Deliver(w, objects, d).1
  {
    hide OwnerOf, Advance, Taken, DeliverOne;
    if objects != [] {
      DeliverOneTakes(w, objects[0], d);
      TakenOneByOne(w, objects[1..], Advance(w, objects[0], d));
    }
  }

  /** The calls for one object. */
  function Calls(w: World, l: Listed, d: Delivery): seq<Event> {
    AnnounceCalls(w, d, l.name) + SettingCalls(w, OwnerOf(w, d, l.name), l.settings)
  }

  /** One object: its device is disabled first if it is active, and nothing else is. */
  lemma CallsOfOne(w: World, l: Listed, d: Delivery, device: nat)
    requires Taken(w, OwnerOf(w, d, l.name), l.settings)
    ensures var calls := Calls(w, l, d);
      var now := w.NameOf(l.name) == DeviceName(device) && w.forced && Device(device) in d.active;
      && (now ==> calls != [] && calls[0] == Disable(Device(device)))
      && (forall j | 0 <= j < |calls| && calls[j] == Disable(Device(device)) :: j == 0 && now)
      && (forall j | 0 <= j < |calls| && calls[j].Disable? :: calls[j].target.Device?)
      && (Device(device) in Advance(w, l, d).active <==> Device(device) in d.active && !now)
  {
    AnnounceTouches(w, d, l.name, Device(device));
  }

  lemma CountFirst(calls: seq<Event>, e: Event, now: bool)
    requires now ==> calls != [] && calls[0] == e
    requires forall j | 0 <= j < |calls| && calls[j] == e :: j == 0 && now
    ensures multiset(calls)[e] == if now then 1 else 0
  {
    if now {
      assert calls == [calls[0]] + calls[1..];
      assert e !in calls[1..];
    } else {
      assert e !in calls;
    }
  }

  /** In a load that succeeds, a device is disabled once if it is active at the start, named by the document and
      the force flag is given, and otherwise never. */
  lemma {:induction false} DisabledOnce(w: World, objects: seq<Listed>, d: Delivery, device: nat)
    requires AllTaken(w, objects, d)
    ensures var calls := AllCalls(w, objects, d);
      && multiset(calls)[Disable(Device(device))]
         == (if w.forced && Device(device) in d.active && Named(w, objects, device) then 1 else 0)
      && forall e | e in calls && e.Disable? :: e.target.Device?
  {
    if objects != [] {
      var l, rest := objects[0], objects[1..];
      CallsOfOne(w, l, d, device);
      CountFirst(Calls(w, l, d), Disable(Device(device)),
        w.NameOf(l.name) == DeviceName(device) && w.forced && Device(device) in d.active);
      DisabledOnce(w, rest, Advance(w, l, d), device);
      assert Named(w, objects, device) <==> w.NameOf(l.name) == DeviceName(device) || Named(w, rest, device) by {
        assert forall x :: x in objects <==> x == l || x in rest;
      }
      hide Named, Advance, OwnerOf, Taken;
      assert AllCalls(w, objects, d) == Calls(w, l, d) + AllCalls(w, rest, Advance(w, l, d));
    }
  }

  /** The device that parts belong to is not active. */
  predicate ParentQuiet(d: Delivery) {
    d.parent.Just? ==> Device(d.parent.value) !in d.active
  }

  lemma FirstThingDone(w: World, l: Listed, d: Delivery, device: nat, j: nat)
    requires Taken(w, OwnerOf(w, d, l.name), l.settings) && ParentQuiet(d)
    ensures ParentQuiet(Advance(w, l, d))
    ensures j < |Calls(w, l, d)| && Calls(w, l, d)[j].target.device == device && Device(device) in d.active
      ==> Calls(w, l, d)[0] == Disable(Device(device))
  {
    AnnounceTouches(w, d, l.name, Device(device));
  }

  /** In a load that succeeds nothing is done to a device that is active at the start, or to a part of it, before it
      is disabled. */
  lemma {:induction false} DisabledFirst(w: World, objects: seq<Listed>, d: Delivery, device: nat, j: nat)
    requires AllTaken(w, objects, d) && ParentQuiet(d) && Device(device) in d.active
    requires j < |AllCalls(w, objects, d)| && AllCalls(w, objects, d)[j].target.device == device
    ensures exists k :: 0 <= k <= j && AllCalls(w, objects, d)[k] == Disable(Device(device))
  {
    assert objects != [];
    TakenParts(w, objects, d);
    hide Advance, OwnerOf, Taken, Calls, ParentQuiet, AllCalls, AllTaken;
    var l, rest := objects[0], objects[1..];
    var first, next := Calls(w, l, d), Advance(w, l, d);
    CallsOfOne(w, l, d, device);
    FirstThingDone(w, l, d, device, j);
    CallsUnfold(w, objects, d);
    var later := AllCalls(w, rest, next);
    assert j < |first| ==> (first + later)[j] == first[j];
    if j < |first| || Device(device) !in next.active {
      assert (first + later)[0] == first[0] == Disable(Device(device));
    } else {
      assert (first + later)[j] == later[j - |first|];
      DisabledFirst(w, rest, next, device, j - |first|);
      var k :| 0 <= k <= j - |first| && later[k] == Disable(Device(device));
      assert (first + later)[|first| + k] == later[k];
    }
  }

  lemma TakenParts(w: World, objects: seq<Listed>, d: Delivery)
    requires AllTaken(w, objects, d) && objects != []
    ensures Taken(w, OwnerOf(w, d, objects[0].name), objects[0].settings)
    ensures AllTaken(w, objects[1..], Advance(w, objects[0], d))
  {}

  lemma CallsUnfold(w: World, objects: seq<Listed>, d: Delivery)
    requires objects != []
    ensures AllCalls(w, objects, d)
         == Calls(w, objects[0], d) + AllCalls(w, objects[1..], Advance(w, objects[0], d))
  {}

  /** A successful load of a document, by a loader that has met no device: every device is disabled once if the force
      flag is given and the document names it while it is active, and otherwise never; and before that no call
      concerns it or its parts. */
  lemma LoadDisables(w: World, doc: Doc, st: State, device: nat)
    requires doc.Arr? && Regular(doc) && st.parent == Nothing && ParseArray(w, doc, Nothing, st).1
    ensures |ParseArray(w, doc, Nothing, st).0.log| >= |st.log|
    ensures var calls := ParseArray(w, doc, Nothing, st).0.log[|st.log|..];
      && multiset(calls)[Disable(Device(device))]
         == (if w.forced && Device(device) in st.active && Named(w, Segments(Stream(doc)), device) then 1 else 0)
      && (forall e | e in calls && e.Disable? :: e.target.Device?)
      && (Device(device) in st.active ==> forall j | 0 <= j < |calls| && calls[j].target.device == device ::
           exists k :: 0 <= k <= j && calls[k] == Disable(Device(device)))
  {
    hide ParseArray, Deliver, After, AllCalls, Taken, OwnerAt, Segments, Stream, Regular, AllTaken, Named;
    var objects, d := Segments(Stream(doc)), Project(st);
    LoadSucceeds(w, doc, st);
    LoaderDelivers(w, doc, st);
    TakenOneByOne(w, objects, d);
    var calls := AllCalls(w, objects, d);
    assert (st.log + calls)[|st.log|..] == calls;
    DisabledOnce(w, objects, d, device);
    if Device(device) in st.active {
      forall j | 0 <= j < |calls| && calls[j].target.device == device
        ensures exists k :: 0 <= k <= j && calls[k] == Disable(Device(device))
      {
        DisabledFirst(w, objects, d, device, j);
      }
    }
  }
}
