/** The order of the keys in a configuration document: which object a value belongs to, and which name is
    nearest before it when the loader of accfg/config.c comes to it. */
module KeyOrder {
  import opened Optional
  import opened Loader
  import opened Delivery

  // ---------- Documents as a list of objects ----------

  /** Every object starts with "dev" and lists its scalars before its arrays. */
  predicate Ordered(doc: Doc) {
    match doc
    case Obj(entries) =>
      entries != [] && entries[0].key == "dev" && entries[0].value.Scalar? && OrderedRest(entries[1..], true)
    case Arr(elements) => OrderedElements(elements)
    case _ => true
  }

  predicate OrderedElements(elements: seq<Doc>) {
    elements == [] || (Ordered(elements[0]) && OrderedElements(elements[1..]))
  }

  predicate OrderedRest(entries: seq<Entry>, scalars: bool) {
    entries == [] || (
      && entries[0].key != "dev" && !entries[0].value.Obj?
      && (entries[0].value.Scalar? ==> scalars)
      && Ordered(entries[0].value)
      && OrderedRest(entries[1..], scalars && !entries[0].value.Arr?))
  }

  function Settings(entries: seq<Entry>): seq<(string, string)> {
    if entries == [] then []
    else
      (if entries[0].value.Scalar? then [(entries[0].key, entries[0].value.text)] else []) + Settings(entries[1..])
  }

  /** The objects of the document, outer ones first. */
  function Objects(doc: Doc): seq<Listed> {
    match doc
    case Obj(entries) =>
      if entries == [] || !entries[0].value.Scalar? then []
      else [Listed(entries[0].value.text, Settings(entries[1..]))] + InnerObjects(entries[1..])
    case Arr(elements) => ElementObjects(elements)
    case _ => []
  }

  function ElementObjects(elements: seq<Doc>): seq<Listed> {
    if elements == [] then [] else Objects(elements[0]) + ElementObjects(elements[1..])
  }

  function InnerObjects(entries: seq<Entry>): seq<Listed> {
    if entries == [] then [] else Objects(entries[0].value) + InnerObjects(entries[1..])
  }

  /** In an ordered document the settings of an object follow its name directly. */
  lemma {:induction false} StreamIsFlat(doc: Doc)
    requires Ordered(doc)
    ensures doc.Scalar? || Stream(doc) == Flatten(Objects(doc))
    ensures Attributes(Objects(doc))
    decreases doc, 0
  {
    match doc
    case Obj(entries) =>
      var own := Listed(entries[0].value.text, Settings(entries[1..]));
      RestIsFlat(entries[1..], true);
      assert Flatten([own] + InnerObjects(entries[1..]))
        == [("dev", own.name)] + own.settings + Flatten(InnerObjects(entries[1..]));
      assert [("dev", own.name)] + EntriesStream(entries[1..]) == Stream(doc);
    case Arr(elements) => ElementsAreFlat(elements);
    case _ =>
  }

  lemma {:induction false} ElementsAreFlat(elements: seq<Doc>)
    requires OrderedElements(elements)
    ensures ElementsStream(elements) == Flatten(ElementObjects(elements))
    ensures Attributes(ElementObjects(elements))
  {
    if elements != [] {
      StreamIsFlat(elements[0]);
      ElementsAreFlat(elements[1..]);
      FlattenAppend(Objects(elements[0]), ElementObjects(elements[1..]));
    }
  }

  lemma EntryFirst(e: Entry, rest: seq<Entry>)
    requires !e.value.Obj?
    ensures var own := if e.value.Scalar? then [(e.key, e.value.text)] else [];
      && Settings([e] + rest) == own + Settings(rest)
      && InnerObjects([e] + rest) == (if e.value.Arr? then Objects(e.value) else []) + InnerObjects(rest)
      && EntriesStream([e] + rest) == (if e.value.Arr? then Stream(e.value) else own) + EntriesStream(rest)
  {
    assert ([e] + rest)[1..] == rest;
  }

  /** One entry's values and objects, put before those of the rest. */
  lemma EntryIsFlat(e: Entry, rest: seq<Entry>)
    requires e.value.Scalar? || Stream(e.value) == Flatten(Objects(e.value))
    requires e.value.Arr? ==> Settings(rest) == []
    requires !e.value.Obj?
    requires EntriesStream(rest) == Settings(rest) + Flatten(InnerObjects(rest))
    ensures EntriesStream([e] + rest) == Settings([e] + rest) + Flatten(InnerObjects([e] + rest))
  {
    hide Flatten, Objects, Stream, EntriesStream, Settings, InnerObjects;
    EntryFirst(e, rest);
    var scalars, inner := Settings(rest), Flatten(InnerObjects(rest));
    if e.value.Arr? {
      FlattenAppend(Objects(e.value), InnerObjects(rest));
      NothingBefore(Stream(e.value) + inner);
      NothingBefore(inner);
      NothingBefore(scalars);
    } else {
      NothingBefore(InnerObjects(rest));
      Regroup(if e.value.Scalar? then [(e.key, e.value.text)] else [], scalars, inner);
    }
  }

  lemma NothingBefore<T>(items: seq<T>)
    ensures [] + items == items
  {}

  lemma Regroup(a: seq<(string, string)>, b: seq<(string, string)>, c: seq<(string, string)>)
    ensures a + (b + c) == a + b + c
  {}

  lemma {:induction false} RestIsFlat(entries: seq<Entry>, scalars: bool)
    requires OrderedRest(entries, scalars)
    ensures EntriesStream(entries) == Settings(entries) + Flatten(InnerObjects(entries))
    ensures !scalars ==> Settings(entries) == []
    ensures (forall s | s in Settings(entries) :: s.0 != "dev") && Attributes(InnerObjects(entries))
    decreases entries
  {
    if entries != [] {
      var e, rest := entries[0], entries[1..];
      StreamIsFlat(e.value);
      RestIsFlat(rest, scalars && !e.value.Arr?);
      EntryIsFlat(e, rest);
      assert entries == [e] + rest;
      hide EntriesStream, Flatten, Objects, Stream, Ordered;
    }
  }

  /** On an ordered document every value is delivered to the target that its own object names. */
  lemma ObjectsDelivered(w: World, doc: Doc, st: State)
    requires doc.Arr? && Regular(doc) && Ordered(doc)
    ensures var (end, ok) := ParseArray(w, doc, Nothing, st);
      (Project(end), ok) == Deliver(w, Objects(doc), Project(st))
  {
    StreamIsFlat(doc);
    SegmentsOfFlat(Objects(doc));
    hide Deliver, ParseArray, Segments, Objects, Stream, Ordered;
    FlatHasNoLead(Objects(doc));
    LoaderDelivers(w, doc, st);
  }

  lemma FlatHasNoLead(objects: seq<Listed>)
    ensures Lead(Flatten(objects)) == []
  {}

  // ---------- Own and nearest names ----------

  /** Every object starts with "dev". */
  predicate Headed(doc: Doc) {
    match doc
    case Obj(entries) =>
      entries != [] && entries[0].key == "dev" && entries[0].value.Scalar? && HeadedRest(entries[1..])
    case Arr(elements) => HeadedElements(elements)
    case _ => true
  }

  predicate HeadedElements(elements: seq<Doc>) {
    elements == [] || (Headed(elements[0]) && HeadedElements(elements[1..]))
  }

  predicate HeadedRest(entries: seq<Entry>) {
    entries == [] || (entries[0].key != "dev" && Headed(entries[0].value) && HeadedRest(entries[1..]))
  }

  /** For each value of the stream the position of its own object's name; the stream starts at `base`. */
  function Homes(doc: Doc, base: nat): seq<nat> {
    match doc
    case Obj(entries) => EntriesHomes(entries, base, base)
    case Arr(elements) => ElementsHomes(elements, base)
    case _ => []
  }

  function ElementsHomes(elements: seq<Doc>, base: nat): seq<nat> {
    if elements == [] then []
    else Homes(elements[0], base) + ElementsHomes(elements[1..], base + |Stream(elements[0])|)
  }

  function EntriesHomes(entries: seq<Entry>, home: nat, base: nat): seq<nat> {
    if entries == [] then []
    else
      var value := entries[0].value;
      if value.Scalar? then [home] + EntriesHomes(entries[1..], home, base + 1)
      else Homes(value, base) + EntriesHomes(entries[1..], home, base + |Stream(value)|)
  }

  /** For each value the position of the nearest name up to it. */
  function Nears(items: seq<(string, string)>, near: nat, base: nat): (r: seq<nat>)
    ensures |r| == |items|
  {
    if items == [] then []
    else
      var now := if items[0].0 == "dev" then base else near;
      [now] + Nears(items[1..], now, base + 1)
  }

  function LastNear(items: seq<(string, string)>, near: nat, base: nat): nat {
    if items == [] then near else LastNear(items[1..], if items[0].0 == "dev" then base else near, base + 1)
  }

  lemma {:induction false} NearsAppend(a: seq<(string, string)>, b: seq<(string, string)>, near: nat, base: nat)
    ensures Nears(a + b, near, base) == Nears(a, near, base) + Nears(b, LastNear(a, near, base), base + |a|)
    ensures LastNear(a + b, near, base) == LastNear(b, LastNear(a, near, base), base + |a|)
  {
    if a == [] {
      assert a + b == b;
    } else {
      assert (a + b)[1..] == a[1..] + b;
      NearsAppend(a[1..], b, if a[0].0 == "dev" then base else near, base + 1);
    }
  }

  lemma {:induction false} LastNearGrows(items: seq<(string, string)>, near: nat, base: nat)
    requires near <= base
    ensures near <= LastNear(items, near, base)
  {
    if items != [] {
      LastNearGrows(items[1..], if items[0].0 == "dev" then base else near, base + 1);
    }
  }

  lemma {:induction false} HomesLength(doc: Doc, base: nat)
    ensures doc.Scalar? || |Homes(doc, base)| == |Stream(doc)|
    decreases doc, 0
  {
    match doc
    case Obj(entries) => EntriesHomesLength(entries, base, base);
    case Arr(elements) => ElementsHomesLength(elements, base);
    case _ =>
  }

  lemma {:induction false} ElementsHomesLength(elements: seq<Doc>, base: nat)
    ensures forall e | e in elements && e.Scalar? :: Stream(e) == []
    ensures |ElementsHomes(elements, base)| == |ElementsStream(elements)|
  {
    if elements != [] {
      HomesLength(elements[0], base);
      ElementsHomesLength(elements[1..], base + |Stream(elements[0])|);
    }
  }

  lemma {:induction false} EntriesHomesLength(entries: seq<Entry>, home: nat, base: nat)
    ensures |EntriesHomes(entries, home, base)| == |EntriesStream(entries)|
    decreases entries
  {
    if entries != [] {
      HomesLength(entries[0].value, base);
      EntriesHomesLength(entries[1..], home, base + 1);
      EntriesHomesLength(entries[1..], home, base + |Stream(entries[0].value)|);
    }
  }

  lemma SplitEqual(a: seq<nat>, b: seq<nat>, c: seq<nat>, d: seq<nat>)
    requires |a| == |c|
    ensures a + b == c + d <==> a == c && b == d
  {
    if a + b == c + d {
      assert a == (a + b)[..|a|] == (c + d)[..|a|] == c;
      assert b == (a + b)[|a|..] == (c + d)[|a|..] == d;
    }
  }

  /** The nearest names are the own names exactly when the keys are ordered. */
  lemma {:induction false} HomeIsNearest(doc: Doc, near: nat, base: nat)
    requires Regular(doc) && Headed(doc)
    ensures Nears(Stream(doc), near, base) == Homes(doc, base) <==> Ordered(doc)
    ensures Stream(doc) != [] && Stream(doc)[0].0 == "dev"
    ensures near <= base ==> LastNear(Stream(doc), near, base) >= base
    decreases doc, 0
  {
    match doc
    case Obj(entries) =>
      var rest := entries[1..];
      RestHomeIsNearest(rest, base, base, base + 1);
      assert Stream(doc) == [("dev", entries[0].value.text)] + EntriesStream(rest);
      assert Stream(doc)[1..] == EntriesStream(rest);
      SplitEqual([base], Nears(EntriesStream(rest), base, base + 1), [base], EntriesHomes(rest, base, base + 1));
      LastNearGrows(EntriesStream(rest), base, base + 1);
    case Arr(elements) => ElementsHomeIsNearest(elements, near, base);
  }

  lemma {:induction false} ElementsHomeIsNearest(elements: seq<Doc>, near: nat, base: nat)
    requires RegularElements(elements) && HeadedElements(elements)
    ensures Nears(ElementsStream(elements), near, base) == ElementsHomes(elements, base) <==> OrderedElements(elements)
    ensures elements != [] ==> ElementsStream(elements) != [] && ElementsStream(elements)[0].0 == "dev"
    ensures elements != [] && near <= base ==> LastNear(ElementsStream(elements), near, base) >= base
    decreases elements
  {
    if elements != [] {
      var first, rest := Stream(elements[0]), elements[1..];
      assert ElementsStream(elements) == first + ElementsStream(rest);
      assert ElementsHomes(elements, base) == Homes(elements[0], base) + ElementsHomes(rest, base + |first|);
      assert OrderedElements(elements) <==> Ordered(elements[0]) && OrderedElements(rest);
      assert Regular(elements[0]) && RegularElements(rest) && Headed(elements[0]) && HeadedElements(rest);
      hide Stream, ElementsStream, Homes, ElementsHomes, Ordered, OrderedElements, Regular, RegularElements, Headed,
        HeadedElements, Nears, LastNear;
      var now := LastNear(first, near, base);
      HomeIsNearest(elements[0], near, base);
      ElementsHomeIsNearest(rest, now, base + |first|);
      NearsAppend(first, ElementsStream(rest), near, base);
      HomesLength(elements[0], base);
      SplitEqual(
        Nears(first, near, base), Nears(ElementsStream(rest), now, base + |first|),
        Homes(elements[0], base), ElementsHomes(rest, base + |first|));
      LastNearBounded(first, near, base);
      if near <= base {
        LastNearGrows(ElementsStream(rest), now, base + |first|);
      }
    }
  }

  lemma {:induction false} LastNearBounded(items: seq<(string, string)>, near: nat, base: nat)
    ensures near <= base ==> LastNear(items, near, base) <= base + |items|
  {
    if items != [] {
      LastNearBounded(items[1..], if items[0].0 == "dev" then base else near, base + 1);
    }
  }

  lemma ScalarEntry(entries: seq<Entry>, home: nat, near: nat, base: nat)
    requires entries != [] && entries[0].value.Scalar? && RegularEntries(entries) && HeadedRest(entries)
    ensures var rest := entries[1..];
      && Nears(EntriesStream(entries), near, base) == [near] + Nears(EntriesStream(rest), near, base + 1)
      && EntriesHomes(entries, home, base) == [home] + EntriesHomes(rest, home, base + 1)
      && (OrderedRest(entries, near == home) <==> near == home && OrderedRest(rest, near == home))
  {
    assert Ordered(entries[0].value);
    hide Homes, Stream, Ordered, Headed;
    var own, more := (entries[0].key, entries[0].value.text), EntriesStream(entries[1..]);
    assert EntriesStream(entries) == [own] + more && ([own] + more)[1..] == more;
  }

  lemma ArrayEntry(entries: seq<Entry>, home: nat, scalars: bool, base: nat)
    requires entries != [] && entries[0].value.Arr? && RegularEntries(entries) && HeadedRest(entries)
    ensures var value, rest := entries[0].value, entries[1..];
      && EntriesStream(entries) == Stream(value) + EntriesStream(rest)
      && EntriesHomes(entries, home, base) ==
        Homes(value, base) + EntriesHomes(rest, home, base + |Stream(value)|)
      && (OrderedRest(entries, scalars) <==> Ordered(value) && OrderedRest(rest, false))
  {
    hide Homes, Stream, Ordered, Headed;
  }

  lemma NullEntry(entries: seq<Entry>, home: nat, scalars: bool, base: nat)
    requires entries != [] && entries[0].value.Null? && HeadedRest(entries)
    ensures var rest := entries[1..];
      && EntriesStream(entries) == EntriesStream(rest)
      && EntriesHomes(entries, home, base) == EntriesHomes(rest, home, base)
      && (OrderedRest(entries, scalars) <==> OrderedRest(rest, scalars))
  {
    assert Stream(Null) == [] && Homes(Null, base) == [];
    assert [] + EntriesStream(entries[1..]) == EntriesStream(entries[1..]);
    assert [] + EntriesHomes(entries[1..], home, base) == EntriesHomes(entries[1..], home, base);
    hide Homes, Stream;
  }

  lemma RestOfRegular(entries: seq<Entry>)
    requires entries != [] && RegularEntries(entries) && HeadedRest(entries)
    ensures var value := entries[0].value;
      && RegularEntries(entries[1..]) && HeadedRest(entries[1..]) && Headed(value)
      && !value.Obj? && (value.Arr? ==> Regular(value))
  {}

  lemma {:induction false} RestHomeIsNearest(entries: seq<Entry>, home: nat, near: nat, base: nat)
    requires RegularEntries(entries) && HeadedRest(entries)
    requires home <= near < base
    ensures Nears(EntriesStream(entries), near, base) == EntriesHomes(entries, home, base)
       <==> OrderedRest(entries, near == home)
    decreases entries
  {
    if entries != [] {
      RestHomeStep(entries, home, near, base);
    }
  }

  lemma {:induction false} RestHomeStep(entries: seq<Entry>, home: nat, near: nat, base: nat)
    requires entries != [] && RegularEntries(entries) && HeadedRest(entries)
    requires home <= near < base
    ensures Nears(EntriesStream(entries), near, base) == EntriesHomes(entries, home, base)
       <==> OrderedRest(entries, near == home)
    decreases entries, 0
  {
    hide Stream, EntriesStream, Homes, EntriesHomes, Ordered, OrderedRest, Regular, RegularEntries, Headed,
      HeadedRest, Nears, LastNear;
    var value, rest := entries[0].value, entries[1..];
    RestOfRegular(entries);
    match value {
      case Null =>
        NullEntry(entries, home, near == home, base);
        RestHomeIsNearest(rest, home, near, base);
      case Scalar(_) =>
        ScalarEntry(entries, home, near, base);
        RestHomeIsNearest(rest, home, near, base + 1);
        SplitEqual([near], Nears(EntriesStream(rest), near, base + 1), [home], EntriesHomes(rest, home, base + 1));
      case Arr(_) =>
        var inner := Stream(value);
        var now := LastNear(inner, near, base);
        ArrayEntry(entries, home, near == home, base);
        HomeIsNearest(value, near, base);
        LastNearInside(inner, near, base);
        RestHomeIsNearest(rest, home, now, base + |inner|);
        NearsAppend(inner, EntriesStream(rest), near, base);
        HomesLength(value, base);
        SplitEqual(
          Nears(inner, near, base), Nears(EntriesStream(rest), now, base + |inner|),
          Homes(value, base), EntriesHomes(rest, home, base + |inner|));
    }
  }

  lemma {:induction false} LastNearInside(items: seq<(string, string)>, near: nat, base: nat)
    requires near < base
    ensures LastNear(items, near, base) < base + |items|
  {
    if items != [] {
      LastNearInside(items[1..], if items[0].0 == "dev" then base else near, base + 1);
    }
  }

  /** A scalar behind an array goes astray: the nearest name before every value is that of its own object exactly
      when no object lists a scalar behind an array. */
  lemma LateScalarGoesAstray(doc: Doc)
    requires doc.Arr? && Regular(doc) && Headed(doc)
    ensures Nears(Stream(doc), 0, 0) == Homes(doc, 0) <==> Ordered(doc)
  {
    HomeIsNearest(doc, 0, 0);
  }

  const ONE_GROUP := World(
    map["dsa0" := DeviceName(0), "group0.0" := GroupName(0)], {Device(0), Group(0, 0)}, {}, {}, false, false, false)
  const GROUP := Obj([Entry("dev", Scalar("group0.0"))])
  const TOKEN := Entry("token", Scalar("1"))
  const TOKEN_LAST := Obj([Entry("dev", Scalar("dsa0")), Entry("groups", Arr([GROUP])), TOKEN])
  const TOKEN_ITEMS := [("dev", "dsa0"), ("dev", "group0.0"), ("token", "1")]

  lemma GroupStream()
    ensures Regular(Arr([GROUP])) && Stream(Arr([GROUP])) == TOKEN_ITEMS[1..2]
  {
    OneEntryMore(Entry("dev", Scalar("group0.0")), []);
    OneElementMore(GROUP, []);
    assert [GROUP] + [] == [GROUP] && TOKEN_ITEMS[1..2] + [] == TOKEN_ITEMS[1..2];
    assert Regular(GROUP) && Stream(GROUP) == TOKEN_ITEMS[1..2];
  }

  lemma TokenStream()
    ensures RegularElements([TOKEN_LAST]) && ElementsStream([TOKEN_LAST]) == TOKEN_ITEMS
  {
    var name, groups := Entry("dev", Scalar("dsa0")), Entry("groups", Arr([GROUP]));
    GroupStream();
    OneEntryMore(TOKEN, []);
    OneEntryMore(groups, [TOKEN]);
    OneEntryMore(name, [groups, TOKEN]);
    assert EntriesStream([TOKEN]) == TOKEN_ITEMS[2..];
    assert [groups] + [TOKEN] == [groups, TOKEN] && [name] + [groups, TOKEN] == [name, groups, TOKEN];
    assert TOKEN_ITEMS[1..2] + TOKEN_ITEMS[2..] == TOKEN_ITEMS[1..];
    assert EntriesStream([groups, TOKEN]) == TOKEN_ITEMS[1..];
    assert [("dev", "dsa0")] + TOKEN_ITEMS[1..] == TOKEN_ITEMS;
    assert Regular(TOKEN_LAST) && Stream(TOKEN_LAST) == TOKEN_ITEMS;
    OneElementMore(TOKEN_LAST, []);
  }

  /** For instance a token listed behind the groups of its device is set on the group. */
  lemma TokenGoesAstray()
    ensures var (end, ok) := ParseArray(ONE_GROUP, Arr([TOKEN_LAST]), Nothing, START);
      ok && end.log == [Put(Group(0, 0), "token", "1")]
  {
    TokenStream();
    ElementsAreRun(ONE_GROUP, [TOKEN_LAST], START);
    ThreeItems(ONE_GROUP, TOKEN_ITEMS[0], TOKEN_ITEMS[1], TOKEN_ITEMS[2], START);
    hide Stream, EntriesStream, ElementsStream, RegularElements, Run;
  }

  // ---------- Where a value goes ----------

  /** The owner that the name at position j selects when the load comes to it. */
  function SelectedAt(w: World, items: seq<(string, string)>, st: State, j: nat): Owner
    requires j < |items|
  {
    OwnerOf(w, Project(Run(w, items[..j], st).0), items[j].1)
  }

  lemma RunPrefix(w: World, items: seq<(string, string)>, st: State, j: nat, i: nat)
    requires j <= i <= |items| && Run(w, items[..i], st).1
    ensures Run(w, items[..j], st).1
  {
    assert items[..i] == items[..j] + items[j..i];
    RunAppend(w, items[..j], items[j..i], st);
  }

  lemma RunOneMore(w: World, items: seq<(string, string)>, st: State, i: nat)
    requires i < |items| && Run(w, items[..i], st).1
    ensures Run(w, items[..i + 1], st) == Configure(w, Run(w, items[..i], st).0, Just(items[i].0), items[i].1)
  {
    hide Configure;
    assert items[..i + 1] == items[..i] + [items[i]];
    RunAppend(w, items[..i], [items[i]], st);
  }

  lemma NearestOneMore(items: seq<(string, string)>, i: nat)
    requires i < |items|
    ensures LastNear(items[..i + 1], 0, 0) == (if items[i].0 == "dev" then i else LastNear(items[..i], 0, 0))
    ensures Nears(items, 0, 0)[i] == LastNear(items[..i + 1], 0, 0)
  {
    assert items[..i + 1] == items[..i] + [items[i]] && items == items[..i + 1] + items[i + 1..];
    NearsAppend(items[..i], [items[i]], 0, 0);
    NearsAppend(items[..i + 1], items[i + 1..], 0, 0);
  }

  /** The cursor always selects the owner of the nearest name. */
  lemma {:induction false} CursorSelects(w: World, items: seq<(string, string)>, st: State, i: nat)
    requires 0 < i <= |items| && items[0].0 == "dev" && Run(w, items[..i], st).1
    ensures var near := LastNear(items[..i], 0, 0);
      near < i && items[near].0 == "dev" && Selects(Run(w, items[..i], st).0, SelectedAt(w, items, st, near))
  {
    hide LastNear, Nears, Enter, Assign, OwnerOf, Selects, Run;
    var k := i - 1;
    RunPrefix(w, items, st, k, i);
    RunOneMore(w, items, st, k);
    NearestOneMore(items, k);
    var before := Run(w, items[..k], st).0;
    if items[k].0 == "dev" {
      EnterSelects(w, before, items[k].1);
    } else {
      CursorSelects(w, items, st, k);
      SelectsStays(w, before, SelectedAt(w, items, st, LastNear(items[..k], 0, 0)), items[k]);
    }
  }

  lemma SelectsStays(w: World, st: State, o: Owner, item: (string, string))
    requires Selects(st, o) && item.0 != "dev"
    ensures var (next, ok) := Configure(w, st, Just(item.0), item.1);
      && Selects(next, o)
      && next.log == st.log + SettingCalls(w, o, [item])
      && (ok <==> Taken(w, o, [item]))
  {
    assert st.log + [] == st.log;
    assert item in [item] && [item] != [];
    if o.To? {
      assert Taken(w, o, [item]) <==> Accepted(w, o.target, item);
      assert SettingCalls(w, o, [item]) == [Setting(w, o.target, item)];
    }
  }

  lemma OwnersDiffer(w: World, o: Owner, o': Owner, item: (string, string))
    requires !o.Failed? && !o'.Failed?
    ensures SettingCalls(w, o, [item]) == SettingCalls(w, o', [item]) && (Taken(w, o, [item]) <==> Taken(w, o', [item]))
       <==> o == o'
  {
    var s := [item];
    assert item in s;
    if o.To? {
      assert SettingCalls(w, o, s)[0] == Setting(w, o.target, item);
    }
    if o'.To? {
      assert SettingCalls(w, o', s)[0] == Setting(w, o'.target, item);
    }
  }

  /** The name of a value's own object is before it. */
  lemma {:induction false} HomesAreNames(doc: Doc, items: seq<(string, string)>, base: nat, k: nat)
    requires Headed(doc) && !doc.Scalar? && k < |Stream(doc)|
    requires base + |Stream(doc)| <= |items| && items[base..base + |Stream(doc)|] == Stream(doc)
    ensures k < |Homes(doc, base)|
    ensures Homes(doc, base)[k] <= base + k && items[Homes(doc, base)[k]].0 == "dev"
    decreases doc, 0
  {
    HomesLength(doc, base);
    match doc
    case Obj(entries) =>
      var rest := EntriesStream(entries[1..]);
      assert Stream(doc) == [("dev", entries[0].value.text)] + rest;
      assert items[base] == Stream(doc)[0];
      if k > 0 {
        assert items[base + 1..base + 1 + |rest|] == Stream(doc)[1..] == rest;
        RestHomesAreNames(entries[1..], items, base, base + 1, k - 1);
      }
    case Arr(elements) => ElementsHomesAreNames(elements, items, base, k);
  }

  lemma {:induction false} ElementsHomesAreNames(elements: seq<Doc>, items: seq<(string, string)>, base: nat, k: nat)
    requires HeadedElements(elements) && k < |ElementsStream(elements)|
    requires base + |ElementsStream(elements)| <= |items|
    requires items[base..base + |ElementsStream(elements)|] == ElementsStream(elements)
    ensures k < |ElementsHomes(elements, base)|
    ensures ElementsHomes(elements, base)[k] <= base + k && items[ElementsHomes(elements, base)[k]].0 == "dev"
    decreases elements
  {
    ElementsHomesLength(elements, base);
    HomesLength(elements[0], base);
    var first, rest := Stream(elements[0]), ElementsStream(elements[1..]);
    assert ElementsStream(elements) == first + rest;
    PartsOf(items, base, first, rest);
    if k < |first| {
      HomesAreNames(elements[0], items, base, k);
    } else {
      ElementsHomesAreNames(elements[1..], items, base + |first|, k - |first|);
    }
  }

  lemma PartsOf(items: seq<(string, string)>, base: nat, a: seq<(string, string)>, b: seq<(string, string)>)
    requires base + |a| + |b| <= |items| && items[base..base + |a| + |b|] == a + b
    ensures items[base..base + |a|] == a && items[base + |a|..base + |a| + |b|] == b
  {
    var whole := items[base..base + |a| + |b|];
    assert items[base..base + |a|] == whole[..|a|] && items[base + |a|..base + |a| + |b|] == whole[|a|..];
  }

  lemma EntriesUnfold(entries: seq<Entry>, home: nat, base: nat)
    requires entries != []
    ensures var value, rest := entries[0].value, entries[1..];
      var first := if value.Scalar? then [(entries[0].key, value.text)] else Stream(value);
      && EntriesStream(entries) == first + EntriesStream(rest)
      && EntriesHomes(entries, home, base)
         == (if value.Scalar? then [home] else Homes(value, base)) + EntriesHomes(rest, home, base + |first|)
  {}

  lemma {:induction false} RestHomesAreNames(
      entries: seq<Entry>, items: seq<(string, string)>, home: nat, base: nat, k: nat)
    requires HeadedRest(entries) && k < |EntriesStream(entries)| && home < base
    requires base + |EntriesStream(entries)| <= |items| && items[home].0 == "dev"
    requires items[base..base + |EntriesStream(entries)|] == EntriesStream(entries)
    ensures k < |EntriesHomes(entries, home, base)|
    ensures EntriesHomes(entries, home, base)[k] <= base + k && items[EntriesHomes(entries, home, base)[k]].0 == "dev"
    decreases entries
  {
    assert entries != [];
    hide EntriesStream, EntriesHomes, Homes, Stream, Headed;
    EntriesHomesLength(entries, home, base);
    EntriesUnfold(entries, home, base);
    var e, rest := entries[0], EntriesStream(entries[1..]);
    HomesLength(e.value, base);
    var first := if e.value.Scalar? then [(e.key, e.value.text)] else Stream(e.value);
    PartsOf(items, base, first, rest);
    if k >= |first| {
      RestHomesAreNames(entries[1..], items, home, base + |first|, k - |first|);
    } else if !e.value.Scalar? {
      HomesAreNames(e.value, items, base, k);
    }
  }

  /** In a document whose objects start with "dev", in any key order, a scalar that the load comes to makes the
      call that the nearest name before it selects; that is the call of its own object exactly when the nearest
      name and its own object's name select the same owner. */
  lemma ScalarReachesHome(w: World, doc: Doc, st: State, i: nat)
    requires doc.Arr? && Regular(doc) && Headed(doc)
    requires i < |Stream(doc)| && Stream(doc)[i].0 != "dev" && Run(w, Stream(doc)[..i], st).1
    ensures |Homes(doc, 0)| == |Stream(doc)| && Homes(doc, 0)[i] < i && Nears(Stream(doc), 0, 0)[i] < i
    ensures var items := Stream(doc);
      var before, (after, ok) := Run(w, items[..i], st).0, Run(w, items[..i + 1], st);
      var near := SelectedAt(w, items, st, Nears(items, 0, 0)[i]);
      var home := SelectedAt(w, items, st, Homes(doc, 0)[i]);
      && after.log == before.log + SettingCalls(w, near, [items[i]]) && (ok <==> Taken(w, near, [items[i]]))
      && (after.log == before.log + SettingCalls(w, home, [items[i]]) && (ok <==> Taken(w, home, [items[i]]))
          <==> near == home)
  {
    hide Run, Nears, LastNear, Homes, Configure, Regular, Headed, Selects, OwnerOf, Taken, SettingCalls, Stream;
    var items := Stream(doc);
    HomeIsNearest(doc, 0, 0);
    HomesLength(doc, 0);
    assert items[0..0 + |items|] == items;
    HomesAreNames(doc, items, 0, i);
    var h := Homes(doc, 0)[i];
    NearestOneMore(items, i);
    CursorSelects(w, items, st, i);
    RunOneMore(w, items, st, i);
    var n := Nears(items, 0, 0)[i];
    var near, home := SelectedAt(w, items, st, n), SelectedAt(w, items, st, h);
    SelectsStays(w, Run(w, items[..i], st).0, near, items[i]);
    NamePassed(w, items, st, n, i);
    NamePassed(w, items, st, h, i);
    OwnersDiffer(w, near, home, items[i]);
    var log := Run(w, items[..i], st).0.log;
    SameTail(log, SettingCalls(w, near, [items[i]]), SettingCalls(w, home, [items[i]]));
  }

  /** A name that a load has passed selected an owner. */
  lemma NamePassed(w: World, items: seq<(string, string)>, st: State, j: nat, i: nat)
    requires j < i <= |items| && items[j].0 == "dev" && Run(w, items[..i], st).1
    ensures !SelectedAt(w, items, st, j).Failed?
  {
    hide Run, Enter, OwnerOf, Selects;
    RunPrefix(w, items, st, j, i);
    RunPrefix(w, items, st, j + 1, i);
    RunOneMore(w, items, st, j);
    EnterSelects(w, Run(w, items[..j], st).0, items[j].1);
  }

  lemma SameTail(log: seq<Event>, a: seq<Event>, b: seq<Event>)
    ensures log + a == log + b <==> a == b
  {
    if log + a == log + b {
      assert a == (log + a)[|log|..] == (log + b)[|log|..] == b;
    }
  }
}
