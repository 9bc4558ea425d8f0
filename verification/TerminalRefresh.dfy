/** What accepting a payload keeps of a terminal state, and what accepting it again changes. */
module TerminalRefresh {
  import opened Wrappers
  import opened Json
  import opened TerminalRows
  import opened TerminalIr
  import opened TerminalState
  import opened TerminalRuns

  predicate IsToggle(c: Control) {
    c.kind == "filter-toggle" || c.kind == "sort-toggle"
  }

  predicate IsChoice(c: Control) {
    c.kind == "domain-tabs" || c.kind == "mode-toggle"
  }

  /** A toggle may stay on: the payload makes it available, or a server already pages by it. */
  predicate MayStayOn(lib: Library, ir: Ir, payload: Json, collections: map<string, CollectionState>, c: Control) {
    Available(lib, Some(payload), c) || c.id in ServerControls(Descriptors(ir), collections)
  }

  /**
   A choice survives a refresh when it is still offered, else it falls back to
   the wanted one, else to the first; a toggle survives unless it is on and may
   not stay on; everything else survives.
   */
  lemma RefreshKeepsWhatItCan(lib: Library, ir: Ir, s: State, payload: Json, i: nat)
    requires UniqueControls(ir.controls) && ControlsFit(lib, ir, s.payload, s.controls) && i < |ir.controls|
    ensures var c := ir.controls[i];
            var controls := Refresh(lib, ir, s, payload).controls;
            && c.id in controls
            && var (was, now) := (s.controls[c.id], controls[c.id]);
               if IsChoice(c) then
                 var offer, wanted := Offer(lib, ir, Some(payload), c), Wanted(lib, Some(payload), c);
                 now == Chosen(if was.text in offer then was.text
                               else if wanted.Some? && wanted.value in offer then wanted.value
                               else First(offer))
               else if IsToggle(c) then
                 now == Flag(was.on && MayStayOn(lib, ir, payload, s.collections, c))
               else now == was
  {
    hide Offer, Wanted, Available, ServerControls, Descriptors, UniqueControls, Overlay, Keyed;
    var f := RefreshValues(lib, ir, payload, s);
    var c := ir.controls[i];
    OverlayAt(s.controls, ir.controls, |ir.controls|, f);
    assert Fits(lib, ir, s.payload, c, s.controls[c.id]);
    var controls := Refresh(lib, ir, s, payload).controls;
    assert Lookup(controls, c.id) == if f(c).Some? then f(c) else Lookup(s.controls, c.id);
  }

  /** A second refresh leaves a control alone exactly when it is no toggle that is on and may not stay on. */
  lemma SecondRefreshOfControl(lib: Library, ir: Ir, s: State, payload: Json, i: nat)
    requires UniqueControls(ir.controls) && ControlsFit(lib, ir, s.payload, s.controls) && i < |ir.controls|
    ensures var c, one := ir.controls[i], Refresh(lib, ir, s, payload);
            var two := Refresh(lib, ir, one, payload);
            && c.id in one.controls && c.id in two.controls
            && (two.controls[c.id] == one.controls[c.id]
                <==> (IsToggle(c) && one.controls[c.id] == Flag(true)
                    ==> MayStayOn(lib, ir, payload, one.collections, c)))
  {
    hide Offer, Wanted, MayStayOn, UniqueControls, ControlsFit, Refresh;
    var one := Refresh(lib, ir, s, payload);
    RefreshKeepsControls(lib, ir, s, payload);
    assert one.payload == Some(payload) by { RefreshSetsPayload(lib, ir, s, payload); }
    RefreshKeepsWhatItCan(lib, ir, s, payload, i);
    RefreshKeepsWhatItCan(lib, ir, one, payload, i);
    FitsAt(lib, ir, Some(payload), one.controls, i);
  }

  lemma RefreshSetsPayload(lib: Library, ir: Ir, s: State, payload: Json)
    ensures Refresh(lib, ir, s, payload).payload == Some(payload)
  {
  }

  lemma FitsAt(lib: Library, ir: Ir, payload: Option<Json>, values: map<string, ControlValue>, i: nat)
    requires ControlsFit(lib, ir, payload, values) && i < |ir.controls|
    ensures ir.controls[i].id in values && Fits(lib, ir, payload, ir.controls[i], values[ir.controls[i].id])
  {
  }

  /** Under the same payload and controls, a refreshed entry is refreshed to itself. */
  lemma SecondRefreshOfCollection(lib: Library, ir: Ir, payload: Json, values: map<string, ControlValue>, d: Descriptor,
                                  current: Option<CollectionState>)
    ensures var entry := RefreshCollection(lib, ir, payload, values, d, current);
            RefreshCollection(lib, ir, payload, values, d, Some(entry)) == entry
  {
    hide Select, SentPage;
    RefreshedIsOnItsPage(lib, ir, payload, values, d, current);
  }

  lemma SecondRefreshOfCollections(lib: Library, ir: Ir, s: State, payload: Json)
    ensures var one := Refresh(lib, ir, s, payload);
            var two := Refresh(lib, ir, one, payload);
            two.controls == one.controls ==> two.collections == one.collections
  {
    hide Overlay, Keyed, Descriptors, DescriptorOf, RefreshCollection, ServerControls;
    var one := Refresh(lib, ir, s, payload);
    var two := Refresh(lib, ir, one, payload);
    if two.controls == one.controls {
      DescriptorsCover(ir, RefreshPages(lib, ir, payload, one.controls, s));
      DescriptorsCover(ir, RefreshPages(lib, ir, payload, one.controls, one));
      forall id | id in one.collections
        ensures id in two.collections && two.collections[id] == one.collections[id]
      {
        var d := DescriptorOf(ir, id).value;
        assert d.declared.id == id;
        SecondRefreshOfCollection(lib, ir, payload, one.controls, d, Lookup(s.collections, id));
      }
    }
  }

  /**
   A second refresh changes nothing but the revision exactly when the first left no toggle on that may not stay on.
   */
  lemma SecondRefresh(lib: Library, ir: Ir, s: State, payload: Json)
    requires UniqueControls(ir.controls) && Valid(lib, ir, s)
    ensures var one := Refresh(lib, ir, s, payload);
            Refresh(lib, ir, one, payload) == one.(payloadRevision := one.payloadRevision + 1)
            <==> forall i :: 0 <= i < |ir.controls| && IsToggle(ir.controls[i])
                   ==> LeftOnRightly(lib, ir, payload, one, ir.controls[i])
  {
    hide UniqueControls, ControlsFit, MayStayOn, RefreshControl, Overlay, Keyed, Descriptors, ServerControls;
    var one := Refresh(lib, ir, s, payload);
    var two := Refresh(lib, ir, one, payload);
    SecondRefreshOfCollections(lib, ir, s, payload);
    RefreshKeepsControls(lib, ir, s, payload);
    RefreshKeepsControls(lib, ir, one, payload);
    forall i | 0 <= i < |ir.controls|
      ensures ir.controls[i].id in one.controls && ir.controls[i].id in two.controls
      ensures two.controls[ir.controls[i].id] == one.controls[ir.controls[i].id]
              <==> (IsToggle(ir.controls[i]) ==> LeftOnRightly(lib, ir, payload, one, ir.controls[i]))
    {
      SecondRefreshOfControl(lib, ir, s, payload, i);
    }
    SameControls(lib, ir, Some(payload), one.controls, two.controls);
  }

  predicate LeftOnRightly(lib: Library, ir: Ir, payload: Json, s: State, c: Control) {
    c.id in s.controls && s.controls[c.id] == Flag(true) ==> MayStayOn(lib, ir, payload, s.collections, c)
  }

  /** The controls of the collections for which the payload brings a page of the server. */
  function ServedBy(lib: Library, payload: Json, ds: seq<Descriptor>): set<string> {
    if ds == [] then {}
    else
      var d, rest := ds[0], ServedBy(lib, payload, ds[1..]);
      if SentPage(lib, Some(payload), d).Some?
      then Named(d.searchFrom) + Named(d.sortFrom) + Named(d.filterFrom) + rest
      else rest
  }

  /** After a refresh the controls a server applies are those of the pages the payload brought. */
  lemma ServedAfterRefresh(lib: Library, ir: Ir, s: State, payload: Json)
    ensures ServerControls(Descriptors(ir), Refresh(lib, ir, s, payload).collections)
        == ServedBy(lib, payload, Descriptors(ir))
  {
    hide DescriptorOf, DescriptorsOf, Keyed, Overlay, ServerControls, RefreshCollection;
    var one := Refresh(lib, ir, s, payload);
    DescriptorsCover(ir, RefreshPages(lib, ir, payload, one.controls, s));
    DescriptorsAreOfIr(ir, ir.collections);
    forall d | d in Descriptors(ir)
      ensures StoresSent(lib, payload, one.collections, d)
    {
      RefreshStoresSentPage(lib, ir, payload, one.controls, d, Lookup(s.collections, d.declared.id));
    }
    ServedByStored(lib, payload, Descriptors(ir), one.collections);
  }

  lemma RefreshStoresSentPage(lib: Library, ir: Ir, payload: Json, values: map<string, ControlValue>, d: Descriptor,
                              current: Option<CollectionState>)
    ensures RefreshCollection(lib, ir, payload, values, d, current).serverPage == SentPage(lib, Some(payload), d)
  {
    hide SentPage, Select;
  }

  predicate StoresSent(lib: Library, payload: Json, collections: map<string, CollectionState>, d: Descriptor) {
    var id := d.declared.id;
    id in collections && collections[id].serverPage == SentPage(lib, Some(payload), d)
  }

  lemma {:induction false} ServedByStored(lib: Library, payload: Json, ds: seq<Descriptor>,
                                          collections: map<string, CollectionState>)
    requires forall d :: d in ds ==> StoresSent(lib, payload, collections, d)
    ensures ServerControls(ds, collections) == ServedBy(lib, payload, ds)
  {
    hide ServerPageOf;
    if ds != [] {
      assert ds[0] in ds;
      ServedByStored(lib, payload, ds[1..], collections);
    }
  }

  /**
   On before, unavailable, kept on for the sake of a server that no longer pages: what a second refresh switches off.
   */
  predicate SwitchedOffLater(lib: Library, ir: Ir, s: State, payload: Json, c: Control) {
    && c.id in s.controls && s.controls[c.id] == Flag(true)
    && !Available(lib, Some(payload), c)
    && c.id in ServerControls(Descriptors(ir), s.collections)
    && c.id !in ServedBy(lib, payload, Descriptors(ir))
  }

  /**
   Accepting the same payload twice changes nothing but the revision exactly
   when no toggle is on that the payload does not make available, that a stored
   page of the server protects, and that no page the payload brings does.
   */
  lemma RefreshIsIdempotentExactly(lib: Library, ir: Ir, s: State, payload: Json)
    requires UniqueControls(ir.controls) && Valid(lib, ir, s)
    ensures var one := Refresh(lib, ir, s, payload);
            Refresh(lib, ir, one, payload) == one.(payloadRevision := one.payloadRevision + 1)
            <==> forall i :: 0 <= i < |ir.controls| && IsToggle(ir.controls[i])
                   ==> !SwitchedOffLater(lib, ir, s, payload, ir.controls[i])
  {
    hide UniqueControls, ControlsFit, Available, RefreshControl, Refresh, Descriptors, ServerControls, ServedBy;
    var one := Refresh(lib, ir, s, payload);
    SecondRefresh(lib, ir, s, payload);
    ServedAfterRefresh(lib, ir, s, payload);
    forall i | 0 <= i < |ir.controls| && IsToggle(ir.controls[i])
      ensures LeftOnRightly(lib, ir, payload, one, ir.controls[i])
              <==> !SwitchedOffLater(lib, ir, s, payload, ir.controls[i])
    {
      RefreshKeepsWhatItCan(lib, ir, s, payload, i);
      FitsAt(lib, ir, s.payload, s.controls, i);
    }
  }

  /** A filter that only an earlier page of the server kept on: the same payload, accepted again, switches it off. */
  lemma SecondPayloadSwitchesOff(lib: Library, ir: Ir, s: State)
    requires forall value, pointer :: lib.resolve(value, pointer) == None
    requires IsWitness(ir)
    requires ir.controls
        == [Control("filter-toggle", "f",
            Record(map["requiresSource" := Json.Text("/a"), "requiresValue" := Json.Text("b")]))]
    requires s == State(map["f" := Flag(true)], map["c" := CollectionState(0, 1, Some(ServerPage(0, 1, 1, 0)))],
                        map[], None, [], None, 0)
    ensures var one := Refresh(lib, ir, s, Json.Null);
            && Valid(lib, ir, s)
            && one.controls == map["f" := Flag(true)]
            && Refresh(lib, ir, one, Json.Null).controls == map["f" := Flag(false)]
  {
    hide ServerControls, ServedBy, Descriptors, ControlsFit, Overlay, Keyed, Refresh, IsWitness;
    var c := ir.controls[0];
    var one := Refresh(lib, ir, s, Json.Null);
    var two := Refresh(lib, ir, one, Json.Null);
    WitnessIsValid(lib, ir, s);
    WitnessIsServed(lib, ir, s);
    RefreshKeepsControls(lib, ir, s, Json.Null);
    RefreshSetsPayload(lib, ir, s, Json.Null);
    RefreshKeepsControls(lib, ir, one, Json.Null);
    ServedAfterRefresh(lib, ir, s, Json.Null);
    assert !Available(lib, Some(Json.Null), c);
    RefreshKeepsWhatItCan(lib, ir, s, Json.Null, 0);
    RefreshKeepsWhatItCan(lib, ir, one, Json.Null, 0);
    OnlyControl(lib, ir, c, one.controls);
    OnlyControl(lib, ir, c, two.controls);
  }

  lemma OnlyControl(lib: Library, ir: Ir, c: Control, values: map<string, ControlValue>)
    requires ir.controls == [c] && ControlsFit(lib, ir, Some(Json.Null), values)
    ensures c.id in values && values == map[c.id := values[c.id]]
  {
    assert ir.controls[0] == c;
  }

  /** The description of the witness: one collection, filtered by one control. */
  predicate IsWitness(ir: Ir) {
    var node := Node("collection", Record(map["id" := Json.Text("c"), "filterFrom" := Json.Text("f")]), []);
    ir.root == [node] && ir.collections == [Collection("c", "/rows", None, Some("server"), None)]
  }

  const WITNESS := Descriptor(Collection("c", "/rows", None, Some("server"), None), None, Some("f"), None)

  lemma WitnessNode(ir: Ir, id: string)
    requires IsWitness(ir)
    ensures FindNode(Flatten(ir.root), id) == if id == "c" then Some(ir.root[0]) else None
  {
    assert ir.root[1..] == [];
    assert Flatten(ir.root) == [ir.root[0]];
    assert [ir.root[0]][1..] == [];
  }

  lemma WitnessDescriptor(ir: Ir, id: string)
    requires IsWitness(ir)
    ensures DescriptorOf(ir, id) == if id == "c" then Some(WITNESS) else None
  {
    hide FindNode, Flatten;
    WitnessNode(ir, id);
    assert ir.collections[1..] == [];
  }

  lemma WitnessDescriptors(ir: Ir)
    requires IsWitness(ir)
    ensures Descriptors(ir) == [WITNESS]
  {
    hide DescriptorOf;
    WitnessDescriptor(ir, "c");
    assert ir.collections[1..] == [];
    assert DescriptorsOf(ir, []) == [];
  }

  lemma WitnessIsValid(lib: Library, ir: Ir, s: State)
    requires IsWitness(ir) && |ir.controls| == 1 && ir.controls[0].kind == "filter-toggle" && ir.controls[0].id == "f"
    requires s.controls == map["f" := Flag(true)] && s.expandedKeys == []
    requires s.collections == map["c" := CollectionState(0, 1, Some(ServerPage(0, 1, 1, 0)))]
    ensures Valid(lib, ir, s)
  {
    hide DescriptorOf, IsWitness;
    assert ir.controls[0].id == "f";
    forall id ensures id in s.collections <==> DescriptorOf(ir, id).Some? {
      WitnessDescriptor(ir, id);
    }
    WitnessDescriptor(ir, "c");
  }

  lemma WitnessIsServed(lib: Library, ir: Ir, s: State)
    requires forall value, pointer :: lib.resolve(value, pointer) == None
    requires IsWitness(ir) && s.collections == map["c" := CollectionState(0, 1, Some(ServerPage(0, 1, 1, 0)))]
    ensures "f" in ServerControls(Descriptors(ir), s.collections)
    ensures "f" !in ServedBy(lib, Json.Null, Descriptors(ir))
  {
    hide Descriptors, IsWitness;
    WitnessDescriptors(ir);
    assert [WITNESS][1..] == [];
    NothingSentBack(lib, WITNESS);
  }

  lemma NothingSentBack(lib: Library, d: Descriptor)
    requires forall value, pointer :: lib.resolve(value, pointer) == None
    ensures SentPage(lib, Some(Json.Null), d) == None
  {
    hide SafeNumber;
    assert Resolve(lib, Some(Json.Null), "/__burnlistOvenRuntime/collectionPages") == None;
    assert Field(None, d.declared.source) == None;
  }

  lemma SameControls(lib: Library, ir: Ir, payload: Option<Json>, a: map<string, ControlValue>,
                     b: map<string, ControlValue>)
    requires ControlsFit(lib, ir, payload, a) && ControlsFit(lib, ir, payload, b)
    ensures a == b
        <==> forall i :: 0 <= i < |ir.controls| ==> Lookup(a, ir.controls[i].id) == Lookup(b, ir.controls[i].id)
  {
    hide Fits;
    if forall i :: 0 <= i < |ir.controls| ==> Lookup(a, ir.controls[i].id) == Lookup(b, ir.controls[i].id) {
      forall id | id in a || id in b
        ensures id in a && id in b && a[id] == b[id]
      {
        var i :| 0 <= i < |ir.controls| && ir.controls[i].id == id;
        assert Lookup(a, ir.controls[i].id) == Lookup(b, ir.controls[i].id);
      }
    }
  }
}
