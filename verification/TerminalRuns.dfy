/** What every run of the terminal state machine keeps. */
module TerminalRuns {
  import opened Wrappers
  import opened Json
  import opened TerminalRows
  import opened TerminalIr
  import opened TerminalState
  import ItemKeys

  // ----- The invariant -----

  /** A choice is one of the offer, or "" when nothing is offered; a toggle is on or off. */
  predicate Fits(lib: Library, ir: Ir, payload: Option<Json>, c: Control, value: ControlValue) {
    if c.kind == "search" then value.Chosen?
    else if c.kind == "domain-tabs" || c.kind == "mode-toggle" then
      value.Chosen?
      && (value.text in Offer(lib, ir, payload, c) || (Offer(lib, ir, payload, c) == [] && value.text == ""))
    else value.Flag?
  }

  ghost predicate ControlsFit(lib: Library, ir: Ir, payload: Option<Json>, values: map<string, ControlValue>) {
    && (forall i :: 0 <= i < |ir.controls| ==>
          ir.controls[i].id in values && Fits(lib, ir, payload, ir.controls[i], values[ir.controls[i].id]))
    && (forall id :: id in values ==> exists i :: 0 <= i < |ir.controls| && ir.controls[i].id == id)
  }

  /** A stored page index is no negative number, and only a server-paged collection stores a sent page. */
  ghost predicate CollectionsFit(ir: Ir, collections: map<string, CollectionState>) {
    && KeyedBy(ir, collections)
    && forall id :: id in collections ==>
         collections[id].pageIndex >= 0
         && (collections[id].serverPage.Some? ==> ServerPaged(DescriptorOf(ir, id).value))
  }

  predicate ExpandedOnce(keys: seq<string>) {
    "" !in keys && ItemKeys.Distinct(keys)
  }

  ghost predicate Valid(lib: Library, ir: Ir, s: State) {
    && ControlsFit(lib, ir, s.payload, s.controls)
    && CollectionsFit(ir, s.collections)
    && ExpandedOnce(s.expandedKeys)
  }

  /** The stored index of a collection is the index of the page it shows. */
  predicate OnItsPage(lib: Library, ir: Ir, s: State, d: Descriptor)
    requires d.declared.id in s.collections
  {
    var stored := s.collections[d.declared.id];
    var page := Select(lib, ir, s.payload, s.controls, d, stored);
    stored.pageIndex == page.pageIndex < page.pageCount
  }

  ghost predicate Settled(lib: Library, ir: Ir, s: State)
    requires KeyedBy(ir, s.collections)
  {
    forall id :: id in s.collections ==> OnItsPage(lib, ir, s, DescriptorOf(ir, id).value)
  }

  // ----- Starting -----

  lemma InitFits(lib: Library, ir: Ir, payload: Option<Json>, c: Control)
    ensures Fits(lib, ir, payload, c, InitControl(lib, ir, payload, c))
  {
  }

  lemma InitIsValid(lib: Library, ir: Ir, payload: Option<Json>, focusableIds: seq<string>)
    requires UniqueControls(ir.controls)
    ensures Valid(lib, ir, Init(lib, ir, payload, focusableIds))
  {
    hide Fits, InitControl, DescriptorOf, Descriptors, Keyed, Overlay, UniqueControls;
    var f := InitValues(lib, ir, payload);
    var controls := Overlay(map[], ir.controls, |ir.controls|, f);
    OverlayAt(map[], ir.controls, |ir.controls|, f);
    forall i | 0 <= i < |ir.controls|
      ensures ir.controls[i].id in controls && Fits(lib, ir, payload, ir.controls[i], controls[ir.controls[i].id])
    {
      InitFits(lib, ir, payload, ir.controls[i]);
      assert Lookup(controls, ir.controls[i].id) == f(ir.controls[i]);
    }
    DescriptorsCover(ir, InitPages(lib, payload));
    assert ExpandedOnce([]);
  }

  /** The runtime starts on the pages it shows exactly when no server announced a page beyond its own count. */
  lemma InitIsSettledExactly(lib: Library, ir: Ir, payload: Option<Json>, focusableIds: seq<string>)
    ensures var s := Init(lib, ir, payload, focusableIds);
            && KeyedBy(ir, s.collections)
            && (Settled(lib, ir, s)
                <==> forall id :: DescriptorOf(ir, id).Some? ==>
                       var sent := SentPage(lib, payload, DescriptorOf(ir, id).value);
                       sent.Some? ==> sent.value.page < sent.value.pageCount)
  {
    hide DescriptorOf, Descriptors, Keyed, Overlay, InitControl, SentPage, Select;
    DescriptorsCover(ir, InitPages(lib, payload));
    var s := Init(lib, ir, payload, focusableIds);
    forall id | DescriptorOf(ir, id).Some?
      ensures var d := DescriptorOf(ir, id).value;
              var sent := SentPage(lib, payload, d);
              OnItsPage(lib, ir, s, d) <==> (sent.Some? ==> sent.value.page < sent.value.pageCount)
    {
      var d := DescriptorOf(ir, id).value;
      SelectedIndex(lib, ir, payload, s.controls, d, InitCollection(lib, payload, d));
      SentPagesAreServers(lib, payload, d);
      assert d.declared.id == id;
    }
  }

  lemma SentPagesAreServers(lib: Library, payload: Option<Json>, d: Descriptor)
    ensures SentPage(lib, payload, d).Some? ==> ServerPaged(d)
  {
  }

  /** The page shown is the stored one, brought into range. */
  lemma SelectedIndex(lib: Library, ir: Ir, payload: Option<Json>, values: map<string, ControlValue>, d: Descriptor,
                      state: CollectionState)
    ensures var page := Select(lib, ir, payload, values, d, state);
            page.pageIndex
            == if state.serverPage.Some? && ServerPaged(d)
                then Clamp(state.serverPage.value.page, state.serverPage.value.pageCount)
               else Clamp(state.pageIndex, page.pageCount)
    ensures state.serverPage.Some? && ServerPaged(d)
            ==> Select(lib, ir, payload, values, d, state).pageCount == state.serverPage.value.pageCount
  {
    hide RunTerminalCollection, OptionsOf, KeysOf, PageRows, PageCount, AllRows, Attached;
  }

  // ----- Refreshing -----

  lemma RefreshFits(lib: Library, ir: Ir, payload: Json, was: Option<Json>, seeded: set<string>, c: Control,
                    current: ControlValue)
    requires Fits(lib, ir, was, c, current)
    ensures var value := RefreshControl(lib, ir, payload, seeded, c, Some(current));
            Fits(lib, ir, Some(payload), c, value.GetOr(current))
  {
  }

  lemma RefreshKeepsControls(lib: Library, ir: Ir, s: State, payload: Json)
    requires UniqueControls(ir.controls) && ControlsFit(lib, ir, s.payload, s.controls)
    ensures ControlsFit(lib, ir, Some(payload), Refresh(lib, ir, s, payload).controls)
  {
    hide Fits, RefreshControl, Descriptors, ServerControls, Keyed, Overlay, UniqueControls;
    var f := RefreshValues(lib, ir, payload, s);
    OverlayAt(s.controls, ir.controls, |ir.controls|, f);
    var controls := Refresh(lib, ir, s, payload).controls;
    var seeded := ServerControls(Descriptors(ir), s.collections);
    forall i | 0 <= i < |ir.controls|
      ensures ir.controls[i].id in controls && Fits(lib, ir, Some(payload), ir.controls[i], controls[ir.controls[i].id])
    {
      var c := ir.controls[i];
      RefreshFits(lib, ir, payload, s.payload, seeded, c, s.controls[c.id]);
      assert Lookup(controls, c.id) == if f(c).Some? then f(c) else Lookup(s.controls, c.id);
    }
  }

  lemma RefreshKeepsCollections(lib: Library, ir: Ir, s: State, payload: Json)
    ensures CollectionsFit(ir, Refresh(lib, ir, s, payload).collections)
  {
    hide DescriptorOf, Descriptors, Keyed, Overlay, Select, ServerPageOf;
    DescriptorsCover(ir, RefreshPages(lib, ir, payload, Refresh(lib, ir, s, payload).controls, s));
  }

  /** Bringing the index into range leaves the rest of the entry, and the page it shows, alone. */
  lemma RefreshedIsOnItsPage(lib: Library, ir: Ir, payload: Json, values: map<string, ControlValue>, d: Descriptor,
                             current: Option<CollectionState>)
    ensures var entry := RefreshCollection(lib, ir, payload, values, d, current);
            var page := Select(lib, ir, Some(payload), values, d, entry);
            entry.pageIndex == page.pageIndex < page.pageCount
  {
    hide Select, Seeded;
    var seeded := Seeded(lib, payload, d, current);
    var entry := RefreshCollection(lib, ir, payload, values, d, current);
    SelectedIndex(lib, ir, Some(payload), values, d, seeded);
    SelectedIndex(lib, ir, Some(payload), values, d, entry);
    SelectedCount(lib, ir, Some(payload), values, d, seeded, entry.pageIndex);
  }

  /** The number of pages does not depend on the page one is on. */
  lemma SelectedCount(lib: Library, ir: Ir, payload: Option<Json>, values: map<string, ControlValue>, d: Descriptor,
                      state: CollectionState, index: int)
    ensures Select(lib, ir, payload, values, d, state).pageCount
            == Select(lib, ir, payload, values, d, state.(pageIndex := index)).pageCount
  {
    hide RunTerminalCollection, OptionsOf, KeysOf, PageRows, PageCount, AllRows, Attached;
  }

  /** After a refresh every stored page index is the index of the page shown, below its page count. */
  lemma RefreshSettles(lib: Library, ir: Ir, s: State, payload: Json)
    ensures KeyedBy(ir, Refresh(lib, ir, s, payload).collections)
    ensures Settled(lib, ir, Refresh(lib, ir, s, payload))
  {
    hide DescriptorOf, Descriptors, Keyed, Overlay, Select, RefreshCollection;
    var next := Refresh(lib, ir, s, payload);
    DescriptorsCover(ir, RefreshPages(lib, ir, payload, next.controls, s));
    forall id | id in next.collections
      ensures OnItsPage(lib, ir, next, DescriptorOf(ir, id).value)
    {
      var d := DescriptorOf(ir, id).value;
      RefreshedIsOnItsPage(lib, ir, payload, next.controls, d, Lookup(s.collections, d.declared.id));
      assert d.declared.id == id;
    }
  }

  // ----- The other actions -----

  lemma SetControlKeepsFit(lib: Library, ir: Ir, s: State, c: Control, value: ControlValue)
    requires UniqueControls(ir.controls) && ControlsFit(lib, ir, s.payload, s.controls)
    requires c in ir.controls && Fits(lib, ir, s.payload, c, value)
    ensures ControlsFit(lib, ir, s.payload, SetControl(s, c.id, value).controls)
  {
    hide Fits;
    var controls := SetControl(s, c.id, value).controls;
    forall i | 0 <= i < |ir.controls|
      ensures ir.controls[i].id in controls && Fits(lib, ir, s.payload, ir.controls[i], controls[ir.controls[i].id])
    {
      if ir.controls[i].id == c.id {
        assert ir.controls[i] == c;
      }
    }
  }

  /** One of the first `n` descriptors is of this collection and consumes the control. */
  predicate ConsumedBefore(ds: seq<Descriptor>, n: nat, id: string, control: string)
    requires n <= |ds|
  {
    exists i :: 0 <= i < n && ds[i].declared.id == id && Consumes(ds[i], control)
  }

  /** A changed control sends exactly the collections that consume it back to their first page. */
  lemma {:induction false} ResetIsExact(ir: Ir, collections: map<string, CollectionState>, ds: seq<Descriptor>,
                                        n: nat, control: string)
    requires n <= |ds| && forall d :: d in ds ==> DescriptorOf(ir, d.declared.id) == Some(d)
    ensures var reset := Reset(collections, ds, n, control);
            && reset.Keys == collections.Keys
            && forall id :: id in collections ==>
                 reset[id] == if ConsumedBefore(ds, n, id, control) then collections[id].(pageIndex := 0)
                     else collections[id]
  {
    hide DescriptorOf, Consumes;
    if n > 0 {
      ResetIsExact(ir, collections, ds, n - 1, control);
      assert ds[n - 1] in ds;
    }
  }

  lemma ResetKeepsFit(ir: Ir, s: State, control: string)
    requires CollectionsFit(ir, s.collections)
    ensures CollectionsFit(ir, ResetPages(s, ir, control))
    ensures forall id :: id in s.collections ==>
              ResetPages(s, ir, control)[id]
              == if Consumes(DescriptorOf(ir, id).value, control) then s.collections[id].(pageIndex := 0)
                 else s.collections[id]
  {
    hide DescriptorOf, DescriptorsOf, Consumes;
    var ds := Descriptors(ir);
    DescriptorsAreOfIr(ir, ir.collections);
    ResetIsExact(ir, s.collections, ds, |ds|, control);
    forall id | id in s.collections
      ensures DescriptorOf(ir, id).Some?
      ensures Consumes(DescriptorOf(ir, id).value, control)
              <==> ConsumedBefore(ds, |ds|, id, control)
    {
      var d := DescriptorOf(ir, id).value;
      DescriptorIsDeclared(ir, id);
      assert d in ds;
      var k :| 0 <= k < |ds| && ds[k] == d;
      assert forall i :: 0 <= i < |ds| && ds[i].declared.id == id ==> ds[i] in ds && ds[i] == d;
    }
  }

  lemma DescriptorIsDeclared(ir: Ir, id: string)
    requires DescriptorOf(ir, id).Some?
    ensures DescriptorOf(ir, id).value in Descriptors(ir)
    ensures DescriptorOf(ir, id).value.declared.id == id
  {
    DescriptorsAreOfIr(ir, ir.collections);
    assert FindCollection(ir.collections, id).value in ir.collections;
  }

  lemma {:induction false} WithoutKeepsOthers(keys: seq<string>, key: string)
    ensures forall k :: k in Without(keys, key) <==> k in keys && k != key
    ensures ItemKeys.Distinct(keys) ==> ItemKeys.Distinct(Without(keys, key))
  {
    if keys != [] {
      WithoutKeepsOthers(keys[1..], key);
      assert forall k :: k in keys <==> k == keys[0] || k in keys[1..];
      var rest := Without(keys[1..], key);
      if ItemKeys.Distinct(keys) {
        assert forall p :: 0 <= p < |rest| ==> rest[p] in keys[1..];
      }
    }
  }

  /** Toggling turns exactly one key over. */
  lemma ToggleFlipsOne(keys: seq<string>, key: string)
    ensures forall k :: k in Toggle(keys, key) <==> (k in keys) != (k == key && key != "")
    ensures ExpandedOnce(keys) ==> ExpandedOnce(Toggle(keys, key))
  {
    WithoutKeepsOthers(keys, key);
  }

  /** Every action but an accepted payload leaves the payload and its revision alone. */
  lemma OnlyPayloadsCount(lib: Library, ir: Ir, s: State, action: Action, focusableIds: seq<string>)
    ensures var next := Reduce(lib, ir, s, action, focusableIds);
            if action.PayloadAccepted? then
              next.payload == Some(action.payload) && next.payloadRevision == s.payloadRevision + 1
            else next.payload == s.payload && next.payloadRevision == s.payloadRevision
  {
    hide Overlay, Keyed, Select, Reset, FindControl, DescriptorOf, Offer;
  }

  lemma ChoiceKeepsValid(lib: Library, ir: Ir, s: State, action: Action, focusableIds: seq<string>)
    requires UniqueControls(ir.controls) && Valid(lib, ir, s)
    requires action.ModeSelected? || action.QueryChanged? || action.DomainSelected? || action.ToggleChanged?
    ensures Valid(lib, ir, Reduce(lib, ir, s, action, focusableIds))
  {
    hide ControlsFit, CollectionsFit, ResetPages, ModeValues, DomainValues, UniqueControls, SetControl;
    var found := FindControl(ir.controls, action.id);
    ResetKeepsFit(ir, s, action.id);
    if found.Some? {
      var c := found.value;
      var value := if action.ToggleChanged? then Flag(action.active) else Chosen(action.value);
      if Fits(lib, ir, s.payload, c, value) {
        SetControlKeepsFit(lib, ir, s, c, value);
      }
      SetControlKeepsRest(s, c.id, value);
    }
  }

  lemma SetControlKeepsRest(s: State, id: string, value: ControlValue)
    ensures SetControl(s, id, value) == s.(controls := SetControl(s, id, value).controls)
  {
  }

  lemma EntryKeepsFit(ir: Ir, s: State, id: string, entry: CollectionState)
    requires CollectionsFit(ir, s.collections) && id in s.collections
    requires entry.pageIndex >= 0 && entry.serverPage == s.collections[id].serverPage
    ensures CollectionsFit(ir, s.collections[id := entry])
  {
    hide DescriptorOf;
  }

  lemma PageActionKeepsValid(lib: Library, ir: Ir, s: State, action: Action, focusableIds: seq<string>)
    requires Valid(lib, ir, s)
    requires action.PagePrevious? || action.PageNext? || action.PageSizeChanged?
    ensures Valid(lib, ir, Reduce(lib, ir, s, action, focusableIds))
  {
    hide ControlsFit, CollectionsFit, ExpandedOnce, DescriptorOf;
    var next := Reduce(lib, ir, s, action, focusableIds);
    var id := action.collectionId;
    PagingChangesOneEntry(lib, ir, s, action, focusableIds);
    if next != s {
      StoredIndex(ir, s, id);
      EntryKeepsFit(ir, s, id, next.collections[id]);
    }
  }

  lemma StoredIndex(ir: Ir, s: State, id: string)
    requires CollectionsFit(ir, s.collections) && id in s.collections
    ensures s.collections[id].pageIndex >= 0
  {
    hide DescriptorOf;
  }

  /** Paging changes the index, and at most the size, of one entry, and nothing else. */
  lemma PagingChangesOneEntry(lib: Library, ir: Ir, s: State, action: Action, focusableIds: seq<string>)
    requires action.PagePrevious? || action.PageNext? || action.PageSizeChanged?
    ensures var next, id := Reduce(lib, ir, s, action, focusableIds), action.collectionId;
            next == s
            || (&& id in s.collections && id in next.collections
                && next == s.(collections := s.collections[id := next.collections[id]])
                && next.collections[id].serverPage == s.collections[id].serverPage
                && (s.collections[id].pageIndex >= 0 ==> next.collections[id].pageIndex >= 0))
  {
    hide DescriptorOf, Refresh, FindControl;
  }

  /** Every action keeps the invariant, and an accepted payload settles every page. */
  lemma ReduceKeepsValid(lib: Library, ir: Ir, s: State, action: Action, focusableIds: seq<string>)
    requires UniqueControls(ir.controls) && Valid(lib, ir, s)
    ensures Valid(lib, ir, Reduce(lib, ir, s, action, focusableIds))
    ensures action.PayloadAccepted? ==> Settled(lib, ir, Reduce(lib, ir, s, action, focusableIds))
  {
    match action {
      case PayloadAccepted(payload) =>
        RefreshKeepsValid(lib, ir, s, payload, focusableIds);
      case ModeSelected(_, _) => ChoiceKeepsValid(lib, ir, s, action, focusableIds);
      case QueryChanged(_, _) => ChoiceKeepsValid(lib, ir, s, action, focusableIds);
      case DomainSelected(_, _) => ChoiceKeepsValid(lib, ir, s, action, focusableIds);
      case ToggleChanged(_, _) => ChoiceKeepsValid(lib, ir, s, action, focusableIds);
      case PagePrevious(_) => PageActionKeepsValid(lib, ir, s, action, focusableIds);
      case PageNext(_) => PageActionKeepsValid(lib, ir, s, action, focusableIds);
      case PageSizeChanged(_, _) => PageActionKeepsValid(lib, ir, s, action, focusableIds);
      case ToggleExpanded(key) =>
        ToggleFlipsOne(s.expandedKeys, key);
        OtherActionKeepsValid(lib, ir, s, action, focusableIds);
      case _ => OtherActionKeepsValid(lib, ir, s, action, focusableIds);
    }
  }

  /** Actions on the selection, the focus and the expansion. */
  predicate IsAside(action: Action) {
    action.FocusNext? || action.FocusPrevious? || action.FocusSet? || action.SelectionMoved?
    || action.MediaFrameMoved? || action.ToggleExpanded?
  }

  /** They leave the payload, the controls and the collections alone. */
  lemma AsideLeavesPages(lib: Library, ir: Ir, s: State, action: Action, focusableIds: seq<string>)
    requires IsAside(action)
    ensures var next := Reduce(lib, ir, s, action, focusableIds);
            && next.payload == s.payload && next.controls == s.controls && next.collections == s.collections
            && next.expandedKeys == if action.ToggleExpanded? then Toggle(s.expandedKeys, action.key)
                else s.expandedKeys
  {
    hide MoveSelection, MoveFrame, MoveFocus, Toggle, Refresh, Paged, FindControl;
    match action {
      case SelectionMoved(id, direction) => SelectionLeavesPages(lib, ir, s, id, direction);
      case MediaFrameMoved(direction) => FrameLeavesPages(lib, ir, s, direction);
      case _ => FocusLeavesPages(s, focusableIds, 1); FocusLeavesPages(s, focusableIds, -1);
    }
  }

  lemma SelectionLeavesPages(lib: Library, ir: Ir, s: State, id: string, direction: Direction)
    ensures MoveSelection(lib, ir, s, id, direction)
            == s.(selections := MoveSelection(lib, ir, s, id, direction).selections)
  {
    hide Select, DescriptorOf, ItemKeys.Move;
  }

  lemma FrameLeavesPages(lib: Library, ir: Ir, s: State, direction: Direction)
    ensures MoveFrame(lib, ir, s, direction) == s.(selections := MoveFrame(lib, ir, s, direction).selections)
  {
    hide FrameCount, StoredFrame, ItemKeys.Digits, Clamp;
  }

  lemma FocusLeavesPages(s: State, focusableIds: seq<string>, step: int)
    ensures MoveFocus(s, focusableIds, step) == s.(focusId := MoveFocus(s, focusableIds, step).focusId)
  {
    hide ItemKeys.IndexOf, Clamp;
  }

  lemma OtherActionKeepsValid(lib: Library, ir: Ir, s: State, action: Action, focusableIds: seq<string>)
    requires Valid(lib, ir, s) && IsAside(action)
    requires action.ToggleExpanded? ==> ExpandedOnce(Toggle(s.expandedKeys, action.key))
    ensures Valid(lib, ir, Reduce(lib, ir, s, action, focusableIds))
  {
    hide ControlsFit, CollectionsFit, ExpandedOnce, Toggle, Reduce;
    AsideLeavesPages(lib, ir, s, action, focusableIds);
  }

  lemma RefreshKeepsValid(lib: Library, ir: Ir, s: State, payload: Json, focusableIds: seq<string>)
    requires UniqueControls(ir.controls) && Valid(lib, ir, s)
    ensures var next := Refocus(Refresh(lib, ir, s, payload), focusableIds);
            Valid(lib, ir, next) && Settled(lib, ir, next)
  {
    hide ControlsFit, UniqueControls, DescriptorOf, Overlay, Keyed, Select;
    RefreshKeepsControls(lib, ir, s, payload);
    RefreshKeepsCollections(lib, ir, s, payload);
    RefreshSettles(lib, ir, s, payload);
    var one, two := Refresh(lib, ir, s, payload), Refocus(Refresh(lib, ir, s, payload), focusableIds);
    forall id | id in two.collections
      ensures OnItsPage(lib, ir, two, DescriptorOf(ir, id).value)
    {
      assert OnItsPage(lib, ir, one, DescriptorOf(ir, id).value);
    }
  }

  /** The focus follows what can be focused: it is one of the ids on offer, and none only when there are none. */
  lemma FocusIsOnOffer(lib: Library, ir: Ir, s: State, action: Action, focusableIds: seq<string>)
    requires action.PayloadAccepted? || action.FocusNext? || action.FocusPrevious?
    requires "" !in focusableIds
    ensures var focus := Reduce(lib, ir, s, action, focusableIds).focusId;
            if focusableIds == [] then focus == None else focus.Some? && focus.value in focusableIds
  {
    hide Refresh;
    assert focusableIds != [] ==> focusableIds[0] in focusableIds;
  }

  // ----- Runs -----

  datatype Event = Event(action: Action, focusableIds: seq<string>)

  function Run(lib: Library, ir: Ir, s: State, events: seq<Event>): State
    decreases |events|
  {
    if events == [] then s
    else
      var last := events[|events| - 1];
      Reduce(lib, ir, Run(lib, ir, s, events[..|events| - 1]), last.action, last.focusableIds)
  }

  lemma RunNothing(lib: Library, ir: Ir, s: State)
    ensures Run(lib, ir, s, []) == s
  {
  }

  lemma RunOne(lib: Library, ir: Ir, s: State, events: seq<Event>, last: Event)
    ensures Run(lib, ir, s, events + [last]) == Reduce(lib, ir, Run(lib, ir, s, events), last.action, last.focusableIds)
  {
    hide Reduce;
    assert (events + [last])[..|events|] == events;
  }

  function Accepted(events: seq<Event>): nat {
    if events == [] then 0
        else Accepted(events[..|events| - 1]) + (if events[|events| - 1].action.PayloadAccepted? then 1 else 0)
  }

  /**
   From the start, under any actions: controls hold what is offered, exactly
   the described collections are kept, nothing is expanded twice, the revision
   counts the accepted payloads, and right after one every page index is in range.
   */
  lemma {:induction false} EveryRunIsValid(lib: Library, ir: Ir, payload: Option<Json>, focusableIds: seq<string>,
                                           events: seq<Event>)
    requires UniqueControls(ir.controls)
    ensures var s := Run(lib, ir, Init(lib, ir, payload, focusableIds), events);
            && Valid(lib, ir, s)
            && s.payloadRevision == Accepted(events)
            && (events != [] && events[|events| - 1].action.PayloadAccepted? ==> Settled(lib, ir, s))
    decreases |events|
  {
    hide Valid, UniqueControls, Reduce, Settled;
    if events == [] {
      InitIsValid(lib, ir, payload, focusableIds);
    } else {
      var before, last := events[..|events| - 1], events[|events| - 1];
      EveryRunIsValid(lib, ir, payload, focusableIds, before);
      var s := Run(lib, ir, Init(lib, ir, payload, focusableIds), before);
      ReduceKeepsValid(lib, ir, s, last.action, last.focusableIds);
      OnlyPayloadsCount(lib, ir, s, last.action, last.focusableIds);
    }
  }
}
