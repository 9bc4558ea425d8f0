/**
 When the page indexes a terminal oven stores are those of the pages it shows,
 action by action (tui/src/oven-runtime/state-runtime.ts).
 */
module TerminalPaging {
  import opened Wrappers
  import opened Json
  import opened TerminalRows
  import opened TerminalIr
  import opened TerminalState
  import opened TerminalRuns
  import opened TerminalRefresh

  /** The index of the entry is that of the page shown for it. */
  predicate OnPage(lib: Library, ir: Ir, payload: Option<Json>, values: map<string, ControlValue>, d: Descriptor,
                   entry: CollectionState) {
    var page := Select(lib, ir, payload, values, d, entry);
    entry.pageIndex == page.pageIndex < page.pageCount
  }

  predicate ServerFits(d: Descriptor, entry: CollectionState) {
    entry.serverPage.Some? ==> ServerPaged(d)
  }

  /** Going to page 0 shows page 0: a server does not hold another page, or is on page 0 itself. */
  predicate MayRestart(entry: CollectionState) {
    entry.serverPage.None? || entry.pageIndex == 0
  }

  // ----- One collection -----

  /** Going on keeps the entry on its page exactly when the client pages and there is a next page. */
  lemma NextOnPage(lib: Library, ir: Ir, payload: Option<Json>, values: map<string, ControlValue>, d: Descriptor,
                   entry: CollectionState)
    requires ServerFits(d, entry) && OnPage(lib, ir, payload, values, d, entry)
    ensures OnPage(lib, ir, payload, values, d, entry.(pageIndex := entry.pageIndex + 1))
            <==> entry.serverPage.None? && entry.pageIndex + 1 < Select(lib, ir, payload, values, d, entry).pageCount
  {
    hide Select;
    var next := entry.(pageIndex := entry.pageIndex + 1);
    SelectedIndex(lib, ir, payload, values, d, entry);
    SelectedIndex(lib, ir, payload, values, d, next);
    SelectedCount(lib, ir, payload, values, d, entry, entry.pageIndex + 1);
  }

  /** Going back from a later page keeps the entry on its page exactly when the client pages. */
  lemma PreviousOnPage(lib: Library, ir: Ir, payload: Option<Json>, values: map<string, ControlValue>, d: Descriptor,
                       entry: CollectionState)
    requires ServerFits(d, entry) && OnPage(lib, ir, payload, values, d, entry) && entry.pageIndex > 0
    ensures OnPage(lib, ir, payload, values, d, entry.(pageIndex := entry.pageIndex - 1)) <==> entry.serverPage.None?
  {
    hide Select;
    var previous := entry.(pageIndex := entry.pageIndex - 1);
    SelectedIndex(lib, ir, payload, values, d, entry);
    SelectedIndex(lib, ir, payload, values, d, previous);
    SelectedCount(lib, ir, payload, values, d, entry, entry.pageIndex - 1);
  }

  /** Page 0, of any size and under any controls, is the page shown exactly when the entry may restart. */
  lemma FirstOnPage(lib: Library, ir: Ir, payload: Option<Json>, was: map<string, ControlValue>,
                    now: map<string, ControlValue>, d: Descriptor, entry: CollectionState, size: Positive)
    requires ServerFits(d, entry) && OnPage(lib, ir, payload, was, d, entry)
    ensures OnPage(lib, ir, payload, now, d, CollectionState(0, size, entry.serverPage)) <==> MayRestart(entry)
  {
    hide Select;
    var first := CollectionState(0, size, entry.serverPage);
    SelectedIndex(lib, ir, payload, was, d, entry);
    SelectedIndex(lib, ir, payload, now, d, first);
  }

  /** Controls that amount to the same options show the same page. */
  lemma SameOptionsOnPage(lib: Library, ir: Ir, payload: Option<Json>, was: map<string, ControlValue>,
                          now: map<string, ControlValue>, d: Descriptor, entry: CollectionState)
    requires OptionsOf(lib, ir, was, d) == OptionsOf(lib, ir, now, d)
    ensures OnPage(lib, ir, payload, now, d, entry) == OnPage(lib, ir, payload, was, d, entry)
  {
    hide OptionsOf, RunTerminalCollection, KeysOf, PageRows, PageCount;
  }

  // ----- All collections -----

  lemma SettledMeans(lib: Library, ir: Ir, s: State)
    requires KeyedBy(ir, s.collections)
    ensures Settled(lib, ir, s)
            <==> forall id :: id in s.collections
                   ==> OnPage(lib, ir, s.payload, s.controls, DescriptorOf(ir, id).value, s.collections[id])
  {
    hide DescriptorOf, Select;
    DescribedByName(ir);
  }

  lemma DescribedByName(ir: Ir)
    ensures forall id :: DescriptorOf(ir, id).Some? ==> DescriptorOf(ir, id).value.declared.id == id
  {
  }

  /** One changed entry keeps everything settled exactly when it is on its page. */
  lemma OneEntrySettles(lib: Library, ir: Ir, s: State, id: string, entry: CollectionState)
    requires KeyedBy(ir, s.collections) && Settled(lib, ir, s) && id in s.collections
    ensures var next := s.(collections := s.collections[id := entry]);
            && KeyedBy(ir, next.collections)
            && (Settled(lib, ir, next)
                <==> OnPage(lib, ir, s.payload, s.controls, DescriptorOf(ir, id).value, entry))
  {
    hide DescriptorOf, OnPage, Settled;
    var next := s.(collections := s.collections[id := entry]);
    SettledMeans(lib, ir, s);
    SettledMeans(lib, ir, next);
  }

  lemma OptionsUnaffected(lib: Library, ir: Ir, values: map<string, ControlValue>, d: Descriptor, id: string,
                          value: ControlValue)
    requires !Consumes(d, id)
    ensures OptionsOf(lib, ir, values[id := value], d) == OptionsOf(lib, ir, values, d)
  {
  }

  ghost predicate ConsumersMayRestart(ir: Ir, s: State, control: string)
    requires KeyedBy(ir, s.collections)
  {
    forall id :: id in s.collections && Consumes(DescriptorOf(ir, id).value, control) ==> MayRestart(s.collections[id])
  }

  /** A changed control keeps everything settled exactly when every collection that consumes it may restart. */
  lemma ControlChangeSettles(lib: Library, ir: Ir, s: State, control: string, value: ControlValue)
    requires CollectionsFit(ir, s.collections) && Settled(lib, ir, s)
    ensures var next := SetControl(s, control, value).(collections := ResetPages(s, ir, control));
            && KeyedBy(ir, next.collections)
            && (Settled(lib, ir, next) <==> ConsumersMayRestart(ir, s, control))
  {
    hide DescriptorOf, Settled, OnPage, Consumes, ResetPages, OptionsOf;
    var next := SetControl(s, control, value).(collections := ResetPages(s, ir, control));
    ResetKeepsFit(ir, s, control);
    SettledMeans(lib, ir, s);
    SettledMeans(lib, ir, next);
    forall id | id in s.collections
      ensures OnPage(lib, ir, next.payload, next.controls, DescriptorOf(ir, id).value, next.collections[id])
              <==> (Consumes(DescriptorOf(ir, id).value, control) ==> MayRestart(s.collections[id]))
    {
      var d, entry := DescriptorOf(ir, id).value, s.collections[id];
      if Consumes(d, control) {
        FirstOnPage(lib, ir, s.payload, s.controls, next.controls, d, entry, entry.pageSize);
      } else {
        OptionsUnaffected(lib, ir, s.controls, d, control, value);
        SameOptionsOnPage(lib, ir, s.payload, s.controls, next.controls, d, entry);
      }
    }
  }

  // ----- Choices -----

  predicate RefersTo(ir: Ir, id: Option<string>, kinds: set<string>) {
    id.Some? ==> var c := FindControl(ir.controls, id.value); c.Some? && c.value.kind in kinds
  }

  /** Collections refer to controls of the right kind, as a valid description does (terminal-contract.ts:61). */
  ghost predicate RefsFit(ir: Ir) {
    forall id :: DescriptorOf(ir, id).Some? ==> DescriptorRefsFit(ir, DescriptorOf(ir, id).value)
  }

  predicate DescriptorRefsFit(ir: Ir, d: Descriptor) {
    && RefersTo(ir, d.searchFrom, {"search"})
    && RefersTo(ir, d.filterFrom, {"filter-toggle", "mode-toggle"})
    && RefersTo(ir, d.sortFrom, {"sort-toggle"})
  }

  /** A choice is no query and switches nothing on, so it changes the rows of no collection. */
  lemma ChoiceLeavesOptions(lib: Library, ir: Ir, values: map<string, ControlValue>, d: Descriptor, c: Control,
      text: string)
    requires DescriptorRefsFit(ir, d) && FindControl(ir.controls, c.id) == Some(c) && IsChoice(c)
    requires c.id in values && values[c.id].Chosen?
    ensures OptionsOf(lib, ir, values[c.id := Chosen(text)], d) == OptionsOf(lib, ir, values, d)
  {
  }

  lemma ChoiceSettles(lib: Library, ir: Ir, s: State, c: Control, text: string)
    requires RefsFit(ir) && CollectionsFit(ir, s.collections) && Settled(lib, ir, s)
    requires FindControl(ir.controls, c.id) == Some(c) && IsChoice(c) && c.id in s.controls && s.controls[c.id].Chosen?
    ensures Settled(lib, ir, SetControl(s, c.id, Chosen(text)))
  {
    hide DescriptorOf, Settled, OnPage, OptionsOf, DescriptorRefsFit;
    var next := SetControl(s, c.id, Chosen(text));
    SettledMeans(lib, ir, s);
    SettledMeans(lib, ir, next);
    forall id | id in s.collections
      ensures OnPage(lib, ir, next.payload, next.controls, DescriptorOf(ir, id).value, next.collections[id])
    {
      var d := DescriptorOf(ir, id).value;
      ChoiceLeavesOptions(lib, ir, s.controls, d, c, text);
      SameOptionsOnPage(lib, ir, s.payload, s.controls, next.controls, d, s.collections[id]);
    }
  }

  // ----- Every action -----

  /** The action finds a described collection to page. */
  predicate Pages(ir: Ir, s: State, id: string) {
    DescriptorOf(ir, id).Some? && id in s.collections
  }

  predicate IsOfKind(ir: Ir, id: string, kinds: set<string>) {
    var c := FindControl(ir.controls, id);
    c.Some? && c.value.kind in kinds
  }

  /** What must hold before an action for every stored index to be in step with its page after it. */
  ghost predicate KeepsPages(lib: Library, ir: Ir, s: State, action: Action)
    requires KeyedBy(ir, s.collections)
  {
    match action
    case PageNext(id) =>
      Pages(ir, s, id) ==>
        var entry := s.collections[id];
        entry.serverPage.None?
        && entry.pageIndex + 1 < Select(lib, ir, s.payload, s.controls, DescriptorOf(ir, id).value, entry).pageCount
    case PagePrevious(id) => Pages(ir, s, id) ==> MayRestart(s.collections[id])
    case PageSizeChanged(id, size) =>
      Pages(ir, s, id) && SafeInteger(size) && size >= 1.0 ==> MayRestart(s.collections[id])
    case QueryChanged(id, _) => IsOfKind(ir, id, {"search"}) ==> ConsumersMayRestart(ir, s, id)
    case ToggleChanged(id, _) => IsOfKind(ir, id, {"filter-toggle", "sort-toggle"}) ==> ConsumersMayRestart(ir, s, id)
    case _ => true
  }

  /**
   From a state in which every stored page index is the one shown, an action
   leads to such a state exactly when its condition holds. An accepted payload,
   a choice, a selection, the focus and an expansion always do; going on does
   inside the pages of a client; all other paging and filtering does unless the
   server holds a later page.
   */
  lemma SettledExactly(lib: Library, ir: Ir, s: State, action: Action, focusableIds: seq<string>)
    requires UniqueControls(ir.controls) && RefsFit(ir) && Valid(lib, ir, s) && Settled(lib, ir, s)
    ensures KeyedBy(ir, Reduce(lib, ir, s, action, focusableIds).collections)
    ensures Settled(lib, ir, Reduce(lib, ir, s, action, focusableIds)) <==> KeepsPages(lib, ir, s, action)
  {
    ReduceKeepsValid(lib, ir, s, action, focusableIds);
    match action {
      case PageNext(id) => PagingSettles(lib, ir, s, action, focusableIds);
      case PagePrevious(id) => PagingSettles(lib, ir, s, action, focusableIds);
      case PageSizeChanged(id, _) => PagingSettles(lib, ir, s, action, focusableIds);
      case QueryChanged(id, value) =>
        ControlChangeSettles(lib, ir, s, id, Chosen(value));
        FilteringSettles(lib, ir, s, action, focusableIds);
      case ToggleChanged(id, on) =>
        ControlChangeSettles(lib, ir, s, id, Flag(on));
        FilteringSettles(lib, ir, s, action, focusableIds);
      case ModeSelected(id, _) => ChoosingSettles(lib, ir, s, action, focusableIds);
      case DomainSelected(id, _) => ChoosingSettles(lib, ir, s, action, focusableIds);
      case PayloadAccepted(_) =>
      case _ => OthersSettle(lib, ir, s, action, focusableIds);
    }
  }

  lemma PagingSettles(lib: Library, ir: Ir, s: State, action: Action, focusableIds: seq<string>)
    requires action.PageNext? || action.PagePrevious? || action.PageSizeChanged?
    requires CollectionsFit(ir, s.collections) && Settled(lib, ir, s)
    requires KeyedBy(ir, Reduce(lib, ir, s, action, focusableIds).collections)
    ensures Settled(lib, ir, Reduce(lib, ir, s, action, focusableIds)) <==> KeepsPages(lib, ir, s, action)
  {
    hide DescriptorOf, Settled, Select, OnPage, ConsumersMayRestart, KeyedBy;
    assert KeyedBy(ir, s.collections);
    var id := action.collectionId;
    if Pages(ir, s, id) {
      var d, entry := DescriptorOf(ir, id).value, s.collections[id];
      SettledMeans(lib, ir, s);
      assert s.collections[id := entry] == s.collections;
      match action {
        case PageNext(_) =>
          NextOnPage(lib, ir, s.payload, s.controls, d, entry);
          OneEntrySettles(lib, ir, s, id, entry.(pageIndex := entry.pageIndex + 1));
        case PagePrevious(_) =>
          if entry.pageIndex > 0 {
            PreviousOnPage(lib, ir, s.payload, s.controls, d, entry);
            OneEntrySettles(lib, ir, s, id, entry.(pageIndex := entry.pageIndex - 1));
          }
        case PageSizeChanged(_, size) =>
          if SafeInteger(size) && size >= 1.0 {
            FirstOnPage(lib, ir, s.payload, s.controls, s.controls, d, entry, size.Floor);
            OneEntrySettles(lib, ir, s, id, CollectionState(0, size.Floor, entry.serverPage));
          }
      }
    }
  }

  lemma FilteringSettles(lib: Library, ir: Ir, s: State, action: Action, focusableIds: seq<string>)
    requires action.QueryChanged? || action.ToggleChanged?
    requires KeyedBy(ir, s.collections) && Settled(lib, ir, s)
    requires var value := if action.QueryChanged? then Chosen(action.value) else Flag(action.active);
             var next := SetControl(s, action.id, value).(collections := ResetPages(s, ir, action.id));
             KeyedBy(ir, next.collections) && (Settled(lib, ir, next) <==> ConsumersMayRestart(ir, s, action.id))
    ensures KeyedBy(ir, Reduce(lib, ir, s, action, focusableIds).collections)
    ensures Settled(lib, ir, Reduce(lib, ir, s, action, focusableIds)) <==> KeepsPages(lib, ir, s, action)
  {
    hide Settled, KeyedBy, ConsumersMayRestart, FindControl, ResetPages, SetControl, Select, DescriptorOf;
  }

  lemma ChoosingSettles(lib: Library, ir: Ir, s: State, action: Action, focusableIds: seq<string>)
    requires action.ModeSelected? || action.DomainSelected?
    requires RefsFit(ir) && Valid(lib, ir, s) && Settled(lib, ir, s)
    ensures KeyedBy(ir, Reduce(lib, ir, s, action, focusableIds).collections)
    ensures Settled(lib, ir, Reduce(lib, ir, s, action, focusableIds))
  {
    hide Settled, KeyedBy, RefsFit, Offer, ModeValues, DomainValues, DescriptorOf, Select;
    var found := FindControl(ir.controls, action.id);
    if found.Some? && IsChoice(found.value) {
      var c := found.value;
      var i :| 0 <= i < |ir.controls| && ir.controls[i] == c;
      FitsAt(lib, ir, s.payload, s.controls, i);
      ChoiceSettles(lib, ir, s, c, action.value);
    }
  }

  lemma OthersSettle(lib: Library, ir: Ir, s: State, action: Action, focusableIds: seq<string>)
    requires IsAside(action) && KeyedBy(ir, s.collections) && Settled(lib, ir, s)
    ensures KeyedBy(ir, Reduce(lib, ir, s, action, focusableIds).collections)
    ensures Settled(lib, ir, Reduce(lib, ir, s, action, focusableIds))
  {
    hide DescriptorOf, OnPage, Select, Settled, Reduce;
    AsideLeavesPages(lib, ir, s, action, focusableIds);
    SettledMeans(lib, ir, s);
    SettledMeans(lib, ir, Reduce(lib, ir, s, action, focusableIds));
  }

  /** Before there is a payload every collection has one page, and going on leaves it. */
  lemma NextLeavesTheOnlyPage(lib: Library, ir: Ir, id: string, focusableIds: seq<string>)
    requires UniqueControls(ir.controls) && DescriptorOf(ir, id).Some?
    ensures var s := Init(lib, ir, None, focusableIds);
            && KeyedBy(ir, s.collections) && Settled(lib, ir, s)
            && var next := Reduce(lib, ir, s, PageNext(id), focusableIds);
               KeyedBy(ir, next.collections) && !Settled(lib, ir, next)
  {
    hide DescriptorOf, Settled, Select, SentPage, Reduce;
    var s := Init(lib, ir, None, focusableIds);
    InitIsValid(lib, ir, None, focusableIds);
    InitIsSettledExactly(lib, ir, None, focusableIds);
    forall other | DescriptorOf(ir, other).Some?
      ensures SentPage(lib, None, DescriptorOf(ir, other).value) == None
    {
      NothingSent(lib, DescriptorOf(ir, other).value);
    }
    var d := DescriptorOf(ir, id).value;
    InitEntry(lib, ir, id, focusableIds);
    NoRowsNoPages(lib, ir, s.controls, d, s.collections[id]);
    ReduceKeepsValid(lib, ir, s, PageNext(id), focusableIds);
    PagingSettles(lib, ir, s, PageNext(id), focusableIds);
  }

  lemma NothingSent(lib: Library, d: Descriptor)
    ensures SentPage(lib, None, d) == None
  {
  }

  lemma InitEntry(lib: Library, ir: Ir, id: string, focusableIds: seq<string>)
    requires DescriptorOf(ir, id).Some?
    ensures var s := Init(lib, ir, None, focusableIds);
            id in s.collections && s.collections[id].pageIndex == 0 && s.collections[id].serverPage == None
  {
    hide DescriptorOf, Descriptors, Keyed, Overlay;
    DescriptorsCover(ir, InitPages(lib, None));
    NothingSent(lib, DescriptorOf(ir, id).value);
  }

  lemma NoRowsNoPages(lib: Library, ir: Ir, values: map<string, ControlValue>, d: Descriptor, entry: CollectionState)
    requires entry.serverPage == None
    ensures Select(lib, ir, None, values, d, entry).pageCount == 1
  {
    hide OptionsOf, KeysOf, PageRows;
    PageCountOfNothing(entry.pageSize);
    hide RunTerminalCollection;
    assert Items(lib, None, d) == [];
    NoRows(lib, OptionsOf(lib, ir, values, d));
  }

  lemma NoRows(lib: Library, o: Options)
    ensures RunTerminalCollection(lib, [], o) == []
  {
    assert AllRows(0) == [];
  }

  // ----- Pages that undo each other -----

  /**
   Going on a page is undone by going back; going back is undone by going on exactly when one was not on the first
   page.
   */
  lemma PageMovesBack(lib: Library, ir: Ir, s: State, id: string, focusableIds: seq<string>)
    requires CollectionsFit(ir, s.collections) && id in s.collections
    ensures Reduce(lib, ir, Reduce(lib, ir, s, PageNext(id), focusableIds), PagePrevious(id), focusableIds) == s
    ensures Reduce(lib, ir, Reduce(lib, ir, s, PagePrevious(id), focusableIds), PageNext(id), focusableIds) == s
            <==> s.collections[id].pageIndex > 0
  {
    PageNextBack(lib, ir, s, id, focusableIds);
    PagePreviousOn(lib, ir, s, id, focusableIds);
  }

  lemma PageNextBack(lib: Library, ir: Ir, s: State, id: string, focusableIds: seq<string>)
    requires CollectionsFit(ir, s.collections) && id in s.collections
    ensures Reduce(lib, ir, Reduce(lib, ir, s, PageNext(id), focusableIds), PagePrevious(id), focusableIds) == s
  {
    hide DescriptorOf, Select;
    var c := s.collections[id];
    var on := Reduce(lib, ir, s, PageNext(id), focusableIds);
    assert on.collections[id := c] == s.collections;
  }

  lemma PagePreviousOn(lib: Library, ir: Ir, s: State, id: string, focusableIds: seq<string>)
    requires CollectionsFit(ir, s.collections) && id in s.collections
    ensures Reduce(lib, ir, Reduce(lib, ir, s, PagePrevious(id), focusableIds), PageNext(id), focusableIds) == s
            <==> s.collections[id].pageIndex > 0
  {
    hide DescriptorOf, Select;
    var c := s.collections[id];
    var back := Reduce(lib, ir, s, PagePrevious(id), focusableIds);
    assert back.collections[id := c] == s.collections;
  }

  // ----- Runs -----

  /** Every event meets the condition of its action in the state it finds. */
  ghost predicate RunKeepsPages(lib: Library, ir: Ir, s: State, events: seq<Event>)
    decreases |events|
  {
    events == []
    || (var before := events[..|events| - 1];
        && RunKeepsPages(lib, ir, s, before)
        && KeyedBy(ir, Run(lib, ir, s, before).collections)
        && KeepsPages(lib, ir, Run(lib, ir, s, before), events[|events| - 1].action))
  }

  /** Along a run of such events every stored page index stays the one shown. */
  lemma {:induction false} RunStaysSettled(lib: Library, ir: Ir, s: State, events: seq<Event>)
    requires UniqueControls(ir.controls) && RefsFit(ir) && Valid(lib, ir, s) && Settled(lib, ir, s)
    requires RunKeepsPages(lib, ir, s, events)
    ensures Valid(lib, ir, Run(lib, ir, s, events)) && Settled(lib, ir, Run(lib, ir, s, events))
    decreases |events|
  {
    hide Valid, Settled, Reduce, KeepsPages, UniqueControls, RefsFit;
    if events != [] {
      var before, last := events[..|events| - 1], events[|events| - 1];
      RunStaysSettled(lib, ir, s, before);
      var found := Run(lib, ir, s, before);
      SettledExactly(lib, ir, found, last.action, last.focusableIds);
      ReduceKeepsValid(lib, ir, found, last.action, last.focusableIds);
    }
  }
}
