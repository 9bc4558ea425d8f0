/**
 What each action of the reducer does to the state, in terms of the description,
 the payload and the places in lists (tui/src/oven-runtime/state-runtime.ts).
 */
module TerminalActions {
  import opened Wrappers
  import opened Json
  import opened TerminalRows
  import opened TerminalIr
  import opened TerminalState
  import opened TerminalControls
  import Arithmetic
  import ItemKeys
  import P = TerminalPages
  import R = TerminalRuns

  // ----- Setting a control

  predicate SetsControl(action: Action) {
    action.ModeSelected? || action.QueryChanged? || action.DomainSelected? || action.ToggleChanged?
  }

  /** The control is one the action is for, and offers the value. */
  ghost predicate Suits(lib: Library, ir: Ir, s: State, action: Action, c: Control)
    requires SetsControl(action)
  {
    && c.id == action.id
    && match action
       case ModeSelected(_, value) => c.kind == "mode-toggle" && ModeOffered(ir, c, value)
       case DomainSelected(_, value) => c.kind == "domain-tabs" && Offered(lib, ir, s.payload, c, value)
       case QueryChanged(_, _) => c.kind == "search"
       case _ => c.kind == "filter-toggle" || c.kind == "sort-toggle"
  }

  /** The first control with the id of the action suits it. */
  ghost predicate Takes(lib: Library, ir: Ir, s: State, action: Action)
    requires SetsControl(action)
  {
    exists c, k: nat :: P.FirstAt(ir.controls, c, k) && Suits(lib, ir, s, action, c)
  }

  function ValueSet(action: Action): ControlValue
    requires SetsControl(action)
  {
    if action.ToggleChanged? then Flag(action.active) else Chosen(action.value)
  }

  /** The collection names the control as its search, filter or sort. */
  predicate NamedBy(ir: Ir, collection: string, id: string) {
    var d := DescriptorOf(ir, collection);
    d.Some? && (d.value.searchFrom == Some(id) || d.value.filterFrom == Some(id) || d.value.sortFrom == Some(id))
  }

  lemma SuitingControl(lib: Library, ir: Ir, s: State, action: Action)
    requires SetsControl(action)
    ensures Takes(lib, ir, s, action)
       <==> FindControl(ir.controls, action.id).Some?
            && Suits(lib, ir, s, action, FindControl(ir.controls, action.id).value)
  {
    hide Suits, P.FirstAt;
    var found := FindControl(ir.controls, action.id);
    forall c: Control | c.id == action.id
      ensures found == Some(c) <==> exists k: nat :: P.FirstAt(ir.controls, c, k)
    {
      P.FirstIsFound(ir.controls, c);
    }
    assert forall c :: Suits(lib, ir, s, action, c) ==> c.id == action.id by { SuitingId(lib, ir, s, action); }
  }

  lemma SuitingId(lib: Library, ir: Ir, s: State, action: Action)
    requires SetsControl(action)
    ensures forall c :: Suits(lib, ir, s, action, c) ==> c.id == action.id
  {
  }

  /**
   A choice is taken exactly when the first control of its id is of the right
   kind and offers it; then the control holds it, the collections that name a
   search or a toggle go to page 0, and nothing else changes.
   */
  lemma ChoiceIsExact(lib: Library, ir: Ir, s: State, action: Action, focusableIds: seq<string>)
    requires SetsControl(action) && R.CollectionsFit(ir, s.collections)
    ensures var next := Reduce(lib, ir, s, action, focusableIds);
            if !Takes(lib, ir, s, action) then next == s
            else
              && next == s.(controls := s.controls[action.id := ValueSet(action)], collections := next.collections)
              && next.collections.Keys == s.collections.Keys
              && forall key :: key in s.collections ==>
                   next.collections[key]
                   == if (action.QueryChanged? || action.ToggleChanged?) && NamedBy(ir, key, action.id)
                      then s.collections[key].(pageIndex := 0) else s.collections[key]
  {
    hide Takes, ModeOffered, Offered, ResetPages, ModeValues, DomainValues, FindControl, DescriptorOf;
    SuitingControl(lib, ir, s, action);
    R.ResetKeepsFit(ir, s, action.id);
    var found := FindControl(ir.controls, action.id);
    if found.Some? && (action.ModeSelected? || action.DomainSelected?) {
      FoundId(ir.controls, action.id);
      OfferIsExact(lib, ir, s.payload, found.value, action.value);
      ModesAreExact(ir.root, found.value.id, action.value);
      ModeOfferedIsDeclared(ir, found.value, action.value);
      OfferByKind(lib, ir, s.payload, found.value);
    }
  }

  lemma FoundId(controls: seq<Control>, id: string)
    ensures FindControl(controls, id).Some? ==> FindControl(controls, id).value.id == id
  {
  }

  lemma ModeOfferedIsDeclared(ir: Ir, c: Control, value: string)
    ensures ModeOffered(ir, c, value) <==> Declared(ir.root, c.id, value)
  {
    hide TopMode, IsOption;
  }

  lemma OfferByKind(lib: Library, ir: Ir, payload: Option<Json>, c: Control)
    ensures c.kind == "domain-tabs" ==> Offer(lib, ir, payload, c) == DomainValues(lib, payload, c)
  {
  }

  // ----- Paging

  /** The page size is this whole number, and one that is allowed. */
  predicate IsSize(size: real, n: int) {
    1 <= n <= 0x1f_ffff_ffff_ffff && size == n as real
  }

  /** A paging action acts on a described collection with an entry, and there on the entry alone. */
  lemma PagingIsExact(lib: Library, ir: Ir, s: State, action: Action, focusableIds: seq<string>)
    requires action.PagePrevious? || action.PageNext? || action.PageSizeChanged?
    ensures var (next, id) := (Reduce(lib, ir, s, action, focusableIds), action.collectionId);
            if DescriptorOf(ir, id).None? || id !in s.collections then next == s
            else
              && id in next.collections
              && next == s.(collections := s.collections[id := next.collections[id]])
              && var (was, now) := (s.collections[id], next.collections[id]);
                 match action
                 case PageNext(_) => now == was.(pageIndex := was.pageIndex + 1)
                 case PagePrevious(_) => now == was.(pageIndex := if was.pageIndex >= 1 then was.pageIndex - 1 else 0)
                 case PageSizeChanged(_, size) =>
                   && (forall n :: IsSize(size, n) ==>
                         now.pageSize == n && now.pageIndex == 0 && now.serverPage == was.serverPage)
                   && ((forall n :: !IsSize(size, n)) ==> now == was)
                 case _ => true
  {
    hide DescriptorOf;
    if action.PageSizeChanged? {
      var size := action.pageSize;
      assert SafeInteger(size) && size >= 1.0 ==> IsSize(size, size.Floor);
      forall n | IsSize(size, n) ensures SafeInteger(size) && size >= 1.0 && n == size.Floor {
        WholeNumber(size, n);
      }
    }
  }

  // ----- Focus

  /** The id stands at `k` in the list, and nowhere before. */
  predicate FirstPlace(ids: seq<string>, id: string, k: nat) {
    k < |ids| && ids[k] == id && id !in ids[..k]
  }

  /** Where the focus counts as standing: its first place in the list, or the first place of all. */
  ghost predicate StandsIn(ids: seq<string>, focus: Option<string>, k: nat) {
    if focus.Some? && focus.value in ids then FirstPlace(ids, focus.value, k) else k == 0
  }

  lemma IndexStandsIn(ids: seq<string>, focus: Option<string>, k: nat)
    requires ids != []
    ensures StandsIn(ids, focus, k) <==> k == ItemKeys.IndexOf(ids, focus.GetOr(ids[0]))
  {
    var place := ItemKeys.IndexOf(ids, focus.GetOr(ids[0]));
    assert forall j :: 0 <= j < |ids| ==> ids[j] in ids;
    if k < |ids| {
      assert forall j :: 0 <= j < k ==> ids[..k][j] == ids[j];
    }
  }

  /** The focus moves to the neighbouring place and stops at both ends; setting it takes only what is in the list. */
  lemma FocusIsExact(lib: Library, ir: Ir, s: State, action: Action, ids: seq<string>)
    requires action.FocusNext? || action.FocusPrevious? || action.FocusSet?
    ensures var next := Reduce(lib, ir, s, action, ids);
            && next == s.(focusId := next.focusId)
            && (action.FocusSet? ==> next.focusId == if action.id in ids then Some(action.id) else s.focusId)
            && (!action.FocusSet? && ids == [] ==> next.focusId == None)
            && (!action.FocusSet? ==> forall k: nat :: k < |ids| && StandsIn(ids, s.focusId, k) ==>
                  next.focusId == Some(if action.FocusNext? then (if k + 1 < |ids| then ids[k + 1] else ids[k])
                                       else if k > 0 then ids[k - 1] else ids[0]))
  {
    hide StandsIn, ItemKeys.IndexOf;
    if ids != [] {
      forall k: nat ensures StandsIn(ids, s.focusId, k) <==> k == ItemKeys.IndexOf(ids, s.focusId.GetOr(ids[0])) {
        IndexStandsIn(ids, s.focusId, k);
      }
    }
  }

  /** After a payload the focus stays where it is still on offer, and goes to the first place otherwise. */
  lemma PayloadMovesFocus(lib: Library, ir: Ir, s: State, payload: Json, ids: seq<string>)
    requires "" !in ids
    ensures Reduce(lib, ir, s, PayloadAccepted(payload), ids).focusId
         == if s.focusId.Some? && s.focusId.value in ids then s.focusId else if ids == [] then None else Some(ids[0])
  {
  }

  // ----- Selection

  /** The keys of the page a collection shows. */
  function PageKeys(lib: Library, ir: Ir, s: State, id: string): seq<string>
    requires DescriptorOf(ir, id).Some? && id in s.collections
  {
    Select(lib, ir, s.payload, s.controls, DescriptorOf(ir, id).value, s.collections[id]).itemKeys
  }

  lemma SelectionMoves(lib: Library, ir: Ir, s: State, id: string, direction: Direction, ids: seq<string>)
    requires DescriptorOf(ir, id).Some? && id in s.collections && PageKeys(lib, ir, s, id) != []
    ensures var keys := PageKeys(lib, ir, s, id);
            Reduce(lib, ir, s, SelectionMoved(id, direction), ids)
            == s.(selections := s.selections[id := ItemKeys.Move(keys, Lookup(s.selections, id).GetOr(keys[0]),
                                                                 Step(direction))])
  {
    hide Select, DescriptorOf, ItemKeys.Move;
  }

  /** A selection on a page goes to the next key, or the one before, around the page; nothing else changes. */
  lemma SelectionIsExact(lib: Library, ir: Ir, s: State, id: string, direction: Direction, ids: seq<string>, k: nat)
    requires DescriptorOf(ir, id).Some? && id in s.collections
    requires k < |PageKeys(lib, ir, s, id)| && StandsIn(PageKeys(lib, ir, s, id), Lookup(s.selections, id), k)
    ensures var keys := PageKeys(lib, ir, s, id);
            var next := if direction.Forth? then (if k + 1 < |keys| then keys[k + 1] else keys[0])
                        else if k > 0 then keys[k - 1] else keys[|keys| - 1];
            Reduce(lib, ir, s, SelectionMoved(id, direction), ids) == s.(selections := s.selections[id := next])
  {
    hide PageKeys, StandsIn, ItemKeys.IndexOf, DescriptorOf, Reduce;
    var keys := PageKeys(lib, ir, s, id);
    SelectionMoves(lib, ir, s, id, direction, ids);
    IndexStandsIn(keys, Lookup(s.selections, id), k);
    Around(k, |keys|);
  }

  lemma Around(k: nat, n: nat)
    requires k < n
    ensures (k + 1 + n) % n == if k + 1 < n then k + 1 else 0
    ensures (k - 1 + n) % n == if k > 0 then k - 1 else n - 1
  {
    if k + 1 < n {
      Remainder(k + 1 + n, n, 1, k + 1);
    } else {
      Remainder(k + 1 + n, n, 2, 0);
    }
    if k > 0 {
      Remainder(k - 1 + n, n, 1, k - 1);
    } else {
      Remainder(n - 1, n, 0, n - 1);
    }
  }

  lemma Remainder(i: nat, n: nat, q: nat, r: nat)
    requires r < n && i == q * n + r
    ensures i % n == r
  {
    Arithmetic.DivModUnique(i, n, q, r);
  }
}
