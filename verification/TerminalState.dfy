/**
 The state machine of a terminal oven
 (tui/src/oven-runtime/state-runtime.ts): controls, pages, selections, focus
 and expansion, all reconciled whenever a payload is accepted.
 */
module TerminalState {
  import opened Wrappers
  import opened Json
  import opened TerminalRows
  import opened TerminalIr
  import ItemKeys

  datatype State = State(controls: map<string, ControlValue>, collections: map<string, CollectionState>,
                         selections: map<string, string>, focusId: Option<string>, expandedKeys: seq<string>,
                         payload: Option<Json>, payloadRevision: nat)

  datatype Direction = Back | Forth

  datatype Action =
    | PayloadAccepted(payload: Json)
    | ModeSelected(id: string, value: string)
    | QueryChanged(id: string, value: string)
    | DomainSelected(id: string, value: string)
    | ToggleChanged(id: string, active: bool)
    | PagePrevious(collectionId: string)
    | PageNext(collectionId: string)
    | PageSizeChanged(collectionId: string, pageSize: real)
    | SelectionMoved(collectionId: string, direction: Direction)
    | MediaFrameMoved(direction: Direction)
    | ToggleExpanded(key: string)
    | FocusNext
    | FocusPrevious
    | FocusSet(id: string)

  function Step(direction: Direction): (step: int)
    ensures step == 1 || step == -1
  {
    if direction.Forth? then 1 else -1
  }

  // ----- Controls -----

  function First(values: seq<string>): string {
    if values == [] then "" else values[0]
  }

  /** What is wanted if it is offered, else the first of the offer, else "". */
  function Pick(values: seq<string>, wanted: Option<string>): string {
    if wanted.Some? && wanted.value in values then wanted.value else First(values)
  }

  function TextOf(value: Option<Json>): Option<string> {
    match value
    case Some(Text(text)) => Some(text)
    case _ => None
  }

  function DomainValues(lib: Library, payload: Option<Json>, c: Control): seq<string> {
    Domains(Pointed(lib, payload, TextAt(c.attributes, "source")))
  }

  /** What a control starts from: a domain follows the payload, a mode the description. */
  function Wanted(lib: Library, payload: Option<Json>, c: Control): Option<string> {
    if c.kind == "domain-tabs" then TextOf(Pointed(lib, payload, TextAt(c.attributes, "initialSource")))
    else TextAt(c.attributes, "initial")
  }

  function Offer(lib: Library, ir: Ir, payload: Option<Json>, c: Control): seq<string> {
    if c.kind == "domain-tabs" then DomainValues(lib, payload, c) else ModeValues(ir.root, c.id)
  }

  predicate Available(lib: Library, payload: Option<Json>, c: Control) {
    var source := TextAt(c.attributes, "requiresSource");
    source.None? || StrictlyEqual(Pointed(lib, payload, source), Get(c.attributes, "requiresValue"))
  }

  /** `===` of values from two different places: lists and records are never the same object. */
  predicate StrictlyEqual(a: Option<Json>, b: Option<Json>) {
    a == b && (a.Some? ==> !IsObject(a.value))
  }

  predicate InitiallyOn(c: Control) {
    Get(c.attributes, "initial") in {Some(Json.Text("on")), Some(Json.Bool(true))}
  }

  function InitControl(lib: Library, ir: Ir, payload: Option<Json>, c: Control): ControlValue {
    if c.kind == "search" then Chosen("")
    else if c.kind == "domain-tabs" || c.kind == "mode-toggle" then
      Chosen(Pick(Offer(lib, ir, payload, c), Wanted(lib, payload, c)))
    else Flag((payload.None? || Available(lib, payload, c)) && InitiallyOn(c))
  }

  /** What a refresh makes of a control's value; None leaves it alone. */
  function RefreshControl(lib: Library, ir: Ir, payload: Json, seeded: set<string>, c: Control,
                          current: Option<ControlValue>): Option<ControlValue> {
    if c.kind == "domain-tabs" || c.kind == "mode-toggle" then
      var values := Offer(lib, ir, Some(payload), c);
      match current
      case Some(Chosen(text)) =>
        Some(Chosen(if text in values then text else Pick(values, Wanted(lib, Some(payload), c))))
      case _ => Some(Chosen(Pick(values, Wanted(lib, Some(payload), c))))
    else if c.kind == "filter-toggle" || c.kind == "sort-toggle" then
      var available := Available(lib, Some(payload), c);
      match current
      case Some(Flag(on)) =>
        Some(Flag(if c.id in seeded || available then on else false))
      case _ => Some(Flag(available && InitiallyOn(c)))
    else None
  }

  /** The first `n` controls written over `base`, as far as `f` gives them a value. */
  function Overlay(base: map<string, ControlValue>, controls: seq<Control>, n: nat,
                   f: Control -> Option<ControlValue>): map<string, ControlValue>
    requires n <= |controls|
  {
    if n == 0 then base
    else
      var before, value := Overlay(base, controls, n - 1, f), f(controls[n - 1]);
      if value.Some? then before[controls[n - 1].id := value.value] else before
  }

  predicate UniqueControls(controls: seq<Control>) {
    forall i, j :: 0 <= i < j < |controls| ==> controls[i].id != controls[j].id
  }

  lemma {:induction false} OverlayAt(base: map<string, ControlValue>, controls: seq<Control>, n: nat,
                                     f: Control -> Option<ControlValue>)
    requires n <= |controls| && UniqueControls(controls)
    ensures forall i :: 0 <= i < |controls| ==>
              Lookup(Overlay(base, controls, n, f), controls[i].id)
              == if i < n && f(controls[i]).Some? then f(controls[i]) else Lookup(base, controls[i].id)
    ensures forall id ::
        id in Overlay(base, controls, n, f)
        ==> id in base || exists i :: 0 <= i < n && controls[i].id == id
    ensures base.Keys <= Overlay(base, controls, n, f).Keys
  {
    if n > 0 {
      OverlayAt(base, controls, n - 1, f);
    }
  }

  // ----- Collections -----

  /** The first `n` descriptors, each with what `f` makes of it. */
  function Keyed(ds: seq<Descriptor>, n: nat, f: Descriptor -> CollectionState): map<string, CollectionState>
    requires n <= |ds|
  {
    if n == 0 then map[] else Keyed(ds, n - 1, f)[ds[n - 1].declared.id := f(ds[n - 1])]
  }

  lemma {:induction false} DescriptorsAreOfIr(ir: Ir, collections: seq<Collection>)
    ensures forall d :: d in DescriptorsOf(ir, collections) ==> DescriptorOf(ir, d.declared.id) == Some(d)
    ensures forall c :: c in collections && DescriptorOf(ir, c.id).Some?
              ==> DescriptorOf(ir, c.id).value in DescriptorsOf(ir, collections)
  {
    hide DescriptorOf;
    if collections != [] {
      DescriptorsAreOfIr(ir, collections[1..]);
      DescriptorOfNamesItself(ir, collections[0].id);
      forall c | c in collections && DescriptorOf(ir, c.id).Some?
        ensures DescriptorOf(ir, c.id).value in DescriptorsOf(ir, collections)
      {
        assert c == collections[0] || c in collections[1..];
      }
    }
  }

  lemma DescriptorOfNamesItself(ir: Ir, id: string)
    ensures var found := DescriptorOf(ir, id);
            found.Some? ==> DescriptorOf(ir, found.value.declared.id) == found
  {
  }

  /** Exactly the described collections have an entry. */
  ghost predicate KeyedBy(ir: Ir, collections: map<string, CollectionState>) {
    forall id :: id in collections <==> DescriptorOf(ir, id).Some?
  }

  lemma {:induction false} KeyedAt(ir: Ir, ds: seq<Descriptor>, n: nat, f: Descriptor -> CollectionState)
    requires n <= |ds| && forall d :: d in ds ==> DescriptorOf(ir, d.declared.id) == Some(d)
    ensures forall i :: 0 <= i < n ==> ds[i].declared.id in Keyed(ds, n, f)
    ensures forall id :: id in Keyed(ds, n, f) ==>
              DescriptorOf(ir, id).Some? && Keyed(ds, n, f)[id] == f(DescriptorOf(ir, id).value)
  {
    hide DescriptorOf;
    if n > 0 {
      assert ds[n - 1] in ds;
      KeyedAt(ir, ds, n - 1, f);
    }
  }

  lemma DescriptorsCover(ir: Ir, f: Descriptor -> CollectionState)
    ensures var m := Keyed(Descriptors(ir), |Descriptors(ir)|, f);
            && KeyedBy(ir, m)
            && forall id :: id in m ==> m[id] == f(DescriptorOf(ir, id).value)
  {
    hide Keyed, DescriptorsOf;
    var ds := Descriptors(ir);
    DescriptorsAreOfIr(ir, ir.collections);
    KeyedAt(ir, ds, |ds|, f);
    forall id | DescriptorOf(ir, id).Some?
      ensures id in Keyed(ds, |ds|, f)
    {
      var d := DescriptorOf(ir, id).value;
      assert d.declared in ir.collections;
      assert d in ds;
      var i :| 0 <= i < |ds| && ds[i] == d;
      assert ds[i].declared.id == id;
    }
  }

  function DefaultSize(d: Descriptor): Positive {
    var size := d.declared.pageSize.GetOr(25);
    if size > 1 then size else 1
  }

  function SentPage(lib: Library, payload: Option<Json>, d: Descriptor): Option<ServerPage> {
    if ServerPaged(d) then ServerPageOf(lib, payload, d.declared.source) else None
  }

  function InitCollection(lib: Library, payload: Option<Json>, d: Descriptor): CollectionState {
    match SentPage(lib, payload, d)
    case Some(page) => CollectionState(page.page, page.pageSize, Some(page))
    case None => CollectionState(0, DefaultSize(d), None)
  }

  /** A collection under a new payload, before its page index is brought into range. */
  function Seeded(lib: Library, payload: Json, d: Descriptor, current: Option<CollectionState>): CollectionState {
    var was := current.GetOr(CollectionState(0, DefaultSize(d), None));
    match SentPage(lib, Some(payload), d)
    case Some(page) => CollectionState(page.page, page.pageSize, Some(page))
    case None => was.(serverPage := None)
  }

  function RefreshCollection(lib: Library, ir: Ir, payload: Json, values: map<string, ControlValue>, d: Descriptor,
                             current: Option<CollectionState>): CollectionState {
    var seeded := Seeded(lib, payload, d, current);
    seeded.(pageIndex := Select(lib, ir, Some(payload), values, d, seeded).pageIndex)
  }

  predicate Consumes(d: Descriptor, id: string) {
    Some(id) in {d.searchFrom, d.filterFrom, d.sortFrom}
  }

  // ----- Starting, refreshing, resetting -----

  function InitValues(lib: Library, ir: Ir, payload: Option<Json>): Control -> Option<ControlValue> {
    (c: Control) => Some(InitControl(lib, ir, payload, c))
  }

  function InitPages(lib: Library, payload: Option<Json>): Descriptor -> CollectionState {
    (d: Descriptor) => InitCollection(lib, payload, d)
  }

  /** `focusableIds[0]` where it names something. */
  function FirstFocus(focusableIds: seq<string>): Option<string> {
    if focusableIds == [] || focusableIds[0] == "" then None else Some(focusableIds[0])
  }

  function Init(lib: Library, ir: Ir, payload: Option<Json>, focusableIds: seq<string>): State {
    var ds := Descriptors(ir);
    State(Overlay(map[], ir.controls, |ir.controls|, InitValues(lib, ir, payload)),
          Keyed(ds, |ds|, InitPages(lib, payload)),
          map[], FirstFocus(focusableIds), [], payload, 0)
  }

  /** `initTerminalRuntime`. */
  method InitTerminalRuntime(lib: Library, ir: Ir, payload: Option<Json>, focusableIds: seq<string>)
    returns (state: State)
    ensures state == Init(lib, ir, payload, focusableIds)
  {
    hide InitControl, InitCollection, Descriptors;
    var controls: map<string, ControlValue>, collections: map<string, CollectionState> := map[], map[];
    for i := 0 to |ir.controls|
      invariant controls == Overlay(map[], ir.controls, i, InitValues(lib, ir, payload))
    {
      controls := controls[ir.controls[i].id := InitControl(lib, ir, payload, ir.controls[i])];
    }
    var ds := Descriptors(ir);
    for i := 0 to |ds|
      invariant collections == Keyed(ds, i, InitPages(lib, payload))
    {
      collections := collections[ds[i].declared.id := InitCollection(lib, payload, ds[i])];
    }
    state := State(controls, collections, map[], FirstFocus(focusableIds), [], payload, 0);
  }

  function Named(id: Option<string>): set<string> {
    if id.Some? then {id.value} else {}
  }

  /** The controls the server applies itself: those of collections it has already paged. */
  function ServerControls(ds: seq<Descriptor>, collections: map<string, CollectionState>): set<string> {
    if ds == [] then {}
    else
      var d, rest := ds[0], ServerControls(ds[1..], collections);
      if d.declared.id in collections && collections[d.declared.id].serverPage.Some? && ServerPaged(d) then
        Named(d.searchFrom) + Named(d.sortFrom) + Named(d.filterFrom) + rest
      else rest
  }

  function RefreshValues(lib: Library, ir: Ir, payload: Json, s: State): Control -> Option<ControlValue> {
    (c: Control) => RefreshControl(lib, ir, payload, ServerControls(Descriptors(ir), s.collections), c,
        Lookup(s.controls, c.id))
  }

  function RefreshPages(lib: Library, ir: Ir, payload: Json, values: map<string, ControlValue>,
                        s: State): Descriptor -> CollectionState {
    (d: Descriptor) => RefreshCollection(lib, ir, payload, values, d, Lookup(s.collections, d.declared.id))
  }

  /** `normalizeRefresh`: every control and every page index is brought in line with the new payload. */
  function Refresh(lib: Library, ir: Ir, s: State, payload: Json): State {
    var ds := Descriptors(ir);
    var controls := Overlay(s.controls, ir.controls, |ir.controls|, RefreshValues(lib, ir, payload, s));
    s.(payload := Some(payload), payloadRevision := s.payloadRevision + 1, controls := controls,
       collections := Keyed(ds, |ds|, RefreshPages(lib, ir, payload, controls, s)))
  }

  method NormalizeRefresh(lib: Library, ir: Ir, s: State, payload: Json) returns (next: State)
    requires UniqueControls(ir.controls)
    ensures next == Refresh(lib, ir, s, payload)
  {
    hide RefreshControl, RefreshCollection, Descriptors, UniqueControls, Overlay, Keyed;
    var ds := Descriptors(ir);
    var seeded := ServerControls(ds, s.collections);
    var controls := s.controls;
    NothingOverlaid(s.controls, ir.controls, RefreshValues(lib, ir, payload, s));
    for i := 0 to |ir.controls|
      invariant controls == Overlay(s.controls, ir.controls, i, RefreshValues(lib, ir, payload, s))
    {
      OverlayAt(s.controls, ir.controls, i, RefreshValues(lib, ir, payload, s));
      OverlayOne(s.controls, ir.controls, i, RefreshValues(lib, ir, payload, s));
      var c := ir.controls[i];
      var value := RefreshControl(lib, ir, payload, seeded, c, Lookup(controls, c.id));
      if value.Some? {
        controls := controls[c.id := value.value];
      }
    }
    var collections: map<string, CollectionState> := map[];
    NothingKeyed(ds, RefreshPages(lib, ir, payload, controls, s));
    for i := 0 to |ds|
      invariant collections == Keyed(ds, i, RefreshPages(lib, ir, payload, controls, s))
    {
      KeyedOne(ds, i, RefreshPages(lib, ir, payload, controls, s));
      var d := ds[i];
      collections := collections[d.declared.id :=
        RefreshCollection(lib, ir, payload, controls, d, Lookup(s.collections, d.declared.id))];
    }
    next := s.(payload := Some(payload), payloadRevision := s.payloadRevision + 1, controls := controls,
               collections := collections);
  }

  lemma NothingOverlaid(base: map<string, ControlValue>, controls: seq<Control>, f: Control -> Option<ControlValue>)
    ensures Overlay(base, controls, 0, f) == base
  {
  }

  lemma OverlayOne(base: map<string, ControlValue>, controls: seq<Control>, i: nat, f: Control -> Option<ControlValue>)
    requires i < |controls|
    ensures var before, value := Overlay(base, controls, i, f), f(controls[i]);
            Overlay(base, controls, i + 1, f) == if value.Some? then before[controls[i].id := value.value] else before
  {
  }

  lemma NothingKeyed(ds: seq<Descriptor>, f: Descriptor -> CollectionState)
    ensures Keyed(ds, 0, f) == map[]
  {
  }

  lemma KeyedOne(ds: seq<Descriptor>, i: nat, f: Descriptor -> CollectionState)
    requires i < |ds|
    ensures Keyed(ds, i + 1, f) == Keyed(ds, i, f)[ds[i].declared.id := f(ds[i])]
  {
  }

  /** The pages after a control changed: its consumers start over. */
  function Reset(collections: map<string, CollectionState>, ds: seq<Descriptor>, n: nat, id: string)
    : map<string, CollectionState>
    requires n <= |ds|
  {
    if n == 0 then collections
    else
      var before, d := Reset(collections, ds, n - 1, id), ds[n - 1];
      if Consumes(d, id) && d.declared.id in before
      then before[d.declared.id := before[d.declared.id].(pageIndex := 0)]
      else before
  }

  /** `resetConsumers`. */
  method ResetConsumers(s: State, ir: Ir, id: string) returns (next: map<string, CollectionState>)
    ensures next == Reset(s.collections, Descriptors(ir), |Descriptors(ir)|, id)
  {
    hide Descriptors;
    var ds := Descriptors(ir);
    next := s.collections;
    for i := 0 to |ds|
      invariant next == Reset(s.collections, ds, i, id)
    {
      var key := ds[i].declared.id;
      if Consumes(ds[i], id) && key in next {
        next := next[key := next[key].(pageIndex := 0)];
      }
    }
  }

  // ----- The reducer -----

  function ResetPages(s: State, ir: Ir, id: string): map<string, CollectionState> {
    Reset(s.collections, Descriptors(ir), |Descriptors(ir)|, id)
  }

  function MoveFocus(s: State, focusableIds: seq<string>, step: int): State {
    if focusableIds == [] then s.(focusId := None)
    else
      var place := ItemKeys.IndexOf(focusableIds, s.focusId.GetOr(focusableIds[0]));
      s.(focusId := Some(focusableIds[Clamp(place + step, |focusableIds|)]))
  }

  /** After a refresh the focus stays where it can, else goes to the first place. */
  function Refocus(s: State, focusableIds: seq<string>): State {
    if s.focusId.GetOr("") in focusableIds then s else s.(focusId := FirstFocus(focusableIds))
  }

  function Without(keys: seq<string>, key: string): seq<string> {
    if keys == [] then []
    else if keys[0] == key then Without(keys[1..], key)
    else [keys[0]] + Without(keys[1..], key)
  }

  function Toggle(keys: seq<string>, key: string): seq<string> {
    if key == "" then keys else if key in keys then Without(keys, key) else keys + [key]
  }

  function MoveSelection(lib: Library, ir: Ir, s: State, id: string, direction: Direction): State {
    var d := DescriptorOf(ir, id);
    if d.None? || id !in s.collections then s
    else
      var keys := Select(lib, ir, s.payload, s.controls, d.value, s.collections[id]).itemKeys;
      if keys == [] then s
      else
        var selected := Lookup(s.selections, id).GetOr(keys[0]);
        s.(selections := s.selections[id := ItemKeys.Move(keys, selected, Step(direction))])
  }

  /** The number of frames the selected domain has. */
  function FrameCount(lib: Library, ir: Ir, s: State): nat {
    match FirstDomain(ir.controls)
    case None => 0
    case Some(c) =>
      var domain := ControlText(lib, s.controls, c.id);
      if domain == "" || s.payload.None? || !IsObject(s.payload.value) then 0
      else
        match lib.resolve(s.payload.value, "/byDomain/" + domain + "/frames")
        case Some(List(frames)) => |frames|
        case _ => 0
  }

  function FirstDomain(controls: seq<Control>): Option<Control> {
    if controls == [] then None
    else if controls[0].kind == "domain-tabs" then Some(controls[0])
    else FirstDomain(controls[1..])
  }

  /** `Number` of a stored frame, which is a numeral unless a collection is called `frame-card`. */
  function StoredFrame(lib: Library, s: State): int {
    match Lookup(s.selections, "frame-card")
    case None => 0
    case Some(text) => NumberOf(lib, Json.Text(text)).GetOr(0.0).Floor
  }

  function MoveFrame(lib: Library, ir: Ir, s: State, direction: Direction): State {
    var count := FrameCount(lib, ir, s);
    if count == 0 then s
    else
      var frame := (Clamp(StoredFrame(lib, s), count) + Step(direction) + count) % count;
      s.(selections := s.selections["frame-card" := ItemKeys.Digits(frame)])
  }

  /** Paging acts on described collections that have an entry. */
  function Paged(ir: Ir, s: State, id: string, f: CollectionState -> CollectionState): State {
    if DescriptorOf(ir, id).None? || id !in s.collections then s
    else s.(collections := s.collections[id := f(s.collections[id])])
  }

  function SetControl(s: State, id: string, value: ControlValue): State {
    s.(controls := s.controls[id := value])
  }

  /** `reduceTerminalRuntime`. */
  function Reduce(lib: Library, ir: Ir, s: State, action: Action, focusableIds: seq<string>): State {
    match action
    case PayloadAccepted(payload) => Refocus(Refresh(lib, ir, s, payload), focusableIds)
    case FocusNext => MoveFocus(s, focusableIds, 1)
    case FocusPrevious => MoveFocus(s, focusableIds, -1)
    case FocusSet(id) => if id in focusableIds then s.(focusId := Some(id)) else s
    case ToggleExpanded(key) => s.(expandedKeys := Toggle(s.expandedKeys, key))
    case SelectionMoved(id, direction) => MoveSelection(lib, ir, s, id, direction)
    case MediaFrameMoved(direction) => MoveFrame(lib, ir, s, direction)
    case PagePrevious(id) =>
      Paged(ir, s, id, (c: CollectionState) => c.(pageIndex := if c.pageIndex > 0 then c.pageIndex - 1 else 0))
    case PageNext(id) => Paged(ir, s, id, (c: CollectionState) => c.(pageIndex := c.pageIndex + 1))
    case PageSizeChanged(id, size) =>
      if SafeInteger(size) && size >= 1.0
      then Paged(ir, s, id, (c: CollectionState) => CollectionState(0, size.Floor, c.serverPage))
      else s
    case ModeSelected(id, value) =>
      (match FindControl(ir.controls, id)
       case Some(c) => if c.kind == "mode-toggle" && value in ModeValues(ir.root, id)
           then SetControl(s, id, Chosen(value)) else s
       case None => s)
    case QueryChanged(id, value) =>
      (match FindControl(ir.controls, id)
       case Some(c) => if c.kind == "search"
           then SetControl(s, id, Chosen(value)).(collections := ResetPages(s, ir, id)) else s
       case None => s)
    case DomainSelected(id, value) =>
      (match FindControl(ir.controls, id)
       case Some(c) =>
         if c.kind == "domain-tabs" && value in DomainValues(lib, s.payload, c) then SetControl(s, id, Chosen(value))
             else s
       case None => s)
    case ToggleChanged(id, active) =>
      (match FindControl(ir.controls, id)
       case Some(c) =>
         if c.kind == "filter-toggle" || c.kind == "sort-toggle"
         then SetControl(s, id, Flag(active)).(collections := ResetPages(s, ir, id))
         else s
       case None => s)
  }
}
