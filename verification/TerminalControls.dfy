/**
 The values of the controls in terms of the description and the payload: what a
 control offers, what it starts from, and when a toggle may be on
 (tui/src/oven-runtime/state-runtime.ts, ir-descriptor.ts).
 */
module TerminalControls {
  import opened Wrappers
  import opened Json
  import opened TerminalRows
  import opened TerminalIr
  import opened TerminalState
  import P = TerminalPages

  // ----- What the description and the payload say

  /** The payload holds this value where an attribute of the control points. */
  ghost predicate PointsTo(lib: Library, payload: Option<Json>, c: Control, attribute: string, value: Json) {
    payload.Some? && exists p :: P.HasText(c.attributes, attribute, p) && lib.resolve(payload.value, p) == Some(value)
  }

  /** An entry of a list of domains: the id itself, or a record with the id. */
  predicate IsDomain(entry: Json, id: string) {
    entry == Json.Text(id) || P.HasText(entry, "id", id)
  }

  /** The domain stands at `k` in the list the control points to. */
  ghost predicate DomainAt(lib: Library, payload: Option<Json>, c: Control, list: seq<Json>, k: nat, id: string) {
    PointsTo(lib, payload, c, "source", List(list)) && k < |list| && IsDomain(list[k], id)
  }

  predicate IsMode(node: Node, id: string) {
    node.kind == "mode-toggle" && P.HasText(node.attributes, "id", id)
  }

  /** A mode toggle of the tree with this id that lies below no other of that id. */
  ghost predicate TopMode(nodes: seq<Node>, id: string, node: Node) {
    exists k :: 0 <= k < |nodes| &&
      if IsMode(nodes[k], id) then node == nodes[k] else TopMode(nodes[k].children, id, node)
  }

  predicate IsOption(node: Node, value: string) {
    node.kind == "option" && P.HasText(node.attributes, "value", value)
  }

  ghost predicate ModeOffered(ir: Ir, c: Control, value: string) {
    exists node, k :: TopMode(ir.root, c.id, node) && 0 <= k < |node.children| && IsOption(node.children[k], value)
  }

  ghost predicate Offered(lib: Library, ir: Ir, payload: Option<Json>, c: Control, value: string) {
    if c.kind == "domain-tabs" then exists list, k: nat :: DomainAt(lib, payload, c, list, k, value)
    else ModeOffered(ir, c, value)
  }

  /** A domain follows the payload, a mode the description. */
  ghost predicate AskedFor(lib: Library, payload: Option<Json>, c: Control, value: string) {
    if c.kind == "domain-tabs" then PointsTo(lib, payload, c, "initialSource", Json.Text(value))
    else P.HasText(c.attributes, "initial", value)
  }

  /** Nothing is required, or the scalar that is required is there. */
  ghost predicate MayBeOn(lib: Library, payload: Option<Json>, c: Control) {
    || (forall p :: !P.HasText(c.attributes, "requiresSource", p))
    || (payload.Some? && exists p ::
          && P.HasText(c.attributes, "requiresSource", p)
          && match lib.resolve(payload.value, p)
             case None => !c.attributes.Record? || "requiresValue" !in c.attributes.fields
             case Some(value) =>
               && "requiresValue" in c.attributes.fields && c.attributes.fields["requiresValue"] == value
               && !value.List? && !value.Record?)
  }

  predicate StartsOn(c: Control) {
    && c.attributes.Record? && "initial" in c.attributes.fields
    && (c.attributes.fields["initial"] == Json.Text("on") || c.attributes.fields["initial"] == Json.Bool(true))
  }

  // ----- The runtime reads the same

  lemma PointedIsPointsTo(lib: Library, payload: Option<Json>, c: Control, attribute: string, value: Json)
    ensures Pointed(lib, payload, TextAt(c.attributes, attribute)) == Some(value)
       <==> PointsTo(lib, payload, c, attribute, value)
  {
    forall p ensures TextAt(c.attributes, attribute) == Some(p) <==> P.HasText(c.attributes, attribute, p) {
      P.TextIsHad(c.attributes, attribute, p);
    }
  }

  /** The first entry of the list that is a domain stands at `k` and has this id. */
  ghost predicate FirstDomainAt(list: seq<Json>, k: nat, id: string) {
    k < |list| && IsDomain(list[k], id) && forall j, other :: 0 <= j < k ==> !IsDomain(list[j], other)
  }

  lemma DomainIdsFirst(entry: Json, rest: seq<Json>)
    ensures DomainIds([entry] + rest) == DomainIds([entry]) + DomainIds(rest)
    ensures |DomainIds([entry])| <= 1
    ensures forall id :: id in DomainIds([entry]) <==> IsDomain(entry, id)
  {
    assert ([entry] + rest)[1..] == rest && [entry][1..] == [];
  }

  /** The ids of a list, in order: the first of them is that of the first entry that is a domain. */
  lemma {:induction false} DomainIdsAreExact(list: seq<Json>)
    ensures forall id :: id in DomainIds(list) <==> exists k: nat :: k < |list| && IsDomain(list[k], id)
    ensures DomainIds(list) != [] ==> exists k: nat :: FirstDomainAt(list, k, DomainIds(list)[0])
  {
    if list != [] {
      hide DomainIds, IsDomain;
      var rest := list[1..];
      DomainIdsAreExact(rest);
      assert list == [list[0]] + rest;
      DomainIdsFirst(list[0], rest);
      assert forall k: nat :: k < |rest| ==> rest[k] == list[k + 1];
      if DomainIds([list[0]]) != [] {
        assert DomainIds([list[0]])[0] in DomainIds([list[0]]);
        assert FirstDomainAt(list, 0, DomainIds(list)[0]);
      } else if DomainIds(rest) != [] {
        var k: nat :| FirstDomainAt(rest, k, DomainIds(rest)[0]);
        assert FirstDomainAt(list, k + 1, DomainIds(list)[0]);
      }
    }
  }

  lemma {:induction false} OptionsAreExact(children: seq<Node>, value: string)
    ensures value in OptionValues(children) <==> exists k :: 0 <= k < |children| && IsOption(children[k], value)
  {
    if children != [] {
      OptionsAreExact(children[1..], value);
      P.TextIsHad(children[0].attributes, "value", value);
      assert forall k :: 0 < k < |children| ==> children[k] == children[1..][k - 1];
    }
  }

  /** A value some topmost mode toggle among the nodes declares. */
  ghost predicate Declared(nodes: seq<Node>, id: string, value: string) {
    exists node, k :: TopMode(nodes, id, node) && 0 <= k < |node.children| && IsOption(node.children[k], value)
  }

  lemma {:induction false} ModesAreExact(nodes: seq<Node>, id: string, value: string)
    ensures value in ModeValues(nodes, id) <==> Declared(nodes, id, value)
    decreases nodes
  {
    if nodes != [] {
      ModesAreExact(nodes[1..], id, value);
      ModesAreExact(nodes[0].children, id, value);
      OptionsAreExact(nodes[0].children, value);
      P.TextIsHad(nodes[0].attributes, "id", id);
      forall node ensures TopMode(nodes, id, node)
                     <==> TopMode(nodes[1..], id, node)
                          || (if IsMode(nodes[0], id) then node == nodes[0] else TopMode(nodes[0].children, id, node)) {
        TopModeFirst(nodes, id, node);
      }
    }
  }

  lemma TopModeFirst(nodes: seq<Node>, id: string, node: Node)
    requires nodes != []
    ensures TopMode(nodes, id, node)
       <==> || TopMode(nodes[1..], id, node)
            || (if IsMode(nodes[0], id) then node == nodes[0] else TopMode(nodes[0].children, id, node))
  {
    assert forall k :: 0 < k < |nodes| ==> nodes[k] == nodes[1..][k - 1];
  }

  lemma OfferIsExact(lib: Library, ir: Ir, payload: Option<Json>, c: Control, value: string)
    ensures value in Offer(lib, ir, payload, c) <==> Offered(lib, ir, payload, c, value)
  {
    if c.kind == "domain-tabs" {
      DomainsAreExact(lib, payload, c, value);
    } else {
      ModesAreExact(ir.root, c.id, value);
    }
  }

  /** What the control points to is a list of domains, or nothing is on offer. */
  lemma DomainsAreExact(lib: Library, payload: Option<Json>, c: Control, value: string)
    ensures value in DomainValues(lib, payload, c) <==> exists list, k: nat :: DomainAt(lib, payload, c, list, k, value)
  {
    var source := Pointed(lib, payload, TextAt(c.attributes, "source"));
    forall list ensures PointsTo(lib, payload, c, "source", List(list)) <==> source == Some(List(list)) {
      PointedIsPointsTo(lib, payload, c, "source", List(list));
    }
    hide PointsTo, DomainIds, IsDomain;
    if source.Some? && source.value.List? {
      var list := source.value.items;
      DomainIdsAreExact(list);
      assert PointsTo(lib, payload, c, "source", List(list));
      forall k: nat | k < |list| && IsDomain(list[k], value) ensures DomainAt(lib, payload, c, list, k, value) {
      }
    }
  }

  /** The domain of the first entry that is one. */
  ghost predicate FirstOffered(lib: Library, payload: Option<Json>, c: Control, value: string) {
    exists list, k: nat :: PointsTo(lib, payload, c, "source", List(list)) && FirstDomainAt(list, k, value)
  }

  lemma FirstDomainIsExact(lib: Library, payload: Option<Json>, c: Control)
    ensures var offer := DomainValues(lib, payload, c);
            offer != [] ==> FirstOffered(lib, payload, c, offer[0])
  {
    var source := Pointed(lib, payload, TextAt(c.attributes, "source"));
    if source.Some? && source.value.List? {
      var list := source.value.items;
      PointedIsPointsTo(lib, payload, c, "source", List(list));
      hide PointsTo, IsDomain, DomainIds;
      DomainIdsAreExact(list);
      if DomainIds(list) != [] {
        var k: nat :| FirstDomainAt(list, k, DomainIds(list)[0]);
      }
    }
  }

  lemma WantedIsExact(lib: Library, payload: Option<Json>, c: Control, value: string)
    ensures Wanted(lib, payload, c) == Some(value) <==> AskedFor(lib, payload, c, value)
  {
    PointedIsPointsTo(lib, payload, c, "initialSource", Json.Text(value));
    P.TextIsHad(c.attributes, "initial", value);
    hide PointsTo;
  }

  lemma AvailabilityIsExact(lib: Library, payload: Json, c: Control)
    ensures Available(lib, Some(payload), c) <==> MayBeOn(lib, Some(payload), c)
    ensures InitiallyOn(c) <==> StartsOn(c)
  {
    forall p
      ensures TextAt(c.attributes, "requiresSource") == Some(p) <==> P.HasText(c.attributes, "requiresSource", p)
    {
      P.TextIsHad(c.attributes, "requiresSource", p);
    }
    hide P.HasText;
    var source := TextAt(c.attributes, "requiresSource");
    if source.Some? {
      assert P.HasText(c.attributes, "requiresSource", source.value);
    }
  }

  // ----- Choices and toggles, from the start and after a payload

  /**
   The value a choice falls to: the one asked for where it is on offer, else an
   offered one — of domains the first — and "" when nothing is on offer.
   */
  ghost predicate FallsTo(lib: Library, ir: Ir, payload: Option<Json>, c: Control, text: string) {
    && (forall w :: AskedFor(lib, payload, c, w) && Offered(lib, ir, payload, c, w) ==> text == w)
    && ((forall w :: AskedFor(lib, payload, c, w) ==> !Offered(lib, ir, payload, c, w)) ==>
          if exists w :: Offered(lib, ir, payload, c, w) then
            && Offered(lib, ir, payload, c, text)
            && (c.kind == "domain-tabs" ==> FirstOffered(lib, payload, c, text))
          else text == "")
  }

  lemma PickFalls(lib: Library, ir: Ir, payload: Option<Json>, c: Control)
    ensures FallsTo(lib, ir, payload, c, Pick(Offer(lib, ir, payload, c), Wanted(lib, payload, c)))
  {
    var offer, wanted := Offer(lib, ir, payload, c), Wanted(lib, payload, c);
    FirstDomainIsExact(lib, payload, c);
    forall w ensures w in offer <==> Offered(lib, ir, payload, c, w) { OfferIsExact(lib, ir, payload, c, w); }
    forall w ensures wanted == Some(w) <==> AskedFor(lib, payload, c, w) { WantedIsExact(lib, payload, c, w); }
    hide Offered, AskedFor, FirstOffered, DomainValues, Wanted, ModeValues;
    if offer != [] {
      assert offer[0] in offer;
    }
  }

  predicate IsChoice(c: Control) {
    c.kind == "domain-tabs" || c.kind == "mode-toggle"
  }

  /** The values controls start from. */
  lemma InitialValues(lib: Library, ir: Ir, payload: Option<Json>, focusableIds: seq<string>, i: nat)
    requires UniqueControls(ir.controls) && i < |ir.controls|
    ensures var (c, values) := (ir.controls[i], Init(lib, ir, payload, focusableIds).controls);
            && c.id in values
            && if c.kind == "search" then values[c.id] == Chosen("")
               else if IsChoice(c) then values[c.id].Chosen? && FallsTo(lib, ir, payload, c, values[c.id].text)
               else values[c.id] == Flag(StartsOn(c) && (payload.None? || MayBeOn(lib, payload, c)))
  {
    hide FallsTo, Offer, Wanted, Available, MayBeOn, StartsOn, InitiallyOn, Pick;
    OverlayAt(map[], ir.controls, |ir.controls|, InitValues(lib, ir, payload));
    var c := ir.controls[i];
    assert InitValues(lib, ir, payload)(c) == Some(InitControl(lib, ir, payload, c));
    PickFalls(lib, ir, payload, c);
    AvailabilityIsExact(lib, payload.GetOr(Json.Null), c);
  }

  /** A collection whose page the server has sent, and that the server pages, names the control. */
  ghost predicate ServerHolds(ir: Ir, collections: map<string, CollectionState>, id: string) {
    exists d: Descriptor :: DescriptorOf(ir, d.declared.id) == Some(d)
      && d.declared.id in collections && collections[d.declared.id].serverPage.Some?
      && (d.declared.paging == Some("server") || d.declared.paging == Some("auto"))
      && Some(id) in {d.searchFrom, d.filterFrom, d.sortFrom}
  }

  lemma {:induction false} ServedAmong(ds: seq<Descriptor>, collections: map<string, CollectionState>, id: string)
    ensures id in ServerControls(ds, collections)
       <==> exists d :: d in ds
              && d.declared.id in collections && collections[d.declared.id].serverPage.Some? && ServerPaged(d)
              && Some(id) in {d.searchFrom, d.filterFrom, d.sortFrom}
  {
    if ds != [] {
      ServedAmong(ds[1..], collections, id);
      assert forall d :: d in ds <==> d == ds[0] || d in ds[1..];
    }
  }

  lemma ServedIsHeld(ir: Ir, collections: map<string, CollectionState>, id: string)
    ensures id in ServerControls(Descriptors(ir), collections) <==> ServerHolds(ir, collections, id)
  {
    var ds := Descriptors(ir);
    ServedAmong(ds, collections, id);
    DescriptorsAreOfIr(ir, ir.collections);
    forall d: Descriptor ensures d in ds <==> DescriptorOf(ir, d.declared.id) == Some(d) {
      if DescriptorOf(ir, d.declared.id) == Some(d) {
        assert d.declared in ir.collections;
      }
    }
    hide Descriptors, DescriptorOf, ServerControls;
  }

  /**
   The values controls have once a payload is accepted: a choice stays while it
   is on offer, a toggle that is on stays on while its requirement is met or the
   server applies it, and everything else stays as it was.
   */
  lemma RefreshedValues(lib: Library, ir: Ir, s: State, payload: Json, i: nat)
    requires UniqueControls(ir.controls) && i < |ir.controls| && ir.controls[i].id in s.controls
    ensures var (c, values) := (ir.controls[i], Refresh(lib, ir, s, payload).controls);
            && c.id in values
            && var (was, now) := (s.controls[c.id], values[c.id]);
               if IsChoice(c) then
                 && now.Chosen?
                 && (if was.Chosen? && Offered(lib, ir, Some(payload), c, was.text) then now == was
                     else FallsTo(lib, ir, Some(payload), c, now.text))
               else if c.kind == "filter-toggle" || c.kind == "sort-toggle" then
                 now == Flag(if was.Flag? then
                               was.on && (MayBeOn(lib, Some(payload), c) || ServerHolds(ir, s.collections, c.id))
                             else StartsOn(c) && MayBeOn(lib, Some(payload), c))
               else now == was
  {
    hide FallsTo, Offer, Wanted, Available, MayBeOn, StartsOn, InitiallyOn, Pick, Offered, ServerControls, ServerHolds;
    hide Descriptors, RefreshPages, Keyed;
    OverlayAt(s.controls, ir.controls, |ir.controls|, RefreshValues(lib, ir, payload, s));
    var c := ir.controls[i];
    PickFalls(lib, ir, Some(payload), c);
    AvailabilityIsExact(lib, payload, c);
    ServedIsHeld(ir, s.collections, c.id);
    if s.controls[c.id].Chosen? {
      OfferIsExact(lib, ir, Some(payload), c, s.controls[c.id].text);
    }
  }

  // ----- The page the server sent

  /** `Number(value)` is this integer. */
  predicate ReadsAs(lib: Library, value: Json, n: int) {
    match value
    case Null => n == 0
    case Bool(flag) => n == if flag then 1 else 0
    case Number(x) => x == n as real
    case other => lib.coerce(other) == Some(n as real)
  }

  /** A property of the record is a safe integer of at least `least`. */
  predicate HoldsCount(lib: Library, fields: map<string, Json>, name: string, n: int, least: int) {
    name in fields && ReadsAs(lib, fields[name], n) && least <= n <= 0x1f_ffff_ffff_ffff
  }

  lemma CountIsHeld(lib: Library, fields: map<string, Json>, name: string, n: nat, least: nat)
    ensures SafeNumber(lib, Get(Record(fields), name), least) == Some(n) <==> HoldsCount(lib, fields, name, n, least)
  {
    if name in fields {
      var x := NumberOf(lib, fields[name]);
      assert x == Some(n as real) <==> ReadsAs(lib, fields[name], n);
      if x.Some? {
        WholeNumber(x.value, n);
      }
    }
  }

  lemma WholeNumber(x: real, n: int)
    ensures x == n as real ==> x.Floor == n
    ensures x.Floor == n && x.Floor as real == x ==> x == n as real
  {
  }

  /** The record of the payload that describes the page, with all four numbers in range. */
  ghost predicate Describes(lib: Library, fields: map<string, Json>, page: ServerPage) {
    && HoldsCount(lib, fields, "page", page.page, 0) && HoldsCount(lib, fields, "pageSize", page.pageSize, 1)
    && HoldsCount(lib, fields, "pageCount", page.pageCount, 1) && HoldsCount(lib, fields, "total", page.total, 0)
  }

  ghost predicate StandsAt(lib: Library, payload: Json, source: string, pages: map<string, Json>,
                           fields: map<string, Json>)
  {
    && lib.resolve(payload, "/__burnlistOvenRuntime/collectionPages") == Some(Record(pages))
    && source in pages && pages[source] == Record(fields)
  }

  lemma DescribedPage(lib: Library, payload: Json, source: string, pages: map<string, Json>,
                      fields: map<string, Json>, page: ServerPage)
    requires StandsAt(lib, payload, source, pages, fields)
    ensures ServerPageOf(lib, Some(payload), source) == Some(page) <==> Describes(lib, fields, page)
  {
    hide SafeNumber, HoldsCount;
    CountIsHeld(lib, fields, "page", page.page, 0);
    CountIsHeld(lib, fields, "pageSize", page.pageSize, 1);
    CountIsHeld(lib, fields, "pageCount", page.pageCount, 1);
    CountIsHeld(lib, fields, "total", page.total, 0);
  }

  /** A page is taken from the payload exactly when all four of its numbers are there and in range. */
  lemma ServerPageIsExact(lib: Library, payload: Json, source: string, page: ServerPage)
    ensures ServerPageOf(lib, Some(payload), source) == Some(page)
       <==> exists pages, fields :: StandsAt(lib, payload, source, pages, fields) && Describes(lib, fields, page)
  {
    hide Describes, SafeNumber;
    var found := lib.resolve(payload, "/__burnlistOvenRuntime/collectionPages");
    if ServerPageOf(lib, Some(payload), source).Some? {
      var pages := found.value.fields;
      assert StandsAt(lib, payload, source, pages, pages[source].fields);
      DescribedPage(lib, payload, source, pages, pages[source].fields, page);
    }
    forall pages, fields | StandsAt(lib, payload, source, pages, fields) && Describes(lib, fields, page)
      ensures ServerPageOf(lib, Some(payload), source) == Some(page)
    {
      DescribedPage(lib, payload, source, pages, fields, page);
    }
  }

  /** The page a server sent for a collection that takes pages from one. */
  function PageSent(lib: Library, payload: Option<Json>, d: Descriptor): Option<ServerPage> {
    if d.declared.paging == Some("server") || d.declared.paging == Some("auto")
    then ServerPageOf(lib, payload, d.declared.source) else None
  }

  /** A collection starts with the page the server sent, or on page 0 with the declared size, 25 without one. */
  lemma InitialPages(lib: Library, ir: Ir, payload: Option<Json>, focusableIds: seq<string>, id: string)
    requires DescriptorOf(ir, id).Some?
    ensures var (d, entries) := (DescriptorOf(ir, id).value, Init(lib, ir, payload, focusableIds).collections);
            && id in entries && entries[id].serverPage == PageSent(lib, payload, d)
            && match PageSent(lib, payload, d)
               case Some(sent) => entries[id].pageIndex == sent.page && entries[id].pageSize == sent.pageSize
               case None =>
                 && entries[id].pageIndex == 0
                 && var declared := if d.declared.pageSize.Some? then d.declared.pageSize.value else 25;
                    entries[id].pageSize == if declared >= 1 then declared else 1
  {
    hide Keyed, Descriptors, ServerPageOf, DescriptorOf;
    DescriptorsCover(ir, InitPages(lib, payload));
  }

  /** After a payload a collection has the page now sent, or else keeps its size and has none. */
  lemma RefreshedPages(lib: Library, ir: Ir, s: State, payload: Json, id: string)
    requires DescriptorOf(ir, id).Some? && id in s.collections
    ensures var (d, entries) := (DescriptorOf(ir, id).value, Refresh(lib, ir, s, payload).collections);
            && id in entries && entries[id].serverPage == PageSent(lib, Some(payload), d)
            && match PageSent(lib, Some(payload), d)
               case Some(sent) =>
                 && entries[id].pageSize == sent.pageSize
                 && entries[id].pageIndex == if sent.page < sent.pageCount then sent.page else sent.pageCount - 1
               case None =>
                 && entries[id].pageSize == s.collections[id].pageSize
                 && (s.collections[id].pageIndex <= 0 ==> entries[id].pageIndex == 0)
                 && (s.collections[id].pageIndex >= 0 ==> entries[id].pageIndex <= s.collections[id].pageIndex)
  {
    hide Refresh, RefreshCollection, Select, ServerPageOf, DescriptorOf;
    EntryRefreshed(lib, ir, s, payload, id);
    RefreshedEntry(lib, ir, payload, Refresh(lib, ir, s, payload).controls, DescriptorOf(ir, id).value,
        s.collections[id]);
  }

  lemma EntryRefreshed(lib: Library, ir: Ir, s: State, payload: Json, id: string)
    requires DescriptorOf(ir, id).Some?
    ensures var next := Refresh(lib, ir, s, payload);
            && id in next.collections
            && next.collections[id] == RefreshCollection(lib, ir, payload, next.controls, DescriptorOf(ir, id).value,
                                                         Lookup(s.collections, id))
  {
    var controls := Refresh(lib, ir, s, payload).controls;
    DescriptorsCover(ir, RefreshPages(lib, ir, payload, controls, s));
    assert DescriptorOf(ir, id).value.declared.id == id;
    hide Keyed, Descriptors, DescriptorOf, Overlay, RefreshCollection;
  }

  lemma RefreshedEntry(lib: Library, ir: Ir, payload: Json, values: map<string, ControlValue>, d: Descriptor,
                       was: CollectionState)
    ensures var now := RefreshCollection(lib, ir, payload, values, d, Some(was));
            && now.serverPage == PageSent(lib, Some(payload), d)
            && match PageSent(lib, Some(payload), d)
               case Some(sent) =>
                 && now.pageSize == sent.pageSize
                 && now.pageIndex == if sent.page < sent.pageCount then sent.page else sent.pageCount - 1
               case None =>
                 && now.pageSize == was.pageSize
                 && (was.pageIndex <= 0 ==> now.pageIndex == 0)
                 && (was.pageIndex >= 0 ==> now.pageIndex <= was.pageIndex)
  {
    hide ServerPageOf, VisibleRows, RowKeys, KeysOf, PageRows, PageCount, Items, AllRows;
  }
}
