/**
 The compiled description of a terminal oven, as the runtime reads it
 (tui/src/oven-runtime/ir-descriptor.ts, state-runtime.ts), and the page of a
 collection it selects (collection-runtime.ts).
 */
module TerminalIr {
  import opened Wrappers
  import opened Json
  import opened TerminalRows
  import ItemKeys
  import Text

  datatype Node = Node(kind: string, attributes: Json, children: seq<Node>)

  datatype Control = Control(kind: string, id: string, attributes: Json)

  datatype Collection = Collection(id: string, source: string, itemKey: Option<string>,
                                   paging: Option<string>, pageSize: Option<int>)

  datatype Ir = Ir(contract: string, root: seq<Node>, controls: seq<Control>, collections: seq<Collection>)

  datatype Descriptor = Descriptor(declared: Collection, searchFrom: Option<string>,
                                   filterFrom: Option<string>, sortFrom: Option<string>)

  type Positive = n: int | 1 <= n witness 1

  datatype ServerPage = ServerPage(page: nat, pageSize: Positive, pageCount: Positive, total: nat)

  datatype CollectionState = CollectionState(pageIndex: int, pageSize: Positive, serverPage: Option<ServerPage>)

  datatype ControlValue = Chosen(text: string) | Flag(on: bool)

  const MAX_SAFE_INTEGER := 9007199254740991

  // ----- Reading the description -----

  function Flatten(nodes: seq<Node>): seq<Node>
    decreases nodes
  {
    if nodes == [] then [] else [nodes[0]] + Flatten(nodes[0].children) + Flatten(nodes[1..])
  }

  predicate IsCollectionNode(node: Node, id: string) {
    node.kind == "collection" && TextAt(node.attributes, "id") == Some(id)
  }

  function FindNode(nodes: seq<Node>, id: string): (found: Option<Node>)
    ensures found.None? <==> forall n :: n in nodes ==> !IsCollectionNode(n, id)
    ensures found.Some? ==> found.value in nodes && IsCollectionNode(found.value, id)
  {
    if nodes == [] then None
    else if IsCollectionNode(nodes[0], id) then Some(nodes[0])
    else
      assert forall n :: n in nodes <==> n == nodes[0] || n in nodes[1..];
      FindNode(nodes[1..], id)
  }

  function FindCollection(collections: seq<Collection>, id: string): (found: Option<Collection>)
    ensures found.Some? ==> found.value in collections && found.value.id == id
  {
    if collections == [] then None
    else if collections[0].id == id then Some(collections[0])
    else FindCollection(collections[1..], id)
  }

  function FindControl(controls: seq<Control>, id: string): (found: Option<Control>)
    ensures found.Some? ==> found.value in controls && found.value.id == id
    ensures found.None? ==> forall c :: c in controls ==> c.id != id
  {
    if controls == [] then None
    else if controls[0].id == id then Some(controls[0])
    else FindControl(controls[1..], id)
  }

  function Describe(declared: Collection, node: Node): Descriptor {
    Descriptor(declared, TextAt(node.attributes, "searchFrom"), TextAt(node.attributes, "filterFrom"),
               TextAt(node.attributes, "sortFrom"))
  }

  /** `collectionDescriptor`: a collection that is declared and has a node. */
  function DescriptorOf(ir: Ir, id: string): (found: Option<Descriptor>)
    ensures found.Some? ==> found.value.declared.id == id
  {
    var declared, node := FindCollection(ir.collections, id), FindNode(Flatten(ir.root), id);
    if declared.Some? && node.Some? then Some(Describe(declared.value, node.value)) else None
  }

  function DescriptorsOf(ir: Ir, collections: seq<Collection>): seq<Descriptor> {
    if collections == [] then []
    else
      var found := DescriptorOf(ir, collections[0].id);
      (if found.Some? then [found.value] else []) + DescriptorsOf(ir, collections[1..])
  }

  function Descriptors(ir: Ir): seq<Descriptor> {
    DescriptorsOf(ir, ir.collections)
  }

  predicate ServerPaged(d: Descriptor) {
    d.declared.paging == Some("server") || d.declared.paging == Some("auto")
  }

  /** `modeValues`: the values the mode toggles with this id declare. */
  function ModeValues(nodes: seq<Node>, id: string): seq<string>
    decreases nodes
  {
    if nodes == [] then []
    else
      var own := if nodes[0].kind == "mode-toggle" && TextAt(nodes[0].attributes, "id") == Some(id)
                 then OptionValues(nodes[0].children)
                 else ModeValues(nodes[0].children, id);
      own + ModeValues(nodes[1..], id)
  }

  function OptionValues(children: seq<Node>): seq<string> {
    if children == [] then []
    else
      var value := TextAt(children[0].attributes, "value");
      (if children[0].kind == "option" && value.Some? then [value.value] else []) + OptionValues(children[1..])
  }

  // ----- Reading the payload -----

  function Resolve(lib: Library, payload: Option<Json>, pointer: string): Option<Json> {
    if payload.None? then None else lib.resolve(payload.value, pointer)
  }

  /** `pointer`: only a text is followed. */
  function Pointed(lib: Library, payload: Option<Json>, source: Option<string>): Option<Json> {
    if source.None? then None else Resolve(lib, payload, source.value)
  }

  function DomainIds(values: seq<Json>): seq<string> {
    if values == [] then []
    else
      var own := match values[0]
                 case Text(id) => [id]
                 case Record(fields) =>
                   (match TextAt(values[0], "id")
                    case Some(id) => [id]
                    case None => [])
                 case _ => [];
      own + DomainIds(values[1..])
  }

  /** `domains`: the ids a list of domains offers. */
  function Domains(source: Option<Json>): seq<string> {
    match source
    case Some(List(values)) => DomainIds(values)
    case _ => []
  }

  predicate SafeInteger(x: real) {
    x.Floor as real == x && -MAX_SAFE_INTEGER <= x.Floor <= MAX_SAFE_INTEGER
  }

  /** `Number(value)` when it is a safe integer of at least `least`. */
  function SafeNumber(lib: Library, value: Option<Json>, least: nat): (n: Option<nat>)
    ensures n.Some? ==> least <= n.value <= MAX_SAFE_INTEGER
  {
    match value
    case None => None
    case Some(v) =>
      match NumberOf(lib, v)
      case None => None
      case Some(x) => if SafeInteger(x) && x.Floor >= least then Some(x.Floor) else None
  }

  /** `serverPage`: the page the server says it sent, when every number is in range. */
  function ServerPageOf(lib: Library, payload: Option<Json>, source: string): Option<ServerPage>
  {
    match Field(Resolve(lib, payload, "/__burnlistOvenRuntime/collectionPages"), source)
    case Some(Record(fields)) =>
      (var value := Record(fields);
       var page, pageSize := SafeNumber(lib, Get(value, "page"), 0), SafeNumber(lib, Get(value, "pageSize"), 1);
       var pageCount, total := SafeNumber(lib, Get(value, "pageCount"), 1), SafeNumber(lib, Get(value, "total"), 0);
       if page.Some? && pageSize.Some? && pageCount.Some? && total.Some?
       then Some(ServerPage(page.value, pageSize.value, pageCount.value, total.value))
       else None)
    case _ => None
  }

  // ----- The page of a collection -----

  /** The scalar an item declares as its key, or "". */
  function DeclaredKey(lib: Library, item: Json, itemKey: Option<string>): string {
    if itemKey.None? || itemKey.value == "" then ""
    else
      var key := itemKey.value;
      match lib.resolve(item, if Text.StartsWith(key, "@item") then key[|"@item"|..] else key)
      case Some(Text(text)) => text
      case Some(Number(x)) => lib.show(Number(x))
      case _ => ""
  }

  function DeclaredKeys(lib: Library, items: seq<Json>, itemKey: Option<string>): (declared: seq<string>)
    ensures |declared| == |items|
  {
    seq(|items|, i requires 0 <= i < |items| => DeclaredKey(lib, items[i], itemKey))
  }

  function LastEqual(items: seq<Json>, n: nat, value: Json): (i: nat)
    requires n <= |items| && value in items[..n]
    ensures i < n && items[i] == value
  {
    if items[n - 1] == value then n - 1 else LastEqual(items, n - 1, value)
  }

  /** Lists and records are told apart by reference, everything else by value. */
  predicate IsObject(value: Json) {
    value.List? || value.Record?
  }

  /** The row whose key an item has: its own for an object, the last equal one for a scalar. */
  function KeyIndex(items: seq<Json>, i: nat): (k: nat)
    requires i < |items|
    ensures k < |items| && items[k] == items[i]
  {
    if IsObject(items[i]) then i
    else
      assert items[i] in items[..|items|];
      LastEqual(items, |items|, items[i])
  }

  /** `keyOf.get(item)`: a later equal scalar has overwritten the key of an earlier one. */
  function KeyOf(items: seq<Json>, keys: seq<string>, i: nat): string
    requires i < |items| == |keys|
  {
    keys[KeyIndex(items, i)]
  }

  function KeysOf(items: seq<Json>, keys: seq<string>, rows: seq<nat>): (out: seq<string>)
    requires |items| == |keys| && Within(rows, |items|)
    ensures |out| == |rows|
    ensures forall p :: 0 <= p < |rows| ==> out[p] == KeyOf(items, keys, rows[p])
  {
    seq(|rows|, p requires 0 <= p < |rows| => KeyOf(items, keys, rows[p]))
  }

  datatype Page = Page(rows: seq<nat>, pageIndex: nat, pageCount: nat, pageSize: Positive, totalCount: nat,
                       itemKeys: seq<string>)

  function RawItems(lib: Library, payload: Option<Json>, d: Descriptor): seq<Json> {
    match Resolve(lib, payload, d.declared.source)
    case Some(List(items)) => items
    case _ => []
  }

  function Items(lib: Library, payload: Option<Json>, d: Descriptor): seq<Json> {
    Attached(RawItems(lib, payload, d), Resolve(lib, payload, "/telemetry/fields"))
  }

  function RowKeys(lib: Library, payload: Option<Json>, d: Descriptor): seq<string> {
    ItemKeys.Keys(DeclaredKeys(lib, RawItems(lib, payload, d), d.declared.itemKey))
  }

  function ControlText(lib: Library, values: map<string, ControlValue>, id: string): string {
    if id !in values then ""
    else
      match values[id]
      case Chosen(text) => text
      case Flag(on) => lib.show(Bool(on))
  }

  function ControlOf(ir: Ir, id: Option<string>): Option<Control> {
    if id.None? then None else FindControl(ir.controls, id.value)
  }

  predicate Active(values: map<string, ControlValue>, control: Option<Control>) {
    control.Some? && control.value.id in values && values[control.value.id] == Flag(true)
  }

  function ControlKey(control: Option<Control>): Option<Json> {
    if control.None? then None else Get(control.value.attributes, "key")
  }

  /** The options the controls of a collection amount to. */
  function OptionsOf(lib: Library, ir: Ir, values: map<string, ControlValue>, d: Descriptor): Options {
    var search, filter, sort := ControlOf(ir, d.searchFrom), ControlOf(ir, d.filterFrom), ControlOf(ir, d.sortFrom);
    Options(ir.contract,
            if search.Some? then ControlText(lib, values, search.value.id) else "",
            if search.Some? then TextAt(search.value.attributes, "matchFields") else None,
            ControlKey(filter), Active(values, filter),
            ControlKey(sort), Active(values, sort))
  }

  function VisibleRows(lib: Library, ir: Ir, payload: Option<Json>, values: map<string, ControlValue>,
                       d: Descriptor): (rows: seq<nat>)
    ensures Within(rows, |Items(lib, payload, d)|)
  {
    RunTerminalCollection(lib, Items(lib, payload, d), OptionsOf(lib, ir, values, d))
  }

  /** `selectTerminalCollection` of a described collection. */
  function Select(lib: Library, ir: Ir, payload: Option<Json>, values: map<string, ControlValue>,
                  d: Descriptor, state: CollectionState): (page: Page)
    ensures Within(page.rows, |Items(lib, payload, d)|)
    ensures page.pageIndex < page.pageCount
    ensures |page.itemKeys| == |page.rows|
  {
    var items, keys := Items(lib, payload, d), RowKeys(lib, payload, d);
    if state.serverPage.Some? && ServerPaged(d) then
      var server := state.serverPage.value;
      var rows := AllRows(|items|);
      Page(rows, Clamp(server.page, server.pageCount), server.pageCount, server.pageSize, server.total,
           KeysOf(items, keys, rows))
    else
      var visible := VisibleRows(lib, ir, payload, values, d);
      var rows := PageRows(visible, state.pageSize, state.pageIndex);
      PageRowsAreRows(visible, state.pageSize, state.pageIndex, |items|);
      var count := PageCount(|visible|, state.pageSize);
      Page(rows, Clamp(state.pageIndex, count), count, state.pageSize, |visible|, KeysOf(items, keys, rows))
  }

  lemma PageRowsAreRows(rows: seq<nat>, size: nat, index: int, n: nat)
    requires size >= 1 && Within(rows, n)
    ensures Within(PageRows(rows, size, index), n)
  {
  }

  /** The names the items of a list declare. */
  function DeclaredNames(declared: seq<string>): (names: set<string>)
    ensures ItemKeys.Uses(declared, names) && "" !in names
  {
    set i | 0 <= i < |declared| && declared[i] != "" :: declared[i]
  }

  /** Two different rows of the list are the same scalar. */
  ghost predicate EqualScalars(items: seq<Json>, rows: seq<nat>)
    requires Within(rows, |items|)
  {
    exists p, q :: 0 <= p < q < |rows| && items[rows[p]] == items[rows[q]] && !IsObject(items[rows[p]])
  }

  predicate DistinctRows(rows: seq<nat>) {
    forall p, q :: 0 <= p < q < |rows| ==> rows[p] != rows[q]
  }

  /** Where the rows have keys of their own, the keys looked up differ exactly when no scalar occurs twice. */
  lemma KeysOfDistinctRows(items: seq<Json>, keys: seq<string>, rows: seq<nat>)
    requires |items| == |keys| && Within(rows, |items|) && DistinctRows(rows) && ItemKeys.Distinct(keys)
    ensures ItemKeys.Distinct(KeysOf(items, keys, rows)) <==> !EqualScalars(items, rows)
  {
    hide KeyOf;
    var out := KeysOf(items, keys, rows);
    forall p, q | 0 <= p < q < |rows|
      ensures out[p] == out[q] <==> items[rows[p]] == items[rows[q]] && !IsObject(items[rows[p]])
    {
      KeyOfIsExact(items, keys, rows[p], rows[q]);
    }
  }

  lemma KeyOfIsExact(items: seq<Json>, keys: seq<string>, i: nat, j: nat)
    requires i < |items| == |keys| && j < |items| && i != j && ItemKeys.Distinct(keys)
    ensures KeyOf(items, keys, i) == KeyOf(items, keys, j) <==> items[i] == items[j] && !IsObject(items[i])
  {
    var a, b := KeyIndex(items, i), KeyIndex(items, j);
    assert keys[a] == keys[b] ==> a == b;
  }

  /** Where every declared name is safe, the keys of any page differ exactly when no scalar occurs on it twice. */
  lemma PageKeysAreDistinct(lib: Library, ir: Ir, payload: Option<Json>, values: map<string, ControlValue>,
                            d: Descriptor, state: CollectionState)
    requires ItemKeys.Safe(DeclaredNames(DeclaredKeys(lib, RawItems(lib, payload, d), d.declared.itemKey)))
    ensures var page := Select(lib, ir, payload, values, d, state);
            ItemKeys.Distinct(page.itemKeys) <==> !EqualScalars(Items(lib, payload, d), page.rows)
  {
    hide ItemKeys.Safe, ItemKeys.Keys, ItemKeys.Distinct, RunTerminalCollection, OptionsOf, Joined, PageRows, KeysOf;
    var raw := RawItems(lib, payload, d);
    var items, keys := Items(lib, payload, d), RowKeys(lib, payload, d);
    ItemKeys.KeysAreDistinctExactly(DeclaredNames(DeclaredKeys(lib, raw, d.declared.itemKey)));
    RowsAreDistinct(lib, items, OptionsOf(lib, ir, values, d));
    var visible := VisibleRows(lib, ir, payload, values, d);
    PageRowsAreDistinct(visible, state.pageSize, state.pageIndex);
    KeysOfDistinctRows(items, keys, Select(lib, ir, payload, values, d, state).rows);
  }

  lemma PageRowsAreDistinct(rows: seq<nat>, size: nat, index: int)
    requires size >= 1 && DistinctRows(rows)
    ensures DistinctRows(PageRows(rows, size, index))
  {
    hide PageCount, Clamp, Slice;
    SliceIsDistinct(rows, Clamp(index, PageCount(|rows|, size)) * size, size);
  }

  lemma SliceIsDistinct(rows: seq<nat>, start: nat, size: nat)
    requires DistinctRows(rows)
    ensures DistinctRows(Slice(rows, start, size))
  {
  }

  /** Equal scalars share the key of the last of them. */
  lemma EqualScalarsShareKeys(items: seq<Json>, keys: seq<string>, i: nat, j: nat)
    requires i < |items| == |keys| && j < |items| && items[i] == items[j] && !IsObject(items[i])
    ensures KeyOf(items, keys, i) == KeyOf(items, keys, j)
  {
  }
}
