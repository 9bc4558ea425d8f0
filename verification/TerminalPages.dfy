/**
 The pages of a collection in terms of what the user set: the search text and
 the toggles of the controls its node names, the attributes of those controls,
 and the properties of the rows (tui/src/oven-runtime/collection-runtime.ts).
 Nothing here mentions the options the runtime derives from the controls.
 */
module TerminalPages {
  import opened Wrappers
  import opened Json
  import opened TerminalRows
  import opened TerminalIr
  import Text

  // ----- What the controls ask for

  predicate HasText(value: Json, name: string, text: string) {
    value.Record? && name in value.fields && value.fields[name] == Json.Text(text)
  }

  /** The control stands at `k`, and none before it has its id. */
  predicate FirstAt(controls: seq<Control>, c: Control, k: nat) {
    k < |controls| && controls[k] == c && forall j :: 0 <= j < k ==> controls[j].id != c.id
  }

  /** The control an attribute of the node names: the first one declared with that id. */
  ghost predicate Named(ir: Ir, node: Node, attribute: string, c: Control) {
    && HasText(node.attributes, attribute, c.id)
    && exists k: nat :: FirstAt(ir.controls, c, k)
  }

  predicate On(values: map<string, ControlValue>, c: Control) {
    c.id in values && values[c.id] == Flag(true)
  }

  /** The text a search control holds. */
  ghost predicate Typed(lib: Library, values: map<string, ControlValue>, c: Control, text: string) {
    if c.id !in values then text == ""
    else values[c.id] == Chosen(text) || exists on :: values[c.id] == Flag(on) && text == lib.show(Bool(on))
  }

  predicate OccursAt(text: string, part: string, at: nat) {
    at + |part| <= |text| && text[at..at + |part|] == part
  }

  /** The text of one field of the row; nothing and null have none. */
  function FieldText(lib: Library, row: Json, field: string): string {
    match lib.resolve(row, field)
    case None => ""
    case Some(Null) => ""
    case Some(value) => lib.show(value)
  }

  /** The text of the field, in lower case, holds the needle. */
  ghost predicate Shows(lib: Library, row: Json, field: string, needle: string) {
    exists at: nat :: OccursAt(lib.lower(FieldText(lib, row, field)), needle, at)
  }

  /** One of the match fields the control declares shows the needle. */
  ghost predicate Finds(lib: Library, c: Control, needle: string, row: Json) {
    row.Record? && exists names, k ::
      HasText(c.attributes, "matchFields", names) && 0 <= k < |lib.words(names)|
      && Shows(lib, row, lib.words(names)[k], needle)
  }

  /** The number a property holds; 0 for a missing one and for what is no number. */
  function Count(lib: Library, value: Json, name: string): real {
    if !value.Record? || name !in value.fields then 0.0
    else
      match value.fields[name]
      case Null => 0.0
      case Bool(flag) => if flag then 1.0 else 0.0
      case Number(x) => x
      case other => if lib.coerce(other).Some? then lib.coerce(other).value else 0.0
  }

  predicate Failing(lib: Library, row: Json) {
    Count(lib, row, "failedSampleCount") + Count(lib, row, "missingSampleCount") > 0.0
  }

  /** The transitions of a row: those joined in, or its own. */
  function Transitions(row: Json): Json {
    if !row.Record? then Json.Null
    else if "transitionTelemetry" in row.fields && row.fields["transitionTelemetry"] != Json.Null
    then row.fields["transitionTelemetry"]
    else if "telemetry" in row.fields then row.fields["telemetry"]
    else Json.Null
  }

  function Gained(lib: Library, row: Json): real {
    Count(lib, Transitions(row), "failToPassCount")
  }

  function Lost(lib: Library, row: Json): real {
    Count(lib, Transitions(row), "passToFailCount")
  }

  /** The row shows the text asked for; a blank text asks for nothing. */
  ghost predicate AsksFor(lib: Library, c: Control, text: string, row: Json) {
    var needle := lib.lower(lib.trim(text));
    needle == "" || Finds(lib, c, needle, row)
  }

  /** The row is what the search and the filter of the collection let through. */
  ghost predicate Qualifies(lib: Library, ir: Ir, values: map<string, ControlValue>, node: Node, row: Json) {
    && (forall c, text :: Named(ir, node, "searchFrom", c) && Typed(lib, values, c, text) ==>
          AsksFor(lib, c, text, row))
    && (forall c :: Named(ir, node, "filterFrom", c) && On(values, c) ==>
          && row.Record? && ir.contract == "burnlist-differential-testing-data@1"
          && HasText(c.attributes, "key", "non-pass") && Failing(lib, row))
  }

  /** The sort is on and knows how to order what is there. */
  ghost predicate Sorts(lib: Library, ir: Ir, values: map<string, ControlValue>, node: Node, items: seq<Json>) {
    && ir.contract == "burnlist-differential-testing-data@1"
    && (exists c :: Named(ir, node, "sortFrom", c) && On(values, c) && HasText(c.attributes, "key", "changed"))
    && exists i :: 0 <= i < |items| && items[i].Record? && Qualifies(lib, ir, values, node, items[i])
  }

  ghost predicate IsShown(lib: Library, ir: Ir, values: map<string, ControlValue>, node: Node, items: seq<Json>,
                          i: nat)
  {
    && i < |items| && Qualifies(lib, ir, values, node, items[i])
    && (Sorts(lib, ir, values, node, items) ==>
          items[i].Record? && Gained(lib, items[i]) + Lost(lib, items[i]) > 0.0)
  }

  /** Most transitions first, then most improvement, then the order of the payload. */
  predicate Precedes(lib: Library, items: seq<Json>, i: nat, j: nat)
    requires i < |items| && j < |items|
  {
    var (gi, li) := (Gained(lib, items[i]), Lost(lib, items[i]));
    var (gj, lj) := (Gained(lib, items[j]), Lost(lib, items[j]));
    gi + li > gj + lj || (gi + li == gj + lj && (gi - li > gj - lj || (gi - li == gj - lj && i < j)))
  }

  // ----- The runtime reads the same

  lemma TextIsHad(value: Json, name: string, text: string)
    ensures TextAt(value, name) == Some(text) <==> HasText(value, name, text)
  {
  }

  lemma {:induction false} FirstIsFound(controls: seq<Control>, c: Control)
    ensures FindControl(controls, c.id) == Some(c) <==> exists k: nat :: FirstAt(controls, c, k)
  {
    if controls != [] {
      FirstIsFound(controls[1..], c);
      assert controls[0] == c ==> FirstAt(controls, c, 0);
      if controls[0].id != c.id {
        forall k: nat ensures FirstAt(controls[1..], c, k) <==> FirstAt(controls, c, k + 1) {
          FirstAfter(controls, c, k);
        }
        forall k: nat | FirstAt(controls, c, k) ensures k > 0 && FirstAt(controls[1..], c, k - 1) {
          FirstAfter(controls, c, k - 1);
        }
      }
    }
  }

  lemma FirstAfter(controls: seq<Control>, c: Control, k: int)
    requires controls != [] && controls[0].id != c.id && k >= -1
    ensures k >= 0 ==> (FirstAt(controls[1..], c, k) <==> FirstAt(controls, c, k + 1))
    ensures !FirstAt(controls, c, 0)
  {
    assert forall j :: 0 <= j < |controls| - 1 ==> controls[1..][j] == controls[j + 1];
    if k >= 0 && FirstAt(controls[1..], c, k) {
      forall j | 0 <= j < k + 1 ensures controls[j].id != c.id {
        assert j > 0 ==> controls[j] == controls[1..][j - 1];
      }
    }
  }

  lemma NamedIsFound(ir: Ir, node: Node, attribute: string, c: Control)
    ensures Named(ir, node, attribute, c) <==> ControlOf(ir, TextAt(node.attributes, attribute)) == Some(c)
  {
    TextIsHad(node.attributes, attribute, c.id);
    FirstIsFound(ir.controls, c);
  }

  lemma TypedIsRead(lib: Library, values: map<string, ControlValue>, c: Control, text: string)
    ensures Typed(lib, values, c, text) <==> text == ControlText(lib, values, c.id)
  {
  }

  lemma AtTheStart(text: string, part: string)
    ensures OccursAt(text, part, 0) <==> Text.StartsWith(text, part)
    ensures text == "" ==> forall at: nat :: OccursAt(text, part, at) ==> at == 0
  {
    if |part| <= |text| { assert text[0..0 + |part|] == text[..|part|]; }
  }

  lemma {:induction false} ContainsIsShown(text: string, needle: string)
    ensures Contains(text, needle) <==> exists at: nat :: OccursAt(text, needle, at)
    decreases |text|
  {
    AtTheStart(text, needle);
    if text != "" {
      ContainsIsShown(text[1..], needle);
      forall at: nat ensures OccursAt(text[1..], needle, at) <==> OccursAt(text, needle, at + 1) {
        if at + 1 + |needle| <= |text| {
          assert text[1..][at..at + |needle|] == text[at + 1..at + 1 + |needle|];
        }
      }
      forall at: nat | OccursAt(text, needle, at) && at > 0 ensures OccursAt(text[1..], needle, at - 1) {
        assert OccursAt(text[1..], needle, at - 1) <==> OccursAt(text, needle, at - 1 + 1);
      }
    }
  }

  lemma ShowsIsContains(lib: Library, row: Json, field: string, needle: string)
    ensures Shows(lib, row, field, needle)
       <==> Contains(lib.lower(ShownText(lib, lib.resolve(row, field))), needle)
  {
    assert FieldText(lib, row, field) == ShownText(lib, lib.resolve(row, field));
    hide Contains, OccursAt, ShownText, FieldText;
    ContainsIsShown(lib.lower(FieldText(lib, row, field)), needle);
  }

  lemma FindsIsMatches(lib: Library, c: Control, needle: string, row: Json)
    ensures Finds(lib, c, needle, row)
       <==> row.Record? && TextAt(c.attributes, "matchFields").Some?
            && Matches(lib, row, needle, lib.words(TextAt(c.attributes, "matchFields").value))
  {
    forall names
      ensures TextAt(c.attributes, "matchFields") == Some(names) <==> HasText(c.attributes, "matchFields", names)
    {
      TextIsHad(c.attributes, "matchFields", names);
    }
    forall field ensures Shows(lib, row, field, needle)
                    <==> Contains(lib.lower(ShownText(lib, lib.resolve(row, field))), needle) {
      ShowsIsContains(lib, row, field, needle);
    }
    hide Shows, Contains, ShownText, HasText, TextAt;
    if row.Record? && TextAt(c.attributes, "matchFields").Some? {
      var names := TextAt(c.attributes, "matchFields").value;
      assert HasText(c.attributes, "matchFields", names);
    }
  }

  lemma AmountIsCount(lib: Library, value: Json, name: string)
    ensures Amount(lib, Get(value, name)) == Count(lib, value, name)
  {
  }

  lemma RankIsTransitions(lib: Library, row: Json)
    ensures RankOf(lib, row) == Rank(Gained(lib, row) + Lost(lib, row), Gained(lib, row) - Lost(lib, row))
  {
    AmountIsCount(lib, Transitions(row), "failToPassCount");
    AmountIsCount(lib, Transitions(row), "passToFailCount");
  }

  /** What a blank text comes to in the library. */
  predicate BlankIsBlank(lib: Library) {
    lib.lower(lib.trim("")) == ""
  }

  lemma SearchIsAsked(lib: Library, ir: Ir, values: map<string, ControlValue>, declared: Collection, node: Node,
                      row: Json)
    requires BlankIsBlank(lib)
    ensures Searched(lib, row, OptionsOf(lib, ir, values, Describe(declared, node)))
       <==> forall c, text :: Named(ir, node, "searchFrom", c) && Typed(lib, values, c, text) ==>
              AsksFor(lib, c, text, row)
  {
    hide Named, Typed, Finds, Matches, ControlText, Get, ControlOf;
    var search := ControlOf(ir, TextAt(node.attributes, "searchFrom"));
    forall c ensures Named(ir, node, "searchFrom", c) <==> search == Some(c) {
      NamedIsFound(ir, node, "searchFrom", c);
    }
    if search.Some? {
      var c := search.value;
      forall text ensures Typed(lib, values, c, text) <==> text == ControlText(lib, values, c.id) {
        TypedIsRead(lib, values, c, text);
      }
      FindsIsMatches(lib, c, lib.lower(lib.trim(ControlText(lib, values, c.id))), row);
      NoFields(lib, row, lib.lower(lib.trim(ControlText(lib, values, c.id))));
      assert Named(ir, node, "searchFrom", c) && Typed(lib, values, c, ControlText(lib, values, c.id));
    }
  }

  lemma NoFields(lib: Library, row: Json, needle: string)
    ensures !Matches(lib, row, needle, [])
  {
  }

  lemma FilterIsAsked(lib: Library, ir: Ir, values: map<string, ControlValue>, declared: Collection, node: Node,
                      row: Json)
    ensures Filtered(lib, row, OptionsOf(lib, ir, values, Describe(declared, node)))
       <==> forall c :: Named(ir, node, "filterFrom", c) && On(values, c) ==>
              && row.Record? && ir.contract == "burnlist-differential-testing-data@1"
              && HasText(c.attributes, "key", "non-pass") && Failing(lib, row)
  {
    hide Named, ControlOf, Failing;
    var filter := ControlOf(ir, TextAt(node.attributes, "filterFrom"));
    forall c ensures Named(ir, node, "filterFrom", c) <==> filter == Some(c) {
      NamedIsFound(ir, node, "filterFrom", c);
    }
    NonPassIsFailing(lib, row);
  }

  lemma NonPassIsFailing(lib: Library, row: Json)
    ensures NonPass(lib, row) <==> Failing(lib, row)
  {
    AmountIsCount(lib, row, "failedSampleCount");
    AmountIsCount(lib, row, "missingSampleCount");
  }

  /** To pass the options the runtime derives is to qualify by the controls. */
  lemma PassingIsQualifying(lib: Library, ir: Ir, values: map<string, ControlValue>, declared: Collection, node: Node,
                            row: Json)
    requires BlankIsBlank(lib)
    ensures Passes(lib, row, OptionsOf(lib, ir, values, Describe(declared, node)))
       <==> Qualifies(lib, ir, values, node, row)
  {
    hide Searched, Filtered, OptionsOf, AsksFor;
    SearchIsAsked(lib, ir, values, declared, node, row);
    FilterIsAsked(lib, ir, values, declared, node, row);
  }

  lemma SortingIsAsked(lib: Library, ir: Ir, values: map<string, ControlValue>, declared: Collection, node: Node,
                       items: seq<Json>)
    requires BlankIsBlank(lib)
    ensures SortApplies(lib, items, OptionsOf(lib, ir, values, Describe(declared, node)))
       <==> Sorts(lib, ir, values, node, items)
  {
    hide Named, ControlOf, Qualifies, Passes;
    var sort := ControlOf(ir, TextAt(node.attributes, "sortFrom"));
    forall c ensures Named(ir, node, "sortFrom", c) <==> sort == Some(c) {
      NamedIsFound(ir, node, "sortFrom", c);
    }
    forall row ensures Passes(lib, row, OptionsOf(lib, ir, values, Describe(declared, node)))
                  <==> Qualifies(lib, ir, values, node, row) {
      PassingIsQualifying(lib, ir, values, declared, node, row);
    }
  }

  // ----- What is shown

  /** All rows of a collection the client pages, and their order, by the controls its node names. */
  lemma VisibleRowsAreExact(lib: Library, ir: Ir, payload: Option<Json>, values: map<string, ControlValue>,
                            declared: Collection, node: Node)
    requires BlankIsBlank(lib)
    ensures var items := Items(lib, payload, Describe(declared, node));
            var rows := VisibleRows(lib, ir, payload, values, Describe(declared, node));
            && (forall i :: i in rows <==> IsShown(lib, ir, values, node, items, i))
            && (forall p, q :: 0 <= p < q < |rows| ==>
                  if Sorts(lib, ir, values, node, items) then Precedes(lib, items, rows[p], rows[q])
                  else rows[p] < rows[q])
  {
    hide Items, Qualifies, Sorts, Passes, SortApplies, RunTerminalCollection, OptionsOf, RankOf, Gained, Lost;
    var d := Describe(declared, node);
    var items, o := Items(lib, payload, d), OptionsOf(lib, ir, values, d);
    RowsAreExact(lib, items, o);
    SortingIsAsked(lib, ir, values, declared, node, items);
    forall i | 0 <= i < |items|
      ensures Passes(lib, items[i], o) <==> Qualifies(lib, ir, values, node, items[i])
      ensures RankOf(lib, items[i])
           == Rank(Gained(lib, items[i]) + Lost(lib, items[i]), Gained(lib, items[i]) - Lost(lib, items[i]))
    {
      PassingIsQualifying(lib, ir, values, declared, node, items[i]);
      RankIsTransitions(lib, items[i]);
    }
  }

  predicate ClientPaged(d: Descriptor, state: CollectionState) {
    state.serverPage.None? || !(d.declared.paging == Some("server") || d.declared.paging == Some("auto"))
  }

  /** The node is this one or lies below it in the description. */
  ghost predicate Below(nodes: seq<Node>, node: Node) {
    exists k :: 0 <= k < |nodes| && (nodes[k] == node || Below(nodes[k].children, node))
  }

  lemma {:induction false} FlattenedIsBelow(nodes: seq<Node>, node: Node)
    ensures node in Flatten(nodes) <==> Below(nodes, node)
    decreases nodes
  {
    if nodes != [] {
      FlattenedIsBelow(nodes[0].children, node);
      FlattenedIsBelow(nodes[1..], node);
      assert forall k :: 0 < k < |nodes| ==> nodes[k] == nodes[1..][k - 1];
    }
  }

  /** A described collection has a node of its id in the tree, and the node's attributes name its controls. */
  lemma DescribedByNode(ir: Ir, id: string) returns (declared: Collection, node: Node)
    requires DescriptorOf(ir, id).Some?
    ensures DescriptorOf(ir, id) == Some(Describe(declared, node))
    ensures declared in ir.collections && declared.id == id
    ensures Below(ir.root, node) && node.kind == "collection" && HasText(node.attributes, "id", id)
  {
    declared, node := FindCollection(ir.collections, id).value, FindNode(Flatten(ir.root), id).value;
    FlattenedIsBelow(ir.root, node);
    TextIsHad(node.attributes, "id", id);
  }

  /** A row is on the page that its place divided by the size names. */
  lemma PageOfPlace<T>(rows: seq<T>, size: nat, p: nat)
    requires size >= 1 && p < |rows|
    ensures rows[p] in PageRows(rows, size, p / size)
  {
    hide PageCount;
    var index := p / size;
    PlaceOnPage(|rows|, size, p);
    assert PageRows(rows, size, index) == Slice(rows, index * size, size);
    InSlice(rows, index * size, size, p);
  }

  lemma PlaceOnPage(total: nat, size: nat, p: nat)
    requires size >= 1 && p < total
    ensures p / size < PageCount(total, size) && p / size * size <= p < p / size * size + size
  {
    hide PageCount;
    var index := p / size;
    assert p == size * index + p % size;
    PageCountIsExact(total, size);
    if index >= PageCount(total, size) {
      SizesGrow(PageCount(total, size), index, size);
    }
  }

  lemma InSlice<T>(rows: seq<T>, start: nat, size: nat, p: nat)
    requires start <= p < start + size && p < |rows|
    ensures rows[p] in Slice(rows, start, size)
  {
    assert Slice(rows, start, size)[p - start] == rows[p];
  }

  lemma OnSomePage<T>(rows: seq<T>, size: nat, row: T)
    requires size >= 1
    ensures row in rows <==> exists index: int :: row in PageRows(rows, size, index)
  {
    if p :| 0 <= p < |rows| && rows[p] == row {
      PageOfPlace(rows, size, p);
    }
    forall index: int | row in PageRows(rows, size, index) ensures row in rows {
      hide PageCount, Clamp;
    }
  }

  /** A list without repetition is as long as the set of its members. */
  lemma {:induction false} DistinctLength(rows: seq<nat>, members: set<nat>)
    requires DistinctRows(rows) && forall r :: r in rows <==> r in members
    ensures |rows| == |members|
  {
    if rows == [] {
      assert members == {};
    } else {
      assert rows[0] !in rows[1..];
      assert forall r :: r in rows <==> r == rows[0] || r in rows[1..];
      DistinctLength(rows[1..], members - {rows[0]});
    }
  }

  /**
   The pages of a collection the client pages: a row of the payload is on one of
   them exactly when it is what the controls ask for, the total is the number of
   such rows, and every page keeps their order.
   */
  lemma SelectIsExact(lib: Library, ir: Ir, payload: Option<Json>, values: map<string, ControlValue>,
                      declared: Collection, node: Node, state: CollectionState)
    requires BlankIsBlank(lib) && ClientPaged(Describe(declared, node), state)
    ensures var d := Describe(declared, node);
            var items, page := Items(lib, payload, d), Select(lib, ir, payload, values, d, state);
            && (forall i :: IsShown(lib, ir, values, node, items, i)
                  <==> exists index :: i in Select(lib, ir, payload, values, d, state.(pageIndex := index)).rows)
            && page.totalCount == |set i | 0 <= i < |items| && IsShown(lib, ir, values, node, items, i)|
            && (forall p, q :: 0 <= p < q < |page.rows| ==>
                  if Sorts(lib, ir, values, node, items) then Precedes(lib, items, page.rows[p], page.rows[q])
                  else page.rows[p] < page.rows[q])
  {
    hide Items, IsShown, Sorts, VisibleRows, PageRows, PageCount, Clamp, KeysOf, RowKeys, Precedes;
    var d := Describe(declared, node);
    var items, rows := Items(lib, payload, d), VisibleRows(lib, ir, payload, values, d);
    VisibleRowsAreExact(lib, ir, payload, values, declared, node);
    forall i: nat
      ensures i in rows
         <==> exists index :: i in Select(lib, ir, payload, values, d, state.(pageIndex := index)).rows
    {
      OnSomePage(rows, state.pageSize, i);
      forall index ensures Select(lib, ir, payload, values, d, state.(pageIndex := index)).rows
                        == PageRows(rows, state.pageSize, index) {
      }
    }
    VisibleAreDistinct(lib, ir, payload, values, d);
    DistinctLength(rows, set i | 0 <= i < |items| && IsShown(lib, ir, values, node, items, i));
    var start := PageIsInOrder(rows, state.pageSize, state.pageIndex);
  }

  lemma VisibleAreDistinct(lib: Library, ir: Ir, payload: Option<Json>, values: map<string, ControlValue>,
                           d: Descriptor)
    ensures DistinctRows(VisibleRows(lib, ir, payload, values, d))
  {
    RowsAreDistinct(lib, Items(lib, payload, d), OptionsOf(lib, ir, values, d));
  }

  /** A page is a stretch of the rows. */
  lemma PageIsInOrder<T>(rows: seq<T>, size: nat, index: int) returns (start: nat)
    requires size >= 1
    ensures var page := PageRows(rows, size, index);
            start + |page| <= |rows| && forall p :: 0 <= p < |page| ==> page[p] == rows[start + p]
  {
    hide PageCount, Clamp;
    var from := Clamp(index, PageCount(|rows|, size)) * size;
    start := if from < |rows| then from else |rows|;
  }

  /** How many rows the first `index` pages hold when they are full. */
  function RowsBefore(index: nat, size: Positive): nat {
    SizesGrow(0, index, size);
    index * size
  }

  /** The page shows the rows from its first one on, as many as there are up to its size. */
  predicate ShowsStretch(rows: seq<nat>, page: Page) {
    var first := RowsBefore(page.pageIndex, page.pageSize);
    && first <= |rows|
    && page.rows == if first + page.pageSize <= |rows| then rows[first..first + page.pageSize] else rows[first..]
  }

  /** There are as many pages as it takes, and at least one. */
  predicate JustEnoughPages(total: nat, page: Page) {
    && total <= RowsBefore(page.pageCount, page.pageSize)
    && page.pageCount >= 1 && (page.pageCount > 1 ==> RowsBefore(page.pageCount - 1, page.pageSize) < total)
  }

  /** Which stretch of the rows the client shows: the page of the stored index, or the nearest one there is. */
  lemma ClientPageIsSlice(lib: Library, ir: Ir, payload: Option<Json>, values: map<string, ControlValue>, d: Descriptor,
                          state: CollectionState)
    requires ClientPaged(d, state)
    ensures var (rows, page) := (VisibleRows(lib, ir, payload, values, d), Select(lib, ir, payload, values, d, state));
            && page.pageSize == state.pageSize && page.totalCount == |rows|
            && JustEnoughPages(|rows|, page) && ShowsStretch(rows, page)
            && page.pageIndex == (if state.pageIndex < 0 then 0
                                  else if state.pageIndex < page.pageCount then state.pageIndex else page.pageCount - 1)
  {
    hide VisibleRows, PageCount, PageRows, RowKeys, KeysOf, Items, RowsBefore;
    var rows := VisibleRows(lib, ir, payload, values, d);
    EnoughPages(|rows|, state.pageSize);
    StretchOfRows(rows, state.pageSize, state.pageIndex);
  }

  lemma EnoughPages(total: nat, size: Positive)
    ensures total <= RowsBefore(PageCount(total, size), size)
    ensures PageCount(total, size) > 1 ==> RowsBefore(PageCount(total, size) - 1, size) < total
  {
    hide PageCount;
    PageCountIsExact(total, size);
    if total == 0 { PageCountOfNothing(size); }
  }

  lemma StretchOfRows(rows: seq<nat>, size: Positive, index: int)
    ensures var first := RowsBefore(Clamp(index, PageCount(|rows|, size)), size);
            && first <= |rows|
            && PageRows(rows, size, index)
               == if first + size <= |rows| then rows[first..first + size] else rows[first..]
  {
    hide PageCount, Clamp;
    var page := Clamp(index, PageCount(|rows|, size));
    NextPage(rows, size, page);
    var first := RowsBefore(page, size);
    assert PageRows(rows, size, index) == Slice(rows, first, size);
    hide PageRows, RowsBefore;
  }

  /** A page the server sent is shown as it came: all its items in order, and the server's own numbers. */
  lemma ServerPageIsShown(lib: Library, ir: Ir, payload: Option<Json>, values: map<string, ControlValue>, d: Descriptor,
                          state: CollectionState)
    requires !ClientPaged(d, state)
    ensures var (server, page) := (state.serverPage.value, Select(lib, ir, payload, values, d, state));
            && |page.rows| == |Items(lib, payload, d)| && (forall p :: 0 <= p < |page.rows| ==> page.rows[p] == p)
            && page.pageCount == server.pageCount && page.pageSize == server.pageSize && page.totalCount == server.total
            && page.pageIndex == if server.page < server.pageCount then server.page else server.pageCount - 1
  {
  }

  /** With nothing typed and no toggle on, every item counts. */
  lemma NothingAskedShowsAll(lib: Library, ir: Ir, payload: Option<Json>, values: map<string, ControlValue>,
                             declared: Collection, node: Node, state: CollectionState)
    requires BlankIsBlank(lib) && ClientPaged(Describe(declared, node), state)
    requires forall c, text :: Named(ir, node, "searchFrom", c) && Typed(lib, values, c, text) ==>
               lib.lower(lib.trim(text)) == ""
    requires forall c :: Named(ir, node, "filterFrom", c) || Named(ir, node, "sortFrom", c) ==> !On(values, c)
    ensures Select(lib, ir, payload, values, Describe(declared, node), state).totalCount
         == |Items(lib, payload, Describe(declared, node))|
  {
    hide Items, Named, Typed, On, Select;
    var items := Items(lib, payload, Describe(declared, node));
    SelectIsExact(lib, ir, payload, values, declared, node, state);
    forall i | 0 <= i < |items| ensures IsShown(lib, ir, values, node, items, i) {
    }
    forall r | 0 <= r < |items| ensures r in AllRows(|items|) {
      assert AllRows(|items|)[r] == r;
    }
    DistinctLength(AllRows(|items|), set i | 0 <= i < |items| && IsShown(lib, ir, values, node, items, i));
  }

  /** While a search text is typed, every row on the page shows it in one of the declared fields. */
  lemma SearchedRowsShowTheText(lib: Library, ir: Ir, payload: Option<Json>, values: map<string, ControlValue>,
                                declared: Collection, node: Node, state: CollectionState, c: Control, text: string,
                                p: nat)
    requires BlankIsBlank(lib) && ClientPaged(Describe(declared, node), state)
    requires Named(ir, node, "searchFrom", c) && Typed(lib, values, c, text) && lib.lower(lib.trim(text)) != ""
    requires p < |Select(lib, ir, payload, values, Describe(declared, node), state).rows|
    ensures var d := Describe(declared, node);
            var row := Items(lib, payload, d)[Select(lib, ir, payload, values, d, state).rows[p]];
            Finds(lib, c, lib.lower(lib.trim(text)), row)
  {
    hide Items, Named, Typed, Select, Finds;
    var d := Describe(declared, node);
    SelectIsExact(lib, ir, payload, values, declared, node, state);
    var i := Select(lib, ir, payload, values, d, state).rows[p];
    assert state.(pageIndex := state.pageIndex) == state;
    assert IsShown(lib, ir, values, node, Items(lib, payload, d), i);
    assert AsksFor(lib, c, text, Items(lib, payload, d)[i]);
  }

  /** While the filter is on, every row on the page is one that did not pass. */
  lemma FilteredRowsFail(lib: Library, ir: Ir, payload: Option<Json>, values: map<string, ControlValue>,
                         declared: Collection, node: Node, state: CollectionState, c: Control, p: nat)
    requires BlankIsBlank(lib) && ClientPaged(Describe(declared, node), state)
    requires Named(ir, node, "filterFrom", c) && On(values, c)
    requires p < |Select(lib, ir, payload, values, Describe(declared, node), state).rows|
    ensures var d := Describe(declared, node);
            var row := Items(lib, payload, d)[Select(lib, ir, payload, values, d, state).rows[p]];
            && ir.contract == "burnlist-differential-testing-data@1" && HasText(c.attributes, "key", "non-pass")
            && Failing(lib, row)
  {
    hide Items, Named, On, Select, Failing;
    var d := Describe(declared, node);
    SelectIsExact(lib, ir, payload, values, declared, node, state);
    var i := Select(lib, ir, payload, values, d, state).rows[p];
    assert state.(pageIndex := state.pageIndex) == state;
    assert IsShown(lib, ir, values, node, Items(lib, payload, d), i);
  }

  // ----- The items

  /** The last record of the list with this id stands at `k`. */
  predicate LastWithId(entries: seq<Json>, id: string, k: nat) {
    k < |entries| && HasText(entries[k], "id", id)
    && forall j :: k < j < |entries| ==> !HasText(entries[j], "id", id)
  }

  /**
   The items of a collection are those the payload holds at its source; a record
   with an id gains the last transition record of that id, and nothing else changes.
   */
  lemma ItemsAreExact(lib: Library, payload: Json, declared: Collection, node: Node, raw: seq<Json>,
                      entries: seq<Json>, i: nat)
    requires lib.resolve(payload, declared.source) == Some(List(raw)) && i < |raw|
    requires var side := lib.resolve(payload, "/telemetry/fields");
             entries == if side.Some? && side.value.List? then side.value.items else []
    ensures var items := Items(lib, Some(payload), Describe(declared, node));
            && |items| == |raw|
            && (forall id, k: nat :: HasText(raw[i], "id", id) && LastWithId(entries, id, k) ==>
                  items[i] == Record(raw[i].fields["transitionTelemetry" := entries[k]]))
            && ((forall id, k: nat :: HasText(raw[i], "id", id) ==> !LastWithId(entries, id, k)) ==> items[i] == raw[i])
  {
    forall id ensures TextAt(raw[i], "id") == Some(id) <==> HasText(raw[i], "id", id) {
      TextIsHad(raw[i], "id", id);
    }
    assert SideTable(lib.resolve(payload, "/telemetry/fields")) == entries;
    assert Items(lib, Some(payload), Describe(declared, node))[i] == Joined(raw[i], entries);
    hide Items, Attached, SideTable;
    if TextAt(raw[i], "id").Some? {
      var id := TextAt(raw[i], "id").value;
      LastIsFound(entries, |entries|, id);
      assert entries[..|entries|] == entries;
      assert HasText(raw[i], "id", id);
      if SideEntry(entries, |entries|, id).Some? {
        var k :| 0 <= k < |entries| && entries[k] == SideEntry(entries, |entries|, id).value
          && LastWithId(entries, id, k);
        OneIsLast(entries, id, k);
      }
    }
  }

  lemma OneIsLast(entries: seq<Json>, id: string, k: nat)
    requires LastWithId(entries, id, k)
    ensures forall j: nat :: LastWithId(entries, id, j) ==> j == k
  {
  }

  lemma {:induction false} LastIsFound(entries: seq<Json>, n: nat, id: string)
    requires n <= |entries|
    ensures match SideEntry(entries, n, id)
            case None => forall j :: 0 <= j < n ==> !HasText(entries[j], "id", id)
            case Some(entry) =>
              exists k: nat :: k < n && entries[k] == entry && LastWithId(entries[..n], id, k)
  {
    if n > 0 {
      LastIsFound(entries, n - 1, id);
      TextIsHad(entries[n - 1], "id", id);
      if HasText(entries[n - 1], "id", id) {
        assert LastWithId(entries[..n], id, n - 1);
      } else if SideEntry(entries, n - 1, id).Some? {
        var k: nat :| k < n - 1 && entries[k] == SideEntry(entries, n - 1, id).value
          && LastWithId(entries[..n - 1], id, k);
        assert forall j :: 0 <= j < n - 1 ==> entries[..n - 1][j] == entries[..n][j];
        assert LastWithId(entries[..n], id, k);
      }
    }
  }

  // ----- The keys of the rows on a page

  /** The row whose key a row has: its own for a list or a record, the last equal one for anything else. */
  predicate KeyedAs(items: seq<Json>, row: nat, k: nat) {
    && row < |items| && k < |items| && items[k] == items[row]
    && (items[row].List? || items[row].Record? ==> k == row)
    && (!items[row].List? && !items[row].Record? ==> forall j :: k < j < |items| ==> items[j] != items[row])
  }

  lemma {:induction false} LastEqualIsLast(items: seq<Json>, n: nat, value: Json)
    requires n <= |items| && value in items[..n]
    ensures forall j :: LastEqual(items, n, value) < j < n ==> items[j] != value
  {
    if items[n - 1] != value {
      LastEqualIsLast(items, n - 1, value);
    }
  }

  /** Each row of a page has the key of the row it is keyed as. */
  lemma PageKeysAreExact(lib: Library, ir: Ir, payload: Option<Json>, values: map<string, ControlValue>, d: Descriptor,
                         state: CollectionState, p: nat, k: nat)
    requires p < |Select(lib, ir, payload, values, d, state).rows|
    requires KeyedAs(Items(lib, payload, d), Select(lib, ir, payload, values, d, state).rows[p], k)
    ensures k < |RowKeys(lib, payload, d)|
    ensures Select(lib, ir, payload, values, d, state).itemKeys[p] == RowKeys(lib, payload, d)[k]
  {
    hide VisibleRows, PageRows, PageCount, Items, RowKeys, Clamp;
    var items, rows := Items(lib, payload, d), Select(lib, ir, payload, values, d, state).rows;
    KeyIndexIsExact(items, rows[p], k);
    SameLength(lib, payload, d);
  }

  lemma SameLength(lib: Library, payload: Option<Json>, d: Descriptor)
    ensures |RowKeys(lib, payload, d)| == |Items(lib, payload, d)| == |RawItems(lib, payload, d)|
  {
  }

  lemma KeyIndexIsExact(items: seq<Json>, row: nat, k: nat)
    requires KeyedAs(items, row, k)
    ensures KeyIndex(items, row) == k
  {
    assert items[..|items|] == items;
    if !IsObject(items[row]) {
      LastEqualIsLast(items, |items|, items[row]);
    }
  }

  /** The scalar an item names itself by: a text, or a number as it is shown. */
  ghost predicate NamesItself(lib: Library, item: Json, itemKey: Option<string>, name: string) {
    && itemKey.Some? && itemKey.value != ""
    && exists pointer ::
         && (itemKey.value == "@item" + pointer || (pointer == itemKey.value && !Text.StartsWith(pointer, "@item")))
         && match lib.resolve(item, pointer)
            case Some(Text(text)) => name == text
            case Some(Number(x)) => name == lib.show(Number(x))
            case _ => false
  }

  lemma NameIsDeclared(lib: Library, item: Json, itemKey: Option<string>, name: string)
    requires name != ""
    ensures NamesItself(lib, item, itemKey, name) <==> DeclaredKey(lib, item, itemKey) == name
  {
    if itemKey.Some? && itemKey.value != "" {
      var key := itemKey.value;
      var pointer := if Text.StartsWith(key, "@item") then key[|"@item"|..] else key;
      forall q ensures key == "@item" + q || (q == key && !Text.StartsWith(q, "@item")) <==> q == pointer {
        if key == "@item" + q {
          assert key[..5] == "@item" && key[5..] == q;
        }
        if Text.StartsWith(key, "@item") {
          assert key == "@item" + key[5..];
        }
      }
      assert key == "@item" + pointer || (pointer == key && !Text.StartsWith(pointer, "@item"));
    }
  }

  /** A row is keyed by the scalar it names itself by, counted on where that repeats, or by its number. */
  lemma RowKeysAreExact(lib: Library, payload: Option<Json>, d: Descriptor, i: nat) returns (n: nat)
    requires i < |RawItems(lib, payload, d)|
    ensures var (raw, keys) := (RawItems(lib, payload, d), RowKeys(lib, payload, d));
            && |keys| == |raw|
            && (forall name :: name != "" && NamesItself(lib, raw[i], d.declared.itemKey, name) ==>
                  keys[i] == if n == 0 then name else name + "#" + ItemKeys.Digits(n))
            && ((forall name :: name != "" ==> !NamesItself(lib, raw[i], d.declared.itemKey, name)) ==>
                  keys[i] == "@row:" + ItemKeys.Digits(i))
  {
    var raw := RawItems(lib, payload, d);
    var declared := DeclaredKeys(lib, raw, d.declared.itemKey);
    n := ItemKeys.Occurrences(declared, i, ItemKeys.RawKey(declared, i));
    assert RowKeys(lib, payload, d)[i] == ItemKeys.Identity(declared[i], i, n);
    assert declared[i] == DeclaredKey(lib, raw[i], d.declared.itemKey);
    hide NamesItself, DeclaredKey, DeclaredKeys, ItemKeys.Digits, ItemKeys.Occurrences, RowKeys;
    forall name | name != ""
      ensures NamesItself(lib, raw[i], d.declared.itemKey, name) <==> declared[i] == name
    {
      NameIsDeclared(lib, raw[i], d.declared.itemKey, name);
    }
    if declared[i] != "" {
      assert NamesItself(lib, raw[i], d.declared.itemKey, declared[i]);
    }
  }
}
