/**
 JSON admission (tui/src/oven-runtime/resource-budget.ts): an explicit-stack
 walk over a heap of objects that may share or contain each other, against the
 trees such a heap unfolds to. `isJsonValue` (terminal-contract.ts) beside it.
 */
module JsonBudget {
  import opened Wrappers
  import opened Text

  type Ref = nat

  /** A JavaScript value; Other is anything JSON has no word for. */
  datatype Value = Null | Bool(b: bool) | Number(finite: bool) | Text(s: string) | Other | Object(ref: Ref)

  /**
   An object. `plain` says that its prototype, its property descriptors and,
   for an array, its length and slots are those of plain data.
   */
  datatype Obj = Array(plain: bool, items: seq<Value>) | Record(plain: bool, props: seq<(string, Value)>)

  type Heap = map<Ref, Obj>

  datatype Budget = Budget(nodes: nat, depth: nat, stringBytes: nat, textBytes: nat)

  datatype Issue = DepthIssue | NodesIssue | StringIssue | TextIssue | JsonIssue

  /** A value still to be inspected, and how deep it lies. */
  datatype Work = Work(value: Value, depth: nat)

  predicate Scalar(v: Value) {
    v.Null? || v.Bool? || v.Text? || (v.Number? && v.finite)
  }

  function TextSize(v: Value): nat {
    if v.Text? then Utf8Length(v.s) else 0
  }

  /** The values inside an object, in the order the walk stacks them: arrays from the back. */
  function Stacked(o: Obj): seq<Value> {
    match o
    case Array(_, items) => seq(|items|, i requires 0 <= i < |items| => items[|items| - 1 - i])
    case Record(_, props) => seq(|props|, i requires 0 <= i < |props| => props[i].1)
  }

  function KeysOf(o: Obj): seq<string> {
    match o
    case Array(_, _) => []
    case Record(_, props) => seq(|props|, i requires 0 <= i < |props| => props[i].0)
  }

  /** The value is an item or a property of the object. */
  predicate IsPart(o: Obj, v: Value) {
    match o
    case Array(_, items) => v in items
    case Record(_, props) => exists i :: 0 <= i < |props| && props[i].1 == v
  }

  /** Every reference leads to an object. */
  ghost predicate Closed(h: Heap, v: Value) {
    && (v.Object? ==> v.ref in h)
    && (forall r, w :: r in h && IsPart(h[r], w) && w.Object? ==> w.ref in h)
  }

  lemma PartIsClosed(h: Heap, r: Ref, v: Value)
    requires Closed(h, Object(r)) && IsPart(h[r], v)
    ensures Closed(h, v)
  {
  }

  // ----- what the heap unfolds to

  /** A finite JSON tree; each node remembers the object it stands for. The kids of an array run from the back. */
  datatype Tree = Leaf(value: Value) | Node(ref: Ref, kids: seq<Tree>)

  ghost predicate Unfolds(h: Heap, v: Value, t: Tree)
    decreases t
  {
    match t
    case Leaf(w) => w == v && Scalar(v)
    case Node(r, kids) =>
      && v == Object(r) && r in h && h[r].plain
      && match h[r]
         case Array(_, items) =>
           |kids| == |items| && forall i :: 0 <= i < |items| ==> Unfolds(h, items[i], kids[|items| - 1 - i])
         case Record(_, props) =>
           |kids| == |props| && forall i :: 0 <= i < |props| ==> Unfolds(h, props[i].1, kids[i])
  }

  /** The object of every node, with multiplicity. */
  function Refs(t: Tree): multiset<Ref> {
    match t
    case Leaf(_) => multiset{}
    case Node(r, kids) => multiset{r} + RefsOf(kids)
  }

  function RefsOf(ts: seq<Tree>): multiset<Ref> {
    if ts == [] then multiset{} else RefsOf(ts[..|ts| - 1]) + Refs(ts[|ts| - 1])
  }

  function Size(t: Tree): nat {
    match t
    case Leaf(_) => 1
    case Node(_, kids) => 1 + SizeOf(kids)
  }

  function SizeOf(ts: seq<Tree>): nat {
    if ts == [] then 0 else SizeOf(ts[..|ts| - 1]) + Size(ts[|ts| - 1])
  }

  function Height(t: Tree): nat {
    match t
    case Leaf(_) => 0
    case Node(_, kids) => HeightOf(kids)
  }

  /** One more than the tallest of the trees; 0 when there is none. */
  function HeightOf(ts: seq<Tree>): nat {
    if ts == [] then 0
    else
      var rest, last := HeightOf(ts[..|ts| - 1]), 1 + Height(ts[|ts| - 1]);
      if rest < last then last else rest
  }

  function KeyText(keys: seq<string>): nat {
    if keys == [] then 0 else Utf8Length(keys[0]) + KeyText(keys[1..])
  }

  /** The text of the names of all properties. */
  function NameText(props: seq<(string, Value)>): nat {
    if props == [] then 0 else NameText(props[..|props| - 1]) + Utf8Length(props[|props| - 1].0)
  }

  /** All text in the tree: strings and record keys. */
  function TextIn(h: Heap, t: Tree): nat {
    match t
    case Leaf(v) => TextSize(v)
    case Node(r, kids) => (if r in h && h[r].Record? then NameText(h[r].props) else 0) + TextInAll(h, kids)
  }

  function TextInAll(h: Heap, ts: seq<Tree>): nat {
    if ts == [] then 0 else TextInAll(h, ts[..|ts| - 1]) + TextIn(h, ts[|ts| - 1])
  }

  predicate KeysFit(keys: seq<string>, limit: nat) {
    forall i :: 0 <= i < |keys| ==> Utf8Length(keys[i]) <= limit
  }

  /** No string and no key is longer than the limit. */
  ghost predicate StringsFit(h: Heap, t: Tree, limit: nat) {
    match t
    case Leaf(v) => TextSize(v) <= limit
    case Node(r, kids) =>
      && (r in h && h[r].Record? ==> forall i :: 0 <= i < |h[r].props| ==> Utf8Length(h[r].props[i].0) <= limit)
      && forall i :: 0 <= i < |kids| ==> StringsFit(h, kids[i], limit)
  }

  predicate Distinct(m: multiset<Ref>) {
    forall r :: r in m ==> m[r] == 1
  }

  /** The value is a tree of plain JSON: every object is reached once. */
  ghost predicate PlainTree(h: Heap, v: Value, t: Tree) {
    Unfolds(h, v, t) && Distinct(Refs(t))
  }

  /** The limit an issue is about. */
  ghost predicate Keeps(h: Heap, t: Tree, b: Budget, issue: Issue) {
    match issue
    case DepthIssue => Height(t) <= b.depth
    case NodesIssue => Size(t) <= b.nodes
    case StringIssue => StringsFit(h, t, b.stringBytes)
    case TextIssue => TextIn(h, t) <= b.textBytes
    case JsonIssue => true
  }

  // ----- the walk

  /** The scan of one record's keys: the issue it meets, or the text so far. */
  function ScanKeys(keys: seq<string>, b: Budget, text: nat): Result<nat, Issue> {
    if keys == [] then Ok(text)
    else
      var size := Utf8Length(keys[0]);
      if size > b.stringBytes then Err(StringIssue)
      else if text + size > b.textBytes then Err(TextIssue)
      else ScanKeys(keys[1..], b, text + size)
  }

  function Pushed(o: Obj, depth: nat): seq<Work> {
    seq(|Stacked(o)|, i requires 0 <= i < |Stacked(o)| => Work(Stacked(o)[i], depth + 1))
  }

  ghost predicate StackClosed(h: Heap, pending: seq<Work>) {
    && Closed(h, Null)
    && (forall i :: 0 <= i < |pending| && pending[i].value.Object? ==> pending[i].value.ref in h)
  }

  /** The walk from any of its intermediate states: the issue it ends in, or none. */
  ghost function Walk(h: Heap, b: Budget, pending: seq<Work>, seen: set<Ref>, nodes: nat, text: nat): Option<Issue>
    requires StackClosed(h, pending) && nodes <= b.nodes
    decreases b.nodes - nodes
  {
    if pending == [] then None
    else
      var current, rest := pending[|pending| - 1], pending[..|pending| - 1];
      var item := current.value;
      if current.depth > b.depth then Some(DepthIssue)
      else if nodes + 1 > b.nodes then Some(NodesIssue)
      else if item.Text? then
        if TextSize(item) > b.stringBytes then Some(StringIssue)
        else if text + TextSize(item) > b.textBytes then Some(TextIssue)
        else Walk(h, b, rest, seen, nodes + 1, text + TextSize(item))
      else if item.Null? || item.Bool? || (item.Number? && item.finite) then Walk(h, b, rest, seen, nodes + 1, text)
      else if !item.Object? || item.ref in seen || !h[item.ref].plain then Some(JsonIssue)
      else
        var o := h[item.ref];
        match ScanKeys(KeysOf(o), b, text)
        case Err(issue) => Some(issue)
        case Ok(total) => Walk(h, b, rest + Pushed(o, current.depth), seen + {item.ref}, nodes + 1, total)
  }

  /** The items from `k` on lie on top of the stack, each one level deeper, the last one lowest. */
  predicate ItemsOnTop(items: seq<Value>, k: nat, depth: nat, pending: seq<Work>, stacked: seq<Work>)
    requires k <= |items|
  {
    && |stacked| == |pending| + (|items| - k) && stacked[..|pending|] == pending
    && var above := stacked[|pending|..];
       forall p :: 0 <= p < |above| ==> above[p] == Work(items[|items| - 1 - p], depth + 1)
  }

  /** The values of the first `k` properties lie on top of the stack, each one level deeper, the last one highest. */
  predicate PropertiesOnTop(props: seq<(string, Value)>, k: nat, depth: nat, pending: seq<Work>, stacked: seq<Work>)
    requires k <= |props|
  {
    && |stacked| == |pending| + k && stacked[..|pending|] == pending
    && var above := stacked[|pending|..];
       forall p :: 0 <= p < |above| ==> above[p] == Work(props[p].1, depth + 1)
  }

  /** Stacks the items of an array, last one first. */
  method StackItems(items: seq<Value>, depth: nat, pending: seq<Work>) returns (stacked: seq<Work>)
    ensures ItemsOnTop(items, 0, depth, pending, stacked)
  {
    stacked := pending;
    for index := |items| downto 0
      invariant ItemsOnTop(items, index, depth, pending, stacked)
    {
      PushItem(items, index + 1, depth, pending, stacked);
      stacked := stacked + [Work(items[index], depth + 1)];
    }
  }

  /** None of the first `k` names is longer than the limit. */
  predicate NamesFit(props: seq<(string, Value)>, k: nat, limit: nat)
    requires k <= |props|
  {
    forall i :: 0 <= i < k ==> Utf8Length(props[i].0) <= limit
  }

  /** The keys before `k` keep the limits and the one at `k` breaks the one the issue names. */
  predicate BreaksAt(props: seq<(string, Value)>, b: Budget, text: nat, k: nat, issue: Issue)
    requires k < |props|
  {
    && NamesFit(props, k, b.stringBytes) && text + NameText(props[..k]) <= b.textBytes
    && if Utf8Length(props[k].0) > b.stringBytes then issue == StringIssue
       else text + NameText(props[..k + 1]) > b.textBytes && issue == TextIssue
  }

  /** What reading one more key does to the text, and which issue it may raise. */
  lemma ReadKey(props: seq<(string, Value)>, b: Budget, text: nat, k: nat)
    requires k < |props| && NamesFit(props, k, b.stringBytes) && text + NameText(props[..k]) <= b.textBytes
    ensures NameText(props[..k + 1]) == NameText(props[..k]) + Utf8Length(props[k].0)
    ensures if Utf8Length(props[k].0) > b.stringBytes then BreaksAt(props, b, text, k, StringIssue)
            else
              && NamesFit(props, k + 1, b.stringBytes)
              && (text + NameText(props[..k + 1]) > b.textBytes ==> BreaksAt(props, b, text, k, TextIssue))
  {
    assert props[..k + 1][..k] == props[..k];
  }

  lemma NothingRead(props: seq<(string, Value)>, limit: nat, depth: nat, pending: seq<Work>)
    ensures NameText(props[..0]) == 0 && NamesFit(props, 0, limit)
    ensures PropertiesOnTop(props, 0, depth, pending, pending)
  {
  }

  /** The scan of the keys from `k` on. */
  function ScanFrom(props: seq<(string, Value)>, k: nat, b: Budget, text: nat): Result<nat, Issue>
    requires k <= |props|
  {
    ScanKeys(KeysOf(Record(true, props))[k..], b, text)
  }

  lemma ScanFromStep(props: seq<(string, Value)>, k: nat, b: Budget, text: nat)
    requires k <= |props|
    ensures k == 0 ==> ScanFrom(props, k, b, text) == ScanKeys(KeysOf(Record(true, props)), b, text)
    ensures ScanFrom(props, k, b, text)
         == if k == |props| then Ok(text)
            else if Utf8Length(props[k].0) > b.stringBytes then Err(StringIssue)
            else if text + Utf8Length(props[k].0) > b.textBytes then Err(TextIssue)
            else ScanFrom(props, k + 1, b, text + Utf8Length(props[k].0))
  {
    var keys := KeysOf(Record(true, props));
    if k < |keys| {
      assert keys[k..][1..] == keys[k + 1..];
    }
  }

  /** Stacks the properties of a record while its keys fit. */
  method StackProperties(props: seq<(string, Value)>, b: Budget, depth: nat, pending: seq<Work>, textBytes: nat)
    returns (text: Result<nat, Issue>, stacked: seq<Work>)
    requires textBytes <= b.textBytes
    ensures text == ScanKeys(KeysOf(Record(true, props)), b, textBytes)
    ensures text.Err? ==> exists k :: 0 <= k < |props| && BreaksAt(props, b, textBytes, k, text.error)
    ensures text.Ok? ==>
              && text.value == textBytes + NameText(props) <= b.textBytes && NamesFit(props, |props|, b.stringBytes)
              && PropertiesOnTop(props, |props|, depth, pending, stacked)
  {
    stacked := pending;
    var total: nat := textBytes;
    NothingRead(props, b.stringBytes, depth, pending);
    hide ScanKeys, ScanFrom, NameText, KeysOf, NamesFit, PropertiesOnTop, BreaksAt, Utf8Length;
    ScanFromStep(props, 0, b, textBytes);
    for k := 0 to |props|
      invariant total == textBytes + NameText(props[..k]) <= b.textBytes
      invariant NamesFit(props, k, b.stringBytes) && PropertiesOnTop(props, k, depth, pending, stacked)
      invariant ScanFrom(props, k, b, total) == ScanKeys(KeysOf(Record(true, props)), b, textBytes)
    {
      var (key, property) := props[k];
      ScanFromStep(props, k, b, total);
      ReadKey(props, b, textBytes, k);
      PushProperty(props, k, depth, pending, stacked);
      var size := Utf8Length(key);
      if size > b.stringBytes { return Err(StringIssue), []; }
      if total + size > b.textBytes { return Err(TextIssue), []; }
      total := total + size;
      stacked := stacked + [Work(property, depth + 1)];
    }
    assert props[..|props|] == props;
    ScanFromStep(props, |props|, b, total);
    text := Ok(total);
  }

  lemma PushItem(items: seq<Value>, k: nat, depth: nat, pending: seq<Work>, stacked: seq<Work>)
    requires 0 < k <= |items| && ItemsOnTop(items, k, depth, pending, stacked)
    ensures ItemsOnTop(items, k - 1, depth, pending, stacked + [Work(items[k - 1], depth + 1)])
  {
    var longer := stacked + [Work(items[k - 1], depth + 1)];
    assert longer[|pending|..] == stacked[|pending|..] + [Work(items[k - 1], depth + 1)];
    assert longer[..|pending|] == stacked[..|pending|];
  }

  lemma PushProperty(props: seq<(string, Value)>, k: nat, depth: nat, pending: seq<Work>, stacked: seq<Work>)
    requires k < |props| && PropertiesOnTop(props, k, depth, pending, stacked)
    ensures PropertiesOnTop(props, k + 1, depth, pending, stacked + [Work(props[k].1, depth + 1)])
  {
    var longer := stacked + [Work(props[k].1, depth + 1)];
    assert longer[|pending|..] == stacked[|pending|..] + [Work(props[k].1, depth + 1)];
    assert longer[..|pending|] == stacked[..|pending|];
  }

  /** The stack with the parts of the object on top of it. */
  lemma StackedParts(o: Obj, depth: nat, pending: seq<Work>, stacked: seq<Work>)
    requires o.Array? ==> ItemsOnTop(o.items, 0, depth, pending, stacked)
    requires o.Record? ==> PropertiesOnTop(o.props, |o.props|, depth, pending, stacked)
    ensures stacked == pending + Pushed(o, depth)
  {
    if o.Array? { StackedItems(o, depth, pending, stacked); } else { StackedProperties(o, depth, pending, stacked); }
    hide Pushed, ItemsOnTop, PropertiesOnTop;
    assert stacked == stacked[..|pending|] + stacked[|pending|..];
  }

  lemma StackedItems(o: Obj, depth: nat, pending: seq<Work>, stacked: seq<Work>)
    requires o.Array? && ItemsOnTop(o.items, 0, depth, pending, stacked)
    ensures |stacked| >= |pending| && stacked[..|pending|] == pending && stacked[|pending|..] == Pushed(o, depth)
  {
    var above := stacked[|pending|..];
    forall p | 0 <= p < |above| ensures above[p] == Pushed(o, depth)[p] {
    }
  }

  lemma StackedProperties(o: Obj, depth: nat, pending: seq<Work>, stacked: seq<Work>)
    requires o.Record? && PropertiesOnTop(o.props, |o.props|, depth, pending, stacked)
    ensures |stacked| >= |pending| && stacked[..|pending|] == pending && stacked[|pending|..] == Pushed(o, depth)
  {
    var above := stacked[|pending|..];
    forall p | 0 <= p < |above| ensures above[p] == Pushed(o, depth)[p] {
    }
  }

  /** Stacks what is inside an object; an array has no keys to charge. */
  method StackParts(o: Obj, b: Budget, depth: nat, pending: seq<Work>, textBytes: nat)
    returns (text: Result<nat, Issue>, stacked: seq<Work>)
    requires textBytes <= b.textBytes
    ensures text == ScanKeys(KeysOf(o), b, textBytes)
    ensures text.Ok? ==> stacked == pending + Pushed(o, depth)
  {
    hide ItemsOnTop, PropertiesOnTop, NamesFit, BreaksAt, NameText, Pushed, Utf8Length;
    if o.Array? {
      stacked := StackItems(o.items, depth, pending);
      text := Ok(textBytes);
      StackedParts(o, depth, pending, stacked);
    } else {
      text, stacked := StackProperties(o.props, b, depth, pending, textBytes);
      if text.Ok? { StackedParts(o, depth, pending, stacked); }
    }
  }

  /** `inspectJsonBudget`. */
  method InspectJsonBudget(h: Heap, value: Value, b: Budget) returns (issue: Option<Issue>)
    requires Closed(h, value)
    ensures issue == Walk(h, b, [Work(value, 0)], {}, 0, 0)
  {
    assert StackClosed(h, [Work(value, 0)]);
    hide Walk, StackClosed, Closed, Pushed, ScanKeys, KeysOf, Utf8Length;
    var pending: seq<Work>, seen: set<Ref> := [Work(value, 0)], {};
    var nodes: nat, textBytes: nat := 0, 0;
    while pending != []
      invariant nodes <= b.nodes && textBytes <= b.textBytes && StackClosed(h, pending)
      invariant Walk(h, b, pending, seen, nodes, textBytes) == Walk(h, b, [Work(value, 0)], {}, 0, 0)
      decreases b.nodes - nodes
    {
      var current := pending[|pending| - 1];
      ghost var whole := pending;
      pending := pending[..|pending| - 1];
      assert whole == pending + [current];
      NextStep(h, b, pending, current, seen, nodes, textBytes);
      if current.depth > b.depth { return Some(DepthIssue); }
      var item := current.value;
      nodes := nodes + 1;
      if nodes > b.nodes { return Some(NodesIssue); }
      if item.Text? {
        var size := Utf8Length(item.s);
        if size > b.stringBytes { return Some(StringIssue); }
        textBytes := textBytes + size;
        if textBytes > b.textBytes { return Some(TextIssue); }
        continue;
      }
      if item.Null? || item.Bool? || (item.Number? && item.finite) { continue; }
      if !item.Object? { return Some(JsonIssue); }
      if item.ref in seen { return Some(JsonIssue); }
      seen := seen + {item.ref};
      var o := h[item.ref];
      if !o.plain { return Some(JsonIssue); }
      var text, stacked := StackParts(o, b, current.depth, pending, textBytes);
      if text.Err? { return Some(text.error); }
      pending, textBytes := stacked, text.value;
    }
    WalkEnds(h, b, seen, nodes, textBytes);
    return None;
  }

  // ----- the walk accepts exactly the plain trees within every limit

  lemma {:induction false} ForestAppend(h: Heap, a: seq<Tree>, b: seq<Tree>)
    ensures RefsOf(a + b) == RefsOf(a) + RefsOf(b)
    ensures SizeOf(a + b) == SizeOf(a) + SizeOf(b)
    ensures TextInAll(h, a + b) == TextInAll(h, a) + TextInAll(h, b)
    decreases |b|
  {
    if b == [] {
      assert a + b == a;
    } else {
      assert (a + b)[..|a + b| - 1] == a + b[..|b| - 1];
      ForestAppend(h, a, b[..|b| - 1]);
    }
  }

  lemma {:induction false} HeightOfBound(ts: seq<Tree>, m: int)
    requires m >= 0
    ensures HeightOf(ts) <= m <==> forall i :: 0 <= i < |ts| ==> 1 + Height(ts[i]) <= m
  {
    if ts != [] {
      HeightOfBound(ts[..|ts| - 1], m);
    }
  }

  lemma {:induction false} ScanKeysResult(keys: seq<string>, b: Budget, text: nat)
    requires text <= b.textBytes
    ensures match ScanKeys(keys, b, text)
            case Ok(total) => total == text + KeyText(keys) <= b.textBytes && KeysFit(keys, b.stringBytes)
            case Err(StringIssue) => !KeysFit(keys, b.stringBytes)
            case Err(TextIssue) => text + KeyText(keys) > b.textBytes
            case Err(_) => false
  {
    if keys != [] && Utf8Length(keys[0]) <= b.stringBytes && text + Utf8Length(keys[0]) <= b.textBytes {
      ScanKeysResult(keys[1..], b, text + Utf8Length(keys[0]));
      if KeysFit(keys[1..], b.stringBytes) {
        assert forall i :: 0 < i < |keys| ==> keys[i] == keys[1..][i - 1];
      } else {
        assert !KeysFit(keys, b.stringBytes) by {
          var i :| 0 <= i < |keys[1..]| && Utf8Length(keys[1..][i]) > b.stringBytes;
          assert keys[i + 1] == keys[1..][i];
        }
      }
    }
  }

  lemma ScannedKeysFit(keys: seq<string>, b: Budget, text: nat)
    requires text <= b.textBytes && ScanKeys(keys, b, text).Ok?
    ensures ScanKeys(keys, b, text).value == text + KeyText(keys) <= b.textBytes && KeysFit(keys, b.stringBytes)
  {
    ScanKeysResult(keys, b, text);
  }

  /** Trees for everything still pending, that share no object with each other or with what was seen. */
  ghost predicate Forest(h: Heap, pending: seq<Work>, seen: set<Ref>, ts: seq<Tree>) {
    && AllUnfold(h, pending, ts)
    && Distinct(RefsOf(ts))
    && (forall r :: r in seen ==> r !in RefsOf(ts))
  }

  ghost predicate ForestKeeps(h: Heap, b: Budget, pending: seq<Work>, nodes: nat, text: nat, ts: seq<Tree>,
      issue: Issue)
    requires |ts| == |pending|
  {
    match issue
    case DepthIssue => AllShallow(b, pending, ts)
    case NodesIssue => nodes + SizeOf(ts) <= b.nodes
    case StringIssue => AllFit(h, ts, b.stringBytes)
    case TextIssue => text + TextInAll(h, ts) <= b.textBytes
    case JsonIssue => true
  }

  lemma DistinctPlusOne(m: multiset<Ref>, r: Ref)
    ensures Distinct(m + multiset{r}) <==> Distinct(m) && r !in m
  {
    var n := m + multiset{r};
    assert forall x :: x != r ==> n[x] == m[x];
    assert n[r] == m[r] + 1 && r in n;
    if Distinct(n) {
      assert n[r] == 1;
      forall x | x in m ensures m[x] == 1 { assert x in n; }
    }
  }

  lemma ForestSnoc(h: Heap, init: seq<Tree>, top: Tree)
    ensures RefsOf(init + [top]) == RefsOf(init) + Refs(top)
    ensures SizeOf(init + [top]) == SizeOf(init) + Size(top)
    ensures TextInAll(h, init + [top]) == TextInAll(h, init) + TextIn(h, top)
  {
    assert (init + [top])[..|init|] == init;
  }

  /** Unfolding a stack of values is unfolding each. */
  ghost predicate AllUnfold(h: Heap, pending: seq<Work>, ts: seq<Tree>) {
    |ts| == |pending| && forall i :: 0 <= i < |ts| ==> Unfolds(h, pending[i].value, ts[i])
  }

  lemma AllUnfoldAppend(h: Heap, p: seq<Work>, q: seq<Work>, a: seq<Tree>, b: seq<Tree>)
    requires |a| == |p| && |b| == |q|
    ensures AllUnfold(h, p + q, a + b) <==> AllUnfold(h, p, a) && AllUnfold(h, q, b)
  {
    hide Unfolds;
    if AllUnfold(h, p + q, a + b) {
      assert forall i :: 0 <= i < |a| ==> (p + q)[i] == p[i] && (a + b)[i] == a[i];
      assert forall i :: 0 <= i < |b| ==> (p + q)[|p| + i] == q[i] && (a + b)[|p| + i] == b[i];
    }
  }

  /** The kids of a node, in the order of the stack. */
  lemma NodeUnfolds(h: Heap, r: Ref, kids: seq<Tree>)
    ensures Unfolds(h, Object(r), Node(r, kids))
       <==> && r in h && h[r].plain && |kids| == |Stacked(h[r])|
            && forall i :: 0 <= i < |kids| ==> Unfolds(h, Stacked(h[r])[i], kids[i])
  {
    if r in h && h[r].Array? && |kids| == |h[r].items| {
      StackedItemsUnfold(h, h[r].plain, h[r].items, kids);
    }
    hide Scalar;
  }

  ghost predicate ItemsUnfold(h: Heap, items: seq<Value>, kids: seq<Tree>) {
    |kids| == |items| && forall i :: 0 <= i < |items| ==> Unfolds(h, items[i], kids[|items| - 1 - i])
  }

  ghost predicate ValuesUnfold(h: Heap, values: seq<Value>, kids: seq<Tree>) {
    |kids| == |values| && forall i :: 0 <= i < |values| ==> Unfolds(h, values[i], kids[i])
  }

  lemma ItemUnfolds(h: Heap, items: seq<Value>, kids: seq<Tree>, i: nat)
    requires ItemsUnfold(h, items, kids) && i < |items|
    ensures Unfolds(h, items[|items| - 1 - i], kids[i])
  {
    hide Unfolds;
    var k := |items| - 1 - i;
    assert kids[|items| - 1 - k] == kids[i];
  }

  lemma ValueUnfolds(h: Heap, values: seq<Value>, kids: seq<Tree>, i: nat)
    requires ValuesUnfold(h, values, kids) && i < |values|
    ensures Unfolds(h, values[i], kids[i])
  {
  }

  lemma StackedItem(plain: bool, items: seq<Value>, i: nat)
    requires i < |items|
    ensures |Stacked(Array(plain, items))| == |items| && Stacked(Array(plain, items))[i] == items[|items| - 1 - i]
  {
  }

  lemma StackedItemsUnfold(h: Heap, plain: bool, items: seq<Value>, kids: seq<Tree>)
    requires |kids| == |items|
    ensures ItemsUnfold(h, items, kids) <==> ValuesUnfold(h, Stacked(Array(plain, items)), kids)
  {
    hide Unfolds;
    var stacked := Stacked(Array(plain, items));
    assert |stacked| == |items|;
    hide Stacked;
    if ItemsUnfold(h, items, kids) {
      hide ItemsUnfold;
      forall i | 0 <= i < |items| ensures Unfolds(h, stacked[i], kids[i]) {
        ItemUnfolds(h, items, kids, i);
        StackedItem(plain, items, i);
      }
    }
    if ValuesUnfold(h, stacked, kids) {
      hide ValuesUnfold;
      forall i | 0 <= i < |items| ensures Unfolds(h, items[i], kids[|items| - 1 - i]) {
        ValueUnfolds(h, stacked, kids, |items| - 1 - i);
        StackedItem(plain, items, |items| - 1 - i);
      }
    }
  }

  lemma OpenTopUnfolds(h: Heap, rest: seq<Work>, current: Work, init: seq<Tree>, kids: seq<Tree>)
    requires current.value.Object? && current.value.ref in h && h[current.value.ref].plain
    requires |init| == |rest| && |kids| == |Stacked(h[current.value.ref])|
    ensures var r := current.value.ref;
            AllUnfold(h, rest + Pushed(h[r], current.depth), init + kids)
            <==> AllUnfold(h, rest + [current], init + [Node(r, kids)])
  {
    var r := current.value.ref;
    var node, inside := Node(r, kids), Pushed(h[r], current.depth);
    AllUnfoldAppend(h, rest, inside, init, kids);
    AllUnfoldAppend(h, rest, [current], init, [node]);
    assert AllUnfold(h, [current], [node]) <==> Unfolds(h, current.value, node) by {
      assert [current][0] == current && [node][0] == node;
    }
    NodeUnfolds(h, r, kids);
    hide Unfolds;
    assert AllUnfold(h, inside, kids) <==> Unfolds(h, current.value, node) by {
      assert forall i :: 0 <= i < |kids| ==> inside[i].value == Stacked(h[r])[i];
    }
  }

  lemma OpenTopDistinct(h: Heap, r: Ref, seen: set<Ref>, init: seq<Tree>, kids: seq<Tree>)
    ensures r !in seen && Distinct(RefsOf(init + kids)) && (forall x :: x in seen + {r} ==> x !in RefsOf(init + kids))
            <==> var refs := RefsOf(init + [Node(r, kids)]);
                 Distinct(refs) && (forall x :: x in seen ==> x !in refs)
  {
    ForestAppend(h, init, kids);
    ForestSnoc(h, init, Node(r, kids));
    var refs := RefsOf(init + kids);
    assert RefsOf(init + [Node(r, kids)]) == refs + multiset{r};
    DistinctPlusOne(refs, r);
    assert forall x :: x in refs + multiset{r} <==> x in refs || x == r;
  }

  /** The trees once the top object is replaced by what it holds, and back. */
  lemma OpenTop(h: Heap, rest: seq<Work>, current: Work, seen: set<Ref>, init: seq<Tree>, kids: seq<Tree>)
    requires current.value.Object? && current.value.ref in h && h[current.value.ref].plain
    requires |init| == |rest| && |kids| == |Stacked(h[current.value.ref])|
    ensures var r := current.value.ref;
            r !in seen && Forest(h, rest + Pushed(h[r], current.depth), seen + {r}, init + kids)
            <==> Forest(h, rest + [current], seen, init + [Node(r, kids)])
  {
    OpenTopUnfolds(h, rest, current, init, kids);
    OpenTopDistinct(h, current.value.ref, seen, init, kids);
  }

  ghost predicate AllShallow(b: Budget, pending: seq<Work>, ts: seq<Tree>)
    requires |ts| == |pending|
  {
    forall i :: 0 <= i < |ts| ==> pending[i].depth + Height(ts[i]) <= b.depth
  }

  lemma AllShallowAppend(b: Budget, p: seq<Work>, q: seq<Work>, s: seq<Tree>, t: seq<Tree>)
    requires |s| == |p| && |t| == |q|
    ensures AllShallow(b, p + q, s + t) <==> AllShallow(b, p, s) && AllShallow(b, q, t)
  {
    if AllShallow(b, p + q, s + t) {
      assert forall i :: 0 <= i < |s| ==> (p + q)[i] == p[i] && (s + t)[i] == s[i];
      assert forall i :: 0 <= i < |t| ==> (p + q)[|p| + i] == q[i] && (s + t)[|p| + i] == t[i];
    }
  }

  ghost predicate AllFit(h: Heap, ts: seq<Tree>, limit: nat) {
    forall i :: 0 <= i < |ts| ==> StringsFit(h, ts[i], limit)
  }

  lemma AllFitAppend(h: Heap, s: seq<Tree>, t: seq<Tree>, limit: nat)
    ensures AllFit(h, s + t, limit) <==> AllFit(h, s, limit) && AllFit(h, t, limit)
  {
    if AllFit(h, s + t, limit) {
      assert forall i :: 0 <= i < |s| ==> (s + t)[i] == s[i];
      assert forall i :: 0 <= i < |t| ==> (s + t)[|s| + i] == t[i];
    }
  }

  lemma OneFits(h: Heap, t: Tree, limit: nat)
    ensures AllFit(h, [t], limit) <==> StringsFit(h, t, limit)
  {
    assert [t][0] == t;
  }

  lemma OpenTopLimits(h: Heap, b: Budget, rest: seq<Work>, current: Work, nodes: nat, text: nat,
                      init: seq<Tree>, kids: seq<Tree>, issue: Issue)
    requires current.value.Object? && current.value.ref in h
    requires |init| == |rest| && |kids| == |Stacked(h[current.value.ref])|
    requires current.depth <= b.depth && KeysFit(KeysOf(h[current.value.ref]), b.stringBytes)
    ensures var o := h[current.value.ref];
            ForestKeeps(h, b, rest + Pushed(o, current.depth), nodes + 1, text + KeyText(KeysOf(o)), init + kids, issue)
            <==> ForestKeeps(h, b, rest + [current], nodes, text, init + [Node(current.value.ref, kids)], issue)
  {
    hide AllShallow, AllFit, KeysOf, Stacked, HeightOf, SizeOf, TextInAll, KeyText, KeysFit;
    match issue {
      case DepthIssue => OpenTopDepth(h, b, rest, current, init, kids);
      case StringIssue => OpenTopStrings(h, current.value.ref, init, kids, b.stringBytes);
      case NodesIssue => OpenTopCounts(h, current.value.ref, init, kids);
      case TextIssue => OpenTopCounts(h, current.value.ref, init, kids);
      case JsonIssue =>
    }
  }

  /** The keys the walk charges are the names of the properties. */
  lemma KeysAreNames(o: Obj, limit: nat)
    ensures KeyText(KeysOf(o)) == if o.Record? then NameText(o.props) else 0
    ensures KeysFit(KeysOf(o), limit)
       <==> (o.Record? ==> forall i :: 0 <= i < |o.props| ==> Utf8Length(o.props[i].0) <= limit)
  {
    if o.Record? {
      KeyTextIsNameText(o.plain, o.props);
      assert forall i :: 0 <= i < |o.props| ==> KeysOf(o)[i] == o.props[i].0;
    }
  }

  lemma {:induction false} KeyTextIsNameText(plain: bool, props: seq<(string, Value)>)
    ensures KeyText(KeysOf(Record(plain, props))) == NameText(props)
  {
    if props != [] {
      var rest, last := props[..|props| - 1], props[|props| - 1];
      KeyTextIsNameText(plain, rest);
      assert KeysOf(Record(plain, props)) == KeysOf(Record(plain, rest)) + [last.0];
      KeyTextSnoc(KeysOf(Record(plain, rest)), last.0);
    }
  }

  lemma {:induction false} KeyTextSnoc(keys: seq<string>, last: string)
    ensures KeyText(keys + [last]) == KeyText(keys) + Utf8Length(last)
  {
    if keys != [] {
      KeyTextSnoc(keys[1..], last);
      assert (keys + [last])[1..] == keys[1..] + [last];
    }
  }

  lemma OpenTopStrings(h: Heap, r: Ref, init: seq<Tree>, kids: seq<Tree>, limit: nat)
    requires r in h && KeysFit(KeysOf(h[r]), limit)
    ensures AllFit(h, init + kids, limit) <==> AllFit(h, init + [Node(r, kids)], limit)
  {
    hide KeysOf, KeysFit;
    AllFitAppend(h, init, kids, limit);
    AllFitAppend(h, init, [Node(r, kids)], limit);
    OneFits(h, Node(r, kids), limit);
    KeysAreNames(h[r], limit);
  }

  lemma OpenTopCounts(h: Heap, r: Ref, init: seq<Tree>, kids: seq<Tree>)
    requires r in h
    ensures SizeOf(init + [Node(r, kids)]) == SizeOf(init + kids) + 1
    ensures TextInAll(h, init + [Node(r, kids)]) == TextInAll(h, init + kids) + KeyText(KeysOf(h[r]))
  {
    hide KeysOf, KeyText, SizeOf, TextInAll;
    ForestAppend(h, init, kids);
    ForestSnoc(h, init, Node(r, kids));
    KeysAreNames(h[r], 0);
  }

  lemma OpenTopDepth(h: Heap, b: Budget, rest: seq<Work>, current: Work, init: seq<Tree>, kids: seq<Tree>)
    requires current.value.Object? && current.value.ref in h && current.depth <= b.depth
    requires |init| == |rest| && |kids| == |Stacked(h[current.value.ref])|
    ensures AllShallow(b, rest + Pushed(h[current.value.ref], current.depth), init + kids)
            <==> AllShallow(b, rest + [current], init + [Node(current.value.ref, kids)])
  {
    var node, inside := Node(current.value.ref, kids), Pushed(h[current.value.ref], current.depth);
    AllShallowAppend(b, rest, inside, init, kids);
    AllShallowAppend(b, rest, [current], init, [node]);
    HeightOfBound(kids, b.depth - current.depth);
    assert AllShallow(b, inside, kids) <==> HeightOf(kids) <= b.depth - current.depth by {
      assert forall i :: 0 <= i < |kids| ==> inside[i].depth == current.depth + 1;
    }
    assert AllShallow(b, [current], [node]) <==> HeightOf(kids) <= b.depth - current.depth by {
      assert [current][0] == current && [node][0] == node;
    }
  }

  /** A scalar on top stands for itself. */
  lemma LeafTop(h: Heap, rest: seq<Work>, current: Work, seen: set<Ref>, init: seq<Tree>)
    requires Scalar(current.value) && |init| == |rest|
    ensures Forest(h, rest, seen, init) <==> Forest(h, rest + [current], seen, init + [Leaf(current.value)])
  {
    var leaf := Leaf(current.value);
    AllUnfoldAppend(h, rest, [current], init, [leaf]);
    assert AllUnfold(h, [current], [leaf]);
    ForestSnoc(h, init, leaf);
    assert RefsOf(init) + multiset{} == RefsOf(init);
  }

  lemma LeafTopLimits(h: Heap, b: Budget, rest: seq<Work>, current: Work, nodes: nat, text: nat, init: seq<Tree>,
      issue: Issue)
    requires Scalar(current.value) && |init| == |rest|
    requires current.depth <= b.depth && TextSize(current.value) <= b.stringBytes
    ensures ForestKeeps(h, b, rest, nodes + 1, text + TextSize(current.value), init, issue)
            <==> ForestKeeps(h, b, rest + [current], nodes, text, init + [Leaf(current.value)], issue)
  {
    var leaf := Leaf(current.value);
    ForestSnoc(h, init, leaf);
    AllShallowAppend(b, rest, [current], init, [leaf]);
    AllFitAppend(h, init, [leaf], b.stringBytes);
    assert AllShallow(b, [current], [leaf]) && AllFit(h, [leaf], b.stringBytes);
  }

  ghost predicate ForestWithin(h: Heap, b: Budget, pending: seq<Work>, nodes: nat, text: nat, ts: seq<Tree>) {
    |ts| == |pending| && forall issue :: ForestKeeps(h, b, pending, nodes, text, ts, issue)
  }

  lemma OpenTopWithin(h: Heap, b: Budget, rest: seq<Work>, current: Work, nodes: nat, text: nat, init: seq<Tree>,
      kids: seq<Tree>)
    requires current.value.Object? && current.value.ref in h
    requires |init| == |rest| && |kids| == |Stacked(h[current.value.ref])|
    requires current.depth <= b.depth && KeysFit(KeysOf(h[current.value.ref]), b.stringBytes)
    requires var o := h[current.value.ref];
             ForestWithin(h, b, rest + Pushed(o, current.depth), nodes + 1, text + KeyText(KeysOf(o)), init + kids)
    ensures ForestWithin(h, b, rest + [current], nodes, text, init + [Node(current.value.ref, kids)])
  {
    hide KeysOf, Stacked, AllShallow, AllFit, TextInAll, SizeOf;
    var ts := init + [Node(current.value.ref, kids)];
    forall issue ensures ForestKeeps(h, b, rest + [current], nodes, text, ts, issue) {
      OpenTopLimits(h, b, rest, current, nodes, text, init, kids, issue);
    }
  }

  lemma LeafTopWithin(h: Heap, b: Budget, rest: seq<Work>, current: Work, nodes: nat, text: nat, init: seq<Tree>)
    requires Scalar(current.value) && |init| == |rest|
    requires current.depth <= b.depth && TextSize(current.value) <= b.stringBytes
    requires ForestWithin(h, b, rest, nodes + 1, text + TextSize(current.value), init)
    ensures ForestWithin(h, b, rest + [current], nodes, text, init + [Leaf(current.value)])
  {
    forall issue ensures ForestKeeps(h, b, rest + [current], nodes, text, init + [Leaf(current.value)], issue) {
      LeafTopLimits(h, b, rest, current, nodes, text, init, issue);
    }
  }

  ghost predicate TopClosed(h: Heap, current: Work) {
    current.value.Object? ==> current.value.ref in h
  }

  lemma ClosedTop(h: Heap, rest: seq<Work>, current: Work)
    ensures StackClosed(h, rest + [current]) <==> StackClosed(h, rest) && TopClosed(h, current)
    ensures StackClosed(h, rest + [current]) && current.value.Object?
            ==> StackClosed(h, rest + Pushed(h[current.value.ref], current.depth))
  {
    var pending := rest + [current];
    assert pending[|rest|] == current;
    assert forall i :: 0 <= i < |rest| ==> pending[i] == rest[i];
  }

  /** One step of a walk that has met no issue yet. */
  lemma WalkStep(h: Heap, b: Budget, rest: seq<Work>, current: Work, seen: set<Ref>, nodes: nat, text: nat)
    requires StackClosed(h, rest) && TopClosed(h, current) && StackClosed(h, rest + [current])
    requires current.value.Object? ==> StackClosed(h, rest + Pushed(h[current.value.ref], current.depth))
    requires nodes < b.nodes && text <= b.textBytes && current.depth <= b.depth
    ensures var v := current.value;
            && (Scalar(v) && TextSize(v) <= b.stringBytes && text + TextSize(v) <= b.textBytes
                ==> Walk(h, b, rest + [current], seen, nodes, text)
                    == Walk(h, b, rest, seen, nodes + 1, text + TextSize(v)))
            && (v.Object? && v.ref !in seen && h[v.ref].plain && ScanKeys(KeysOf(h[v.ref]), b, text).Ok?
                ==> Walk(h, b, rest + [current], seen, nodes, text)
                    == Walk(h, b, rest + Pushed(h[v.ref], current.depth), seen + {v.ref}, nodes + 1,
                        text + KeyText(KeysOf(h[v.ref]))))
  {
    var pending := rest + [current];
    assert pending[|pending| - 1] == current && pending[..|pending| - 1] == rest;
    if current.value.Object? {
      ScanKeysResult(KeysOf(h[current.value.ref]), b, text);
    }
  }

  predicate Stops(h: Heap, b: Budget, current: Work, nodes: nat, text: nat)
    requires current.value.Object? ==> current.value.ref in h
  {
    || current.depth > b.depth || nodes == b.nodes
    || TextSize(current.value) > b.stringBytes || text + TextSize(current.value) > b.textBytes
    || (current.value.Object? && ScanKeys(KeysOf(h[current.value.ref]), b, text).Err?)
  }

  lemma WalkEnds(h: Heap, b: Budget, seen: set<Ref>, nodes: nat, text: nat)
    requires StackClosed(h, []) && nodes <= b.nodes
    ensures Walk(h, b, [], seen, nodes, text) == None
  {
  }

  /** What the walk does with the value on top, test by test. */
  lemma NextStep(h: Heap, b: Budget, rest: seq<Work>, current: Work, seen: set<Ref>, nodes: nat, text: nat)
    requires StackClosed(h, rest + [current]) && nodes <= b.nodes && text <= b.textBytes
    ensures StackClosed(h, rest) && TopClosed(h, current)
    ensures current.value.Object? ==>
              current.value.ref in h && StackClosed(h, rest + Pushed(h[current.value.ref], current.depth))
    ensures var v, issue := current.value, Walk(h, b, rest + [current], seen, nodes, text);
            if current.depth > b.depth then issue == Some(DepthIssue)
            else if nodes == b.nodes then issue == Some(NodesIssue)
            else
              match v
              case Text(s) =>
                if Utf8Length(s) > b.stringBytes then issue == Some(StringIssue)
                else if text + Utf8Length(s) > b.textBytes then issue == Some(TextIssue)
                else issue == Walk(h, b, rest, seen, nodes + 1, text + Utf8Length(s))
              case Object(r) =>
                if r in seen || !h[r].plain then issue == Some(JsonIssue)
                else
                  (match ScanKeys(KeysOf(h[r]), b, text)
                   case Err(e) => issue == Some(e)
                   case Ok(total) =>
                     && total <= b.textBytes
                     && issue == Walk(h, b, rest + Pushed(h[r], current.depth), seen + {r}, nodes + 1, total))
              case Other => issue == Some(JsonIssue)
              case Number(finite) =>
                issue == if finite then Walk(h, b, rest, seen, nodes + 1, text) else Some(JsonIssue)
              case _ => issue == Walk(h, b, rest, seen, nodes + 1, text)
  {
    hide Walk, StackClosed, Pushed, KeysOf, ScanKeys, Utf8Length;
    ClosedTop(h, rest, current);
    WalkStops(h, b, rest, current, seen, nodes, text);
    var v := current.value;
    if current.depth <= b.depth && nodes < b.nodes {
      WalkStep(h, b, rest, current, seen, nodes, text);
      if v.Object? && ScanKeys(KeysOf(h[v.ref]), b, text).Ok? {
        ScannedKeysFit(KeysOf(h[v.ref]), b, text);
      }
    }
  }

  /** When and why a walk stops at the value on top. */
  lemma WalkStops(h: Heap, b: Budget, rest: seq<Work>, current: Work, seen: set<Ref>, nodes: nat, text: nat)
    requires TopClosed(h, current) && StackClosed(h, rest + [current]) && nodes <= b.nodes && text <= b.textBytes
    ensures var v, issue := current.value, Walk(h, b, rest + [current], seen, nodes, text);
            if current.depth > b.depth then issue == Some(DepthIssue)
            else if nodes == b.nodes then issue == Some(NodesIssue)
            else if TextSize(v) > b.stringBytes then issue == Some(StringIssue)
            else if text + TextSize(v) > b.textBytes then issue == Some(TextIssue)
            else if !Scalar(v) && (!v.Object? || v.ref in seen || !h[v.ref].plain) then issue == Some(JsonIssue)
            else
              v.Object? && ScanKeys(KeysOf(h[v.ref]), b, text).Err?
              ==> issue == Some(ScanKeys(KeysOf(h[v.ref]), b, text).error)
  {
    var pending := rest + [current];
    assert pending[|pending| - 1] == current && pending[..|pending| - 1] == rest;
  }

  /** An accepted walk yields a tree for everything that was pending, within every limit. */
  lemma {:induction false} WalkSound(h: Heap, b: Budget, pending: seq<Work>, seen: set<Ref>, nodes: nat, text: nat)
    returns (ts: seq<Tree>)
    requires StackClosed(h, pending) && nodes <= b.nodes && text <= b.textBytes
    requires Walk(h, b, pending, seen, nodes, text) == None
    ensures Forest(h, pending, seen, ts) && ForestWithin(h, b, pending, nodes, text, ts)
    decreases b.nodes - nodes, 1
  {
    if pending == [] {
      ts := [];
      forall issue ensures ForestKeeps(h, b, pending, nodes, text, ts, issue) {}
      return;
    }
    var n := |pending| - 1;
    var current, rest := pending[n], pending[..n];
    assert pending == rest + [current];
    ClosedTop(h, rest, current);
    WalkStops(h, b, rest, current, seen, nodes, text);
    if !current.value.Object? {
      WalkStep(h, b, rest, current, seen, nodes, text);
    }
    if current.value.Object? {
      var init, kids := SoundInsideObject(h, b, rest, current, seen, nodes, text);
      ts := init + [Node(current.value.ref, kids)];
    } else {
      var us := WalkSound(h, b, rest, seen, nodes + 1, text + TextSize(current.value));
      LeafTop(h, rest, current, seen, us);
      LeafTopWithin(h, b, rest, current, nodes, text, us);
      ts := us + [Leaf(current.value)];
    }
  }

  lemma {:induction false} SoundInsideObject(h: Heap, b: Budget, rest: seq<Work>, current: Work, seen: set<Ref>,
                                             nodes: nat, text: nat)
    returns (init: seq<Tree>, kids: seq<Tree>)
    requires TopClosed(h, current) && StackClosed(h, rest) && StackClosed(h, rest + [current]) && text <= b.textBytes
    requires current.value.Object? && nodes < b.nodes && !Stops(h, b, current, nodes, text)
    requires current.value.ref !in seen && h[current.value.ref].plain
    requires Walk(h, b, rest + [current], seen, nodes, text) == None
    ensures Forest(h, rest + [current], seen, init + [Node(current.value.ref, kids)])
    ensures ForestWithin(h, b, rest + [current], nodes, text, init + [Node(current.value.ref, kids)])
    decreases b.nodes - nodes, 0
  {
    hide Walk, StackClosed, Unfolds, Distinct, KeysFit, ForestKeeps, RefsOf;
    var o := h[current.value.ref];
    ClosedTop(h, rest, current);
    ScannedKeysFit(KeysOf(o), b, text);
    WalkStep(h, b, rest, current, seen, nodes, text);
    var us := WalkSound(h, b, rest + Pushed(o, current.depth), seen + {current.value.ref}, nodes + 1,
        text + KeyText(KeysOf(o)));
    init, kids := us[..|rest|], us[|rest|..];
    assert us == init + kids;
    OpenTop(h, rest, current, seen, init, kids);
    OpenTopWithin(h, b, rest, current, nodes, text, init, kids);
  }

  /** The value on top alone breaks the limit the walk stops at. */
  lemma TopBreaks(h: Heap, b: Budget, rest: seq<Work>, current: Work, seen: set<Ref>, nodes: nat, text: nat,
                  init: seq<Tree>, top: Tree)
    requires TopClosed(h, current) && StackClosed(h, rest + [current]) && nodes <= b.nodes && text <= b.textBytes
    requires Forest(h, rest + [current], seen, init + [top])
    requires Stops(h, b, current, nodes, text)
    ensures var issue := Walk(h, b, rest + [current], seen, nodes, text);
            issue.Some? && !ForestKeeps(h, b, rest + [current], nodes, text, init + [top], issue.value)
  {
    hide Walk, StackClosed, Distinct, Stacked, KeysOf, Unfolds, StringsFit, Stops, RefsOf, AllFit, AllShallow;
    TopUnfolds(h, rest, current, seen, init, top);
    TopIssueIsReal(h, b, rest, current, seen, nodes, text, top);
    ForestSnoc(h, init, top);
    AllShallowAppend(b, rest, [current], init, [top]);
    AllFitAppend(h, init, [top], b.stringBytes);
    OneShallow(b, current, top);
    OneFits(h, top, b.stringBytes);
  }

  lemma OneShallow(b: Budget, current: Work, t: Tree)
    ensures AllShallow(b, [current], [t]) <==> current.depth + Height(t) <= b.depth
  {
    assert [current][0] == current && [t][0] == t;
  }

  /** The limit the walk stops at is one the value on top breaks by itself. */
  lemma TopIssueIsReal(h: Heap, b: Budget, rest: seq<Work>, current: Work, seen: set<Ref>, nodes: nat, text: nat,
                       top: Tree)
    requires TopClosed(h, current) && StackClosed(h, rest + [current]) && nodes <= b.nodes && text <= b.textBytes
    requires Stops(h, b, current, nodes, text) && Unfolds(h, current.value, top)
    requires !Scalar(current.value) ==> current.value.Object? && current.value.ref !in seen
    ensures match Walk(h, b, rest + [current], seen, nodes, text)
            case Some(DepthIssue) => current.depth + Height(top) > b.depth
            case Some(NodesIssue) => nodes + Size(top) > b.nodes
            case Some(StringIssue) => !StringsFit(h, top, b.stringBytes)
            case Some(TextIssue) => text + TextIn(h, top) > b.textBytes
            case _ => false
  {
    hide Walk, StackClosed, KeysOf, ScanKeys, KeyText, NameText, Utf8Length;
    WalkStops(h, b, rest, current, seen, nodes, text);
    if current.value.Object? {
      KeysAreNames(h[current.value.ref], b.stringBytes);
      ScanKeysResult(KeysOf(h[current.value.ref]), b, text);
    }
  }

  /** In a forest, the value on top is a scalar, or a plain object not seen before. */
  lemma TopUnfolds(h: Heap, rest: seq<Work>, current: Work, seen: set<Ref>, init: seq<Tree>, top: Tree)
    requires Forest(h, rest + [current], seen, init + [top])
    ensures |init| == |rest| && Unfolds(h, current.value, top)
    ensures !Scalar(current.value) ==> current.value.Object? && current.value.ref !in seen
  {
    assert (rest + [current])[|rest|] == current && (init + [top])[|rest|] == top;
    ForestSnoc(h, init, top);
    if top.Node? {
      assert top.ref in Refs(top);
    }
  }

  /** Whatever the issue, trees for the pending values would break the very limit it names. */
  lemma {:induction false} WalkIssueIsReal(h: Heap, b: Budget, pending: seq<Work>, seen: set<Ref>,
                                           nodes: nat, text: nat, ts: seq<Tree>)
    requires StackClosed(h, pending) && nodes <= b.nodes && text <= b.textBytes
    requires Walk(h, b, pending, seen, nodes, text).Some?
    requires Forest(h, pending, seen, ts)
    ensures !ForestKeeps(h, b, pending, nodes, text, ts, Walk(h, b, pending, seen, nodes, text).value)
    decreases b.nodes - nodes, 1
  {
    hide Unfolds, Distinct, ForestKeeps, RefsOf;
    var n := |pending| - 1;
    var current, rest, init, top := pending[n], pending[..n], ts[..n], ts[n];
    assert pending == rest + [current] && ts == init + [top];
    ClosedTop(h, rest, current);
    TopUnfolds(h, rest, current, seen, init, top);
    if Stops(h, b, current, nodes, text) {
      TopBreaks(h, b, rest, current, seen, nodes, text, init, top);
    } else if current.value.Object? {
      IssueInsideObject(h, b, rest, current, seen, nodes, text, init, top.kids);
    } else {
      IssueBelowLeaf(h, b, rest, current, seen, nodes, text, init);
    }
  }

  lemma {:induction false} IssueInsideObject(h: Heap, b: Budget, rest: seq<Work>, current: Work, seen: set<Ref>,
                                             nodes: nat, text: nat, init: seq<Tree>, kids: seq<Tree>)
    requires TopClosed(h, current) && StackClosed(h, rest) && StackClosed(h, rest + [current]) && text <= b.textBytes
    requires current.value.Object? && nodes < b.nodes && !Stops(h, b, current, nodes, text)
    requires Walk(h, b, rest + [current], seen, nodes, text).Some?
    requires Forest(h, rest + [current], seen, init + [Node(current.value.ref, kids)])
    ensures !ForestKeeps(h, b, rest + [current], nodes, text, init + [Node(current.value.ref, kids)],
                         Walk(h, b, rest + [current], seen, nodes, text).value)
    decreases b.nodes - nodes, 0
  {
    hide Walk, StackClosed, Unfolds, Distinct, KeysFit, ForestKeeps, RefsOf;
    var o, top := h[current.value.ref], Node(current.value.ref, kids);
    ClosedTop(h, rest, current);
    TopUnfolds(h, rest, current, seen, init, top);
    OpenTop(h, rest, current, seen, init, kids);
    ScannedKeysFit(KeysOf(o), b, text);
    WalkStep(h, b, rest, current, seen, nodes, text);
    WalkIssueIsReal(h, b, rest + Pushed(o, current.depth), seen + {current.value.ref}, nodes + 1,
        text + KeyText(KeysOf(o)), init + kids);
    OpenTopLimits(h, b, rest, current, nodes, text, init, kids, Walk(h, b, rest + [current], seen, nodes, text).value);
  }

  lemma {:induction false} IssueBelowLeaf(h: Heap, b: Budget, rest: seq<Work>, current: Work, seen: set<Ref>,
                                          nodes: nat, text: nat, init: seq<Tree>)
    requires TopClosed(h, current) && StackClosed(h, rest) && StackClosed(h, rest + [current]) && text <= b.textBytes
    requires Scalar(current.value) && nodes < b.nodes && !Stops(h, b, current, nodes, text)
    requires Walk(h, b, rest + [current], seen, nodes, text).Some?
    requires Forest(h, rest + [current], seen, init + [Leaf(current.value)])
    ensures !ForestKeeps(h, b, rest + [current], nodes, text, init + [Leaf(current.value)],
                         Walk(h, b, rest + [current], seen, nodes, text).value)
    decreases b.nodes - nodes, 0
  {
    hide Walk, StackClosed, Distinct, KeysFit, ForestKeeps, RefsOf;
    TopUnfolds(h, rest, current, seen, init, Leaf(current.value));
    LeafTop(h, rest, current, seen, init);
    WalkStep(h, b, rest, current, seen, nodes, text);
    WalkIssueIsReal(h, b, rest, seen, nodes + 1, text + TextSize(current.value), init);
    LeafTopLimits(h, b, rest, current, nodes, text, init, Walk(h, b, rest + [current], seen, nodes, text).value);
  }

  lemma OneTree(h: Heap, t: Tree)
    ensures RefsOf([t]) == Refs(t) && SizeOf([t]) == Size(t) && TextInAll(h, [t]) == TextIn(h, t)
  {
    assert [t][..0] == [];
  }

  /**
   On any heap, cycles and shared objects included: no issue exactly when the
   value unfolds to a tree that reaches each object once and keeps every limit;
   and an issue always names a limit that no such tree of this value keeps.
   */
  lemma AdmissionIsExact(h: Heap, v: Value, b: Budget)
    requires Closed(h, v)
    ensures var issue := Walk(h, b, [Work(v, 0)], {}, 0, 0);
            && (issue == None <==> exists t :: PlainTree(h, v, t) && forall limit :: Keeps(h, t, b, limit))
            && (issue.Some? ==> forall t :: PlainTree(h, v, t) ==> !Keeps(h, t, b, issue.value))
  {
    hide Walk, Stacked, Unfolds, Height, HeightOf, StringsFit, Distinct, RefsOf, Refs;
    var root := [Work(v, 0)];
    var issue := Walk(h, b, root, {}, 0, 0);
    if issue == None {
      var ts := WalkSound(h, b, root, {}, 0, 0);
      assert ts == [ts[0]];
      OneTree(h, ts[0]);
      forall limit ensures Keeps(h, ts[0], b, limit) {
        assert ForestKeeps(h, b, root, 0, 0, ts, limit);
      }
      assert PlainTree(h, v, ts[0]);
    } else {
      forall t | PlainTree(h, v, t) ensures !Keeps(h, t, b, issue.value) {
        OneTree(h, t);
        assert Forest(h, root, {}, [t]);
        WalkIssueIsReal(h, b, root, {}, 0, 0, [t]);
      }
    }
  }

  // ----- isJsonValue: the recursive check, with the objects on the path in `seen`

  predicate IsJson(h: Heap, v: Value, seen: set<Ref>)
    requires Closed(h, v)
    decreases h.Keys - seen
  {
    || Scalar(v)
    || (&& v.Object? && v.ref !in seen && h[v.ref].plain
        && match h[v.ref]
           case Array(_, items) => forall i :: 0 <= i < |items| ==> IsJson(h, items[i], seen + {v.ref})
           case Record(_, props) => forall i :: 0 <= i < |props| ==> IsJson(h, props[i].1, seen + {v.ref}))
  }

  /** The values inside an object, in its own order. */
  function Values(o: Obj): seq<Value> {
    match o
    case Array(_, items) => items
    case Record(_, props) => seq(|props|, i requires 0 <= i < |props| => props[i].1)
  }

  lemma ValuesAreJson(h: Heap, r: Ref, seen: set<Ref>)
    requires Closed(h, Object(r))
    ensures forall k :: 0 <= k < |Values(h[r])| ==> Closed(h, Values(h[r])[k])
    ensures IsJson(h, Object(r), seen)
       <==> && r !in seen && h[r].plain
            && forall k :: 0 <= k < |Values(h[r])| ==> IsJson(h, Values(h[r])[k], seen + {r})
  {
    var values := Values(h[r]);
    forall k | 0 <= k < |values| ensures Closed(h, values[k]) {
      assert IsPart(h[r], values[k]);
      PartIsClosed(h, r, values[k]);
    }
    if h[r].Record? {
      var props := h[r].props;
      assert |values| == |props| && forall k :: 0 <= k < |props| ==> values[k] == props[k].1;
      if forall k :: 0 <= k < |values| ==> IsJson(h, values[k], seen + {r}) {
        forall i | 0 <= i < |props| ensures IsJson(h, props[i].1, seen + {r}) {
          assert IsJson(h, values[i], seen + {r});
        }
      }
    }
  }

  class SeenSet {
    var refs: set<Ref>

    constructor ()
      ensures refs == {}
    {
      refs := {};
    }
  }

  /** `isJsonValue`: adds the object to `seen` while it checks what is inside, then removes it. */
  method IsJsonValue(h: Heap, v: Value, seen: SeenSet) returns (ok: bool)
    requires Closed(h, v)
    modifies seen
    ensures ok == IsJson(h, v, old(seen.refs))
    ensures seen.refs == old(seen.refs)
    decreases h.Keys - seen.refs
  {
    if !v.Object? { return Scalar(v); }
    ValuesAreJson(h, v.ref, seen.refs);
    hide IsJson, Values;
    if v.ref in seen.refs || !h[v.ref].plain { return false; }
    ghost var path := seen.refs;
    seen.refs := seen.refs + {v.ref};
    var values := Values(h[v.ref]);
    ok := true;
    for i := 0 to |values|
      invariant seen.refs == path + {v.ref}
      invariant ok == forall k :: 0 <= k < i ==> IsJson(h, values[k], path + {v.ref})
    {
      if ok {
        ok := IsJsonValue(h, values[i], seen);
      }
    }
    seen.refs := seen.refs - {v.ref};
  }

  /** What is inside a tree is smaller than the tree. */
  lemma {:induction false} KidIsSmaller(kids: seq<Tree>, i: nat)
    requires i < |kids|
    ensures Size(kids[i]) <= SizeOf(kids)
  {
    if i < |kids| - 1 {
      KidIsSmaller(kids[..|kids| - 1], i);
    }
  }

  lemma {:induction false} UnfoldingIsUnique(h: Heap, v: Value, t: Tree, u: Tree)
    requires Unfolds(h, v, t) && Unfolds(h, v, u)
    ensures t == u
    decreases t
  {
    if t.Node? {
      forall i | 0 <= i < |t.kids| ensures t.kids[i] == u.kids[i] {
        NodeUnfolds(h, t.ref, t.kids);
        NodeUnfolds(h, t.ref, u.kids);
        UnfoldingIsUnique(h, Stacked(h[t.ref])[i], t.kids[i], u.kids[i]);
      }
    }
  }

  /** An object on the path unfolds to something larger than what lies below it. */
  ghost predicate OnPath(h: Heap, r: Ref, size: nat) {
    exists u :: Unfolds(h, Object(r), u) && Size(u) > size
  }

  /** The check of an object is the check of each of its parts. */
  lemma ObjectIsJson(h: Heap, r: Ref, seen: set<Ref>)
    requires Closed(h, Object(r))
    ensures IsJson(h, Object(r), seen)
       <==> r !in seen && h[r].plain && forall v :: IsPart(h[r], v) ==> IsJson(h, v, seen + {r})
  {
    forall v | IsPart(h[r], v) ensures Closed(h, v) {
      PartIsClosed(h, r, v);
    }
    if h[r].Array? {
      assert forall i :: 0 <= i < |h[r].items| ==> IsPart(h[r], h[r].items[i]);
    } else {
      assert forall i :: 0 <= i < |h[r].props| ==> IsPart(h[r], h[r].props[i].1);
    }
  }

  /** Below an object, it and everything on the path to it is on the path. */
  lemma StillOnPath(h: Heap, t: Tree, seen: set<Ref>, size: nat)
    requires t.Node? && Unfolds(h, Object(t.ref), t) && size < Size(t)
    requires forall r :: r in seen ==> OnPath(h, r, Size(t))
    ensures forall r :: r in seen + {t.ref} ==> OnPath(h, r, size)
  {
    forall r | r in seen ensures OnPath(h, r, size) {
      var u :| Unfolds(h, Object(r), u) && Size(u) > Size(t);
    }
  }

  lemma {:induction false} TreesAreJson(h: Heap, v: Value, t: Tree, seen: set<Ref>)
    requires Closed(h, v) && Unfolds(h, v, t)
    requires forall r :: r in seen ==> OnPath(h, r, Size(t))
    ensures IsJson(h, v, seen)
    decreases t
  {
    if t.Node? {
      if v.ref in seen {
        var u :| Unfolds(h, v, u) && Size(u) > Size(t);
        UnfoldingIsUnique(h, v, t, u);
        assert false;
      }
      NodeUnfolds(h, t.ref, t.kids);
      ObjectIsJson(h, t.ref, seen);
      hide Unfolds, IsJson, OnPath, Stacked, IsPart, Closed;
      forall part | IsPart(h[v.ref], part) ensures IsJson(h, part, seen + {v.ref}) {
        var i := PartIsStacked(h[v.ref], part);
        PartIsClosed(h, v.ref, part);
        KidIsSmaller(t.kids, i);
        StillOnPath(h, t, seen, Size(t.kids[i]));
        TreesAreJson(h, part, t.kids[i], seen + {v.ref});
      }
    }
  }

  lemma {:induction false} JsonIsATree(h: Heap, v: Value, seen: set<Ref>) returns (t: Tree)
    requires Closed(h, v) && IsJson(h, v, seen)
    ensures Unfolds(h, v, t)
    decreases h.Keys - seen
  {
    if Scalar(v) {
      return Leaf(v);
    }
    var values := Stacked(h[v.ref]);
    var kids: seq<Tree> := [];
    for i := 0 to |values|
      invariant |kids| == i
      invariant forall k :: 0 <= k < i ==> Unfolds(h, values[k], kids[k])
    {
      var kid := JsonIsATree(h, values[i], seen + {v.ref});
      kids := kids + [kid];
    }
    t := Node(v.ref, kids);
    NodeUnfolds(h, v.ref, kids);
  }

  /** `isJsonValue` accepts exactly what unfolds to a finite tree: no cycles, but shared objects may pass. */
  lemma IsJsonIsExact(h: Heap, v: Value)
    requires Closed(h, v)
    ensures IsJson(h, v, {}) <==> exists t :: Unfolds(h, v, t)
  {
    var none: set<Ref> := {};
    if IsJson(h, v, none) {
      var t := JsonIsATree(h, v, none);
      assert Unfolds(h, v, t);
    }
    forall t | Unfolds(h, v, t) ensures IsJson(h, v, none) {
      TreesAreJson(h, v, t, none);
    }
  }

  /** An object is accepted exactly when it is plain and each of its parts is accepted. */
  lemma JsonByParts(h: Heap, r: Ref)
    requires Closed(h, Object(r))
    ensures IsJson(h, Object(r), {}) <==> h[r].plain && forall v :: IsPart(h[r], v) ==> IsJson(h, v, {})
  {
    hide Unfolds, IsJson, Stacked;
    if IsJson(h, Object(r), {}) {
      var t := JsonIsATree(h, Object(r), {});
      NodeOfObject(h, r, t);
      forall v | IsPart(h[r], v) ensures IsJson(h, v, {}) {
        var i := PartIsStacked(h[r], v);
        NodeUnfolds(h, r, t.kids);
        TreesAreJson(h, v, t.kids[i], {});
      }
    }
    if h[r].plain && forall v :: IsPart(h[r], v) ==> IsJson(h, v, {}) {
      var kids: seq<Tree> := [];
      for i := 0 to |Stacked(h[r])|
        invariant |kids| == i
        invariant forall k :: 0 <= k < i ==> Unfolds(h, Stacked(h[r])[k], kids[k])
      {
        StackedIsPart(h[r], i);
        var kid := JsonIsATree(h, Stacked(h[r])[i], {});
        kids := kids + [kid];
      }
      NodeUnfolds(h, r, kids);
      TreesAreJson(h, Object(r), Node(r, kids), {});
    }
  }

  lemma NodeOfObject(h: Heap, r: Ref, t: Tree)
    requires Unfolds(h, Object(r), t)
    ensures t.Node? && t.ref == r
  {
  }

  /** The stack holds the parts of the object, and nothing else. */
  lemma PartIsStacked(o: Obj, v: Value) returns (i: nat)
    requires IsPart(o, v)
    ensures i < |Stacked(o)| && Stacked(o)[i] == v
  {
    match o {
      case Array(_, items) =>
        var k :| 0 <= k < |items| && items[k] == v;
        i := |items| - 1 - k;
      case Record(_, props) =>
        i :| 0 <= i < |props| && props[i].1 == v;
    }
  }

  lemma StackedIsPart(o: Obj, i: nat)
    requires i < |Stacked(o)|
    ensures IsPart(o, Stacked(o)[i])
  {
  }

  /** Each kid is within what its siblings and the object leave of the budget. */
  lemma {:induction false} KidWithin(h: Heap, kids: seq<Tree>, i: nat)
    requires i < |kids|
    ensures Refs(kids[i]) <= RefsOf(kids) && Size(kids[i]) <= SizeOf(kids)
    ensures 1 + Height(kids[i]) <= HeightOf(kids) && TextIn(h, kids[i]) <= TextInAll(h, kids)
  {
    if i < |kids| - 1 {
      KidWithin(h, kids[..|kids| - 1], i);
    }
  }

  lemma DistinctWithin(m: multiset<Ref>, n: multiset<Ref>)
    requires m <= n && Distinct(n)
    ensures Distinct(m)
  {
    forall r | r in m ensures m[r] == 1 {
      assert m[r] <= n[r] && r in n;
    }
  }

  /** Every item and every property of an admitted object is admitted, one level deeper. */
  lemma PartsAreAdmitted(h: Heap, r: Ref, b: Budget, v: Value)
    requires Closed(h, Object(r)) && Walk(h, b, [Work(Object(r), 0)], {}, 0, 0) == None
    requires IsPart(h[r], v)
    ensures h[r].plain && b.nodes > 0 && b.depth > 0
    ensures Walk(h, b.(nodes := b.nodes - 1, depth := b.depth - 1), [Work(v, 0)], {}, 0, 0) == None
  {
    hide Walk, Unfolds, Refs, RefsOf, Stacked, Distinct, Closed, StackClosed;
    AdmissionIsExact(h, Object(r), b);
    var t :| PlainTree(h, Object(r), t) && forall limit :: Keeps(h, t, b, limit);
    NodeOfObject(h, r, t);
    NodeUnfolds(h, r, t.kids);
    var i := PartIsStacked(h[r], v);
    var kid := t.kids[i];
    KidWithin(h, t.kids, i);
    RefsOfNode(r, t.kids);
    DistinctWithin(Refs(kid), Refs(t));
    assert Keeps(h, t, b, DepthIssue) && Keeps(h, t, b, NodesIssue) && Keeps(h, t, b, StringIssue);
    assert Keeps(h, t, b, TextIssue);
    var c := b.(nodes := b.nodes - 1, depth := b.depth - 1);
    PartIsClosed(h, r, v);
    AdmissionIsExact(h, v, c);
    forall limit ensures Keeps(h, kid, c, limit) {
    }
    assert PlainTree(h, v, kid);
  }

  lemma RefsOfNode(r: Ref, kids: seq<Tree>)
    ensures RefsOf(kids) <= Refs(Node(r, kids))
  {
  }

  /** The walk is the stricter of the two checks. */
  lemma AdmittedIsJson(h: Heap, v: Value, b: Budget)
    requires Closed(h, v) && Walk(h, b, [Work(v, 0)], {}, 0, 0) == None
    ensures IsJson(h, v, {})
  {
    AdmissionIsExact(h, v, b);
    IsJsonIsExact(h, v);
    var t :| PlainTree(h, v, t) && forall limit :: Keeps(h, t, b, limit);
    assert Unfolds(h, v, t);
  }

  /** One shared empty array: accepted by `isJsonValue`, refused by the walk under every budget. */
  lemma SharedObjectTellsThemApart(b: Budget)
    ensures var h: Heap := map[0 := Array(true, [Object(1), Object(1)]), 1 := Array(true, [])];
            && Closed(h, Object(0)) && IsJson(h, Object(0), {})
            && Walk(h, b, [Work(Object(0), 0)], {}, 0, 0) != None
  {
    var h: Heap := map[0 := Array(true, [Object(1), Object(1)]), 1 := Array(true, [])];
    var t := SharedUnfolds(h);
    IsJsonIsExact(h, Object(0));
    AdmissionIsExact(h, Object(0), b);
    forall u | Unfolds(h, Object(0), u) ensures !Distinct(Refs(u)) {
      UnfoldingIsUnique(h, Object(0), t, u);
    }
  }

  lemma SharedUnfolds(h: Heap) returns (t: Tree)
    requires h == map[0 := Array(true, [Object(1), Object(1)]), 1 := Array(true, [])]
    ensures Closed(h, Object(0)) && Unfolds(h, Object(0), t) && !Distinct(Refs(t))
  {
    assert Stacked(h[0]) == [Object(1), Object(1)] && Stacked(h[1]) == [];
    var inner := Node(1, []);
    t := Node(0, [inner] + [inner]);
    SharedIsMetTwice(h);
    hide RefsOf, Distinct;
    assert Unfolds(h, Object(1), inner);
  }

  lemma SharedIsMetTwice(h: Heap)
    ensures !Distinct(Refs(Node(0, [Node(1, [])] + [Node(1, [])])))
  {
    hide RefsOf, Distinct;
    var inner := Node(1, []);
    ForestSnoc(h, [inner], inner);
    OneTree(h, inner);
    TwiceIsNotDistinct(multiset{0}, Refs(inner), 1);
  }

  lemma TwiceIsNotDistinct(rest: multiset<Ref>, m: multiset<Ref>, r: Ref)
    requires r in m
    ensures !Distinct(rest + (m + m))
  {
    var all := rest + (m + m);
    assert all[r] == rest[r] + m[r] + m[r];
    assert r in all && all[r] != 1;
  }
}
