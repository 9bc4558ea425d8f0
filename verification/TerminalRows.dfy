/**
 The rows a terminal collection shows
 (tui/src/oven-runtime/collection-runtime.ts): telemetry joined in, searched,
 filtered, sorted and cut into pages. Rows are named by their index in the
 payload, which is what the keys of the original are tied to.
 */
module TerminalRows {
  import opened Wrappers
  import opened Json
  import Text

  const DT_CONTRACT := "burnlist-differential-testing-data@1"

  /** The JavaScript library and the shared pointer code, as far as rows depend on them. */
  datatype Library = Library(
    /** `resolveOvenPointer` inside a value. */
    resolve: (Json, string) -> Option<Json>,
    /** `Number(value)` of a text, list or record; None is NaN or infinite. */
    coerce: Json -> Option<real>,
    /** `String(value)`. */
    show: Json -> string,
    lower: string -> string,
    trim: string -> string,
    /** `text.split(/\s+/u).filter(Boolean)`. */
    words: string -> seq<string>)

  /** `Number(value)` where it is finite. */
  function NumberOf(lib: Library, value: Json): Option<real> {
    match value
    case Null => Some(0.0)
    case Bool(flag) => Some(if flag then 1.0 else 0.0)
    case Number(x) => Some(x)
    case _ => lib.coerce(value)
  }

  /** `number`: 0 for what is missing or no finite number. */
  function Amount(lib: Library, value: Option<Json>): real {
    match value
    case None => 0.0
    case Some(v) => NumberOf(lib, v).GetOr(0.0)
  }

  // ----- Telemetry -----

  function Telemetry(row: Json): Option<Json> {
    var own := Get(row, "transitionTelemetry");
    var value := if own.Some? && !own.value.Null? then own else Get(row, "telemetry");
    if value.Some? && value.value.Record? then value else None
  }

  function Field(value: Option<Json>, name: string): Option<Json> {
    match value
    case None => None
    case Some(v) => Get(v, name)
  }

  /** The last record of the side table with this id. */
  function SideEntry(source: seq<Json>, n: nat, id: string): Option<Json>
    requires n <= |source|
  {
    if n == 0 then None
    else if TextAt(source[n - 1], "id") == Some(id) then Some(source[n - 1])
    else SideEntry(source, n - 1, id)
  }

  function SideTable(source: Option<Json>): seq<Json> {
    match source
    case Some(List(entries)) => entries
    case _ => []
  }

  /** A row with the entry of the side table that has its id. */
  function Joined(row: Json, entries: seq<Json>): Json {
    match TextAt(row, "id")
    case None => row
    case Some(id) =>
      match SideEntry(entries, |entries|, id)
      case None => row
      case Some(entry) => Record(row.fields["transitionTelemetry" := entry])
  }

  function Attached(items: seq<Json>, source: Option<Json>): (out: seq<Json>)
    ensures |out| == |items|
  {
    seq(|items|, i requires 0 <= i < |items| => Joined(items[i], SideTable(source)))
  }

  /** The map holds the entries the first `n` records leave. */
  ghost predicate Indexed(byId: map<string, Json>, entries: seq<Json>, n: nat)
    requires n <= |entries|
  {
    forall id {:trigger SideEntry(entries, n, id)} :: SideEntry(entries, n, id) == Lookup(byId, id)
  }

  /** `attachTransitionTelemetry`: the side table is read once, into a map. */
  method AttachTransitionTelemetry(items: seq<Json>, source: Option<Json>) returns (out: seq<Json>)
    ensures out == Attached(items, source)
  {
    var entries := SideTable(source);
    var byId: map<string, Json> := map[];
    for n := 0 to |entries|
      invariant Indexed(byId, entries, n)
    {
      var id := TextAt(entries[n], "id");
      if id.Some? {
        byId := byId[id.value := entries[n]];
      }
    }
    out := [];
    for i := 0 to |items|
      invariant |out| == i
      invariant forall j :: 0 <= j < i ==> out[j] == Joined(items[j], entries)
    {
      var id := TextAt(items[i], "id");
      assert id.Some? ==> SideEntry(entries, |entries|, id.value) == Lookup(byId, id.value);
      if id.Some? && id.value in byId {
        out := out + [Record(items[i].fields["transitionTelemetry" := byId[id.value]])];
      } else {
        out := out + [items[i]];
      }
    }
  }

  // ----- Search, filter, sort -----

  datatype Options = Options(contract: string, query: string, matchFields: Option<string>,
                             filterKey: Option<Json>, filterActive: bool,
                             sortKey: Option<Json>, sortActive: bool)

  predicate Contains(text: string, part: string) {
    Text.StartsWith(text, part) || (text != "" && Contains(text[1..], part))
  }

  function ShownText(lib: Library, value: Option<Json>): string {
    if value.None? || value.value.Null? then "" else lib.show(value.value)
  }

  predicate Matches(lib: Library, row: Json, needle: string, fields: seq<string>) {
    exists k :: 0 <= k < |fields| && Contains(lib.lower(ShownText(lib, lib.resolve(row, fields[k]))), needle)
  }

  predicate Searched(lib: Library, row: Json, o: Options) {
    var needle := lib.lower(lib.trim(o.query));
    var fields := if o.matchFields.Some? then lib.words(o.matchFields.value) else [];
    needle == "" || (row.Record? && Matches(lib, row, needle, fields))
  }

  predicate NonPass(lib: Library, row: Json) {
    Amount(lib, Get(row, "failedSampleCount")) + Amount(lib, Get(row, "missingSampleCount")) > 0.0
  }

  predicate Filtered(lib: Library, row: Json, o: Options) {
    !o.filterActive
    || (row.Record? && o.contract == DT_CONTRACT && o.filterKey == Some(Json.Text("non-pass")) && NonPass(lib, row))
  }

  predicate Passes(lib: Library, row: Json, o: Options) {
    Searched(lib, row, o) && Filtered(lib, row, o)
  }

  datatype Rank = Rank(changed: real, improvement: real)

  function RankOf(lib: Library, row: Json): Rank {
    var telemetry := Telemetry(row);
    var gained, lost := Amount(lib, Field(telemetry, "failToPassCount")),
        Amount(lib, Field(telemetry, "passToFailCount"));
    Rank(gained + lost, gained - lost)
  }

  /** `compare` knows how to order rows: only by `changed`, only under the differential-testing contract. */
  predicate Comparable(o: Options) {
    o.contract == DT_CONTRACT && o.sortKey == Some(Json.Text("changed"))
  }

  /** Strictly earlier in the sorted list: more changes, then more improvement, then the original order. */
  predicate Before(ranks: seq<Rank>, i: nat, j: nat)
    requires i < |ranks| && j < |ranks|
  {
    || ranks[i].changed > ranks[j].changed
    || (ranks[i].changed == ranks[j].changed
        && (ranks[i].improvement > ranks[j].improvement
            || (ranks[i].improvement == ranks[j].improvement && i < j)))
  }

  predicate Within(rows: seq<nat>, n: nat) {
    forall p :: 0 <= p < |rows| ==> rows[p] < n
  }

  /** `rows.filter(keep)`. */
  function Filter(rows: seq<nat>, keep: seq<bool>): (out: seq<nat>)
    requires Within(rows, |keep|)
    ensures Within(out, |keep|)
    ensures forall r :: r in out <==> r in rows && r < |keep| && keep[r]
  {
    if rows == [] then []
    else
      var rest := Filter(rows[1..], keep);
      assert forall r :: r in rows <==> r == rows[0] || r in rows[1..];
      if keep[rows[0]] then [rows[0]] + rest else rest
  }

  function Insert(ranks: seq<Rank>, row: nat, rows: seq<nat>): (out: seq<nat>)
    requires row < |ranks| && Within(rows, |ranks|)
    ensures Within(out, |ranks|)
    ensures forall r :: r in out <==> r == row || r in rows
  {
    if rows == [] then [row]
    else if Before(ranks, row, rows[0]) then [row] + rows
    else
      assert forall r :: r in rows <==> r == rows[0] || r in rows[1..];
      [rows[0]] + Insert(ranks, row, rows[1..])
  }

  function Sort(ranks: seq<Rank>, rows: seq<nat>): (out: seq<nat>)
    requires Within(rows, |ranks|)
    ensures Within(out, |ranks|)
    ensures forall r :: r in out <==> r in rows
  {
    if rows == [] then []
    else
      assert forall r :: r in rows <==> r == rows[0] || r in rows[1..];
      Insert(ranks, rows[0], Sort(ranks, rows[1..]))
  }

  function AllRows(n: nat): (rows: seq<nat>)
    ensures Within(rows, n) && |rows| == n && forall r :: 0 <= r < n ==> rows[r] == r
  {
    seq(n, i requires 0 <= i < n => i)
  }

  /** `seq.map` of a test over the rows. */
  function SearchFlags(lib: Library, items: seq<Json>, o: Options): (flags: seq<bool>)
    ensures |flags| == |items| && forall i :: 0 <= i < |items| ==> flags[i] == Searched(lib, items[i], o)
  {
    seq(|items|, i requires 0 <= i < |items| => Searched(lib, items[i], o))
  }

  function FilterFlags(lib: Library, items: seq<Json>, o: Options): (flags: seq<bool>)
    ensures |flags| == |items| && forall i :: 0 <= i < |items| ==> flags[i] == Filtered(lib, items[i], o)
  {
    seq(|items|, i requires 0 <= i < |items| => Filtered(lib, items[i], o))
  }

  predicate IsChanged(lib: Library, row: Json) {
    row.Record? && RankOf(lib, row).changed > 0.0
  }

  function ChangedFlags(lib: Library, items: seq<Json>): (flags: seq<bool>)
    ensures |flags| == |items| && forall i :: 0 <= i < |items| ==> flags[i] == IsChanged(lib, items[i])
  {
    seq(|items|, i requires 0 <= i < |items| => IsChanged(lib, items[i]))
  }

  function Ranks(lib: Library, items: seq<Json>): (ranks: seq<Rank>)
    ensures |ranks| == |items| && forall i :: 0 <= i < |items| ==> ranks[i] == RankOf(lib, items[i])
  {
    seq(|items|, i requires 0 <= i < |items| => RankOf(lib, items[i]))
  }

  /** The search, then the filter. */
  function PassingRows(lib: Library, items: seq<Json>, o: Options): (rows: seq<nat>)
    ensures Within(rows, |items|)
  {
    var searched := Filter(AllRows(|items|), SearchFlags(lib, items, o));
    if o.filterActive then Filter(searched, FilterFlags(lib, items, o)) else searched
  }

  /** `runTerminalCollection`: the indices of the rows shown, in order. */
  function RunTerminalCollection(lib: Library, items: seq<Json>, o: Options): (rows: seq<nat>)
    ensures Within(rows, |items|)
  {
    var result := PassingRows(lib, items, o);
    if !o.sortActive || !Comparable(o) || !(exists p :: 0 <= p < |result| && items[result[p]].Record?) then result
    else Sort(Ranks(lib, items), Filter(result, ChangedFlags(lib, items)))
  }

  // ----- What the rows are -----

  predicate Increasing(rows: seq<nat>) {
    forall p, q :: 0 <= p < q < |rows| ==> rows[p] < rows[q]
  }

  predicate Ordered(ranks: seq<Rank>, rows: seq<nat>)
    requires Within(rows, |ranks|)
  {
    forall p, q :: 0 <= p < q < |rows| ==> Before(ranks, rows[p], rows[q])
  }

  lemma {:induction false} FilterKeepsOrder(rows: seq<nat>, keep: seq<bool>)
    requires Increasing(rows) && Within(rows, |keep|)
    ensures Increasing(Filter(rows, keep))
  {
    if rows != [] {
      FilterKeepsOrder(rows[1..], keep);
      var rest := Filter(rows[1..], keep);
      forall p | 0 <= p < |rest|
        ensures rows[0] < rest[p]
      {
        assert rest[p] in rows[1..];
      }
    }
  }

  lemma {:induction false} InsertKeepsOrder(ranks: seq<Rank>, row: nat, rows: seq<nat>)
    requires row < |ranks| && row !in rows && Within(rows, |ranks|) && Ordered(ranks, rows)
    ensures Ordered(ranks, Insert(ranks, row, rows))
  {
    if rows == [] {
    } else if Before(ranks, row, rows[0]) {
      var out := [row] + rows;
      forall p, q | 0 <= p < q < |out|
        ensures Before(ranks, out[p], out[q])
      {
        assert Before(ranks, row, rows[q - 1]);
      }
    } else {
      InsertKeepsOrder(ranks, row, rows[1..]);
      var rest := Insert(ranks, row, rows[1..]);
      forall r | r in rest
        ensures Before(ranks, rows[0], r)
      {
        if r != row {
          assert r in rows[1..];
        }
      }
    }
  }

  lemma {:induction false} SortOrders(ranks: seq<Rank>, rows: seq<nat>)
    requires Increasing(rows) && Within(rows, |ranks|)
    ensures Ordered(ranks, Sort(ranks, rows))
  {
    if rows != [] {
      SortOrders(ranks, rows[1..]);
      assert rows[0] !in rows[1..];
      InsertKeepsOrder(ranks, rows[0], Sort(ranks, rows[1..]));
    }
  }

  /** Some row that passes is a record: only then does an active sort do anything. */
  predicate SortApplies(lib: Library, items: seq<Json>, o: Options) {
    && o.sortActive && Comparable(o)
    && exists i :: 0 <= i < |items| && items[i].Record? && Passes(lib, items[i], o)
  }

  /**
   Unsorted, the rows are those that pass, in their order. Sorted, they are the
   records that pass and changed, each once, most changed first, then most
   improved, then in their order.
   */
  lemma RowsAreExact(lib: Library, items: seq<Json>, o: Options)
    ensures var rows := RunTerminalCollection(lib, items, o);
            if SortApplies(lib, items, o) then
              && Ordered(Ranks(lib, items), rows)
              && forall i :: i in rows <==> 0 <= i < |items| && Passes(lib, items[i], o) && IsChanged(lib, items[i])
            else
              && Increasing(rows)
              && forall i :: i in rows <==> 0 <= i < |items| && Passes(lib, items[i], o)
  {
    hide Searched, Filtered, Passes, Comparable, IsChanged, RankOf, Increasing, Ordered, PassingRows, Filter, Sort;
    PassingRowsAreExact(lib, items, o);
    var result := PassingRows(lib, items, o);
    var changed := Filter(result, ChangedFlags(lib, items));
    FilterKeepsOrder(result, ChangedFlags(lib, items));
    SortOrders(Ranks(lib, items), changed);
    assert (exists p :: 0 <= p < |result| && items[result[p]].Record?)
        <==> exists i :: 0 <= i < |items| && items[i].Record? && Passes(lib, items[i], o) by {
      forall p | 0 <= p < |result| ensures Passes(lib, items[result[p]], o) {
        assert result[p] in result;
      }
    }
  }

  lemma PassingRowsAreExact(lib: Library, items: seq<Json>, o: Options)
    ensures Increasing(PassingRows(lib, items, o))
    ensures forall i :: i in PassingRows(lib, items, o) <==> 0 <= i < |items| && Passes(lib, items[i], o)
  {
    hide Searched, Increasing, Filter;
    var all := AllRows(|items|);
    AllIncrease(|items|);
    forall i | 0 <= i < |items| ensures i in all { assert all[i] == i; }
    FilterKeepsOrder(all, SearchFlags(lib, items, o));
    FilterKeepsOrder(Filter(all, SearchFlags(lib, items, o)), FilterFlags(lib, items, o));
  }

  lemma AllIncrease(n: nat)
    ensures Increasing(AllRows(n))
  {
  }

  /** A list of rows is determined by its members and its order. */
  lemma {:induction false} OrderDeterminesRows(ranks: seq<Rank>, a: seq<nat>, b: seq<nat>)
    requires Within(a, |ranks|) && Within(b, |ranks|)
    requires forall r :: r in a <==> r in b
    requires Ordered(ranks, a) && Ordered(ranks, b)
    ensures a == b
    decreases |a|
  {
    assert a != [] ==> a[0] in b;
    assert b != [] ==> b[0] in a;
    if a != [] {
      assert a[0] == b[0];
      forall r ensures r in a[1..] <==> r in b[1..] {
        assert r in a <==> r == a[0] || r in a[1..];
        assert r in b <==> r == b[0] || r in b[1..];
        assert r in a[1..] ==> Before(ranks, a[0], r);
        assert r in b[1..] ==> Before(ranks, b[0], r);
      }
      OrderDeterminesRows(ranks, a[1..], b[1..]);
    }
  }

  /** No row is shown twice. */
  lemma RowsAreDistinct(lib: Library, items: seq<Json>, o: Options)
    ensures var rows := RunTerminalCollection(lib, items, o);
            forall p, q :: 0 <= p < q < |rows| ==> rows[p] != rows[q]
  {
    hide Passes, IsChanged, SortApplies, RunTerminalCollection;
    RowsAreExact(lib, items, o);
  }

  // ----- Pages -----

  /** `Math.ceil(total / size)`, and at least 1. */
  function PageCount(total: nat, size: int): (count: nat)
    ensures count >= 1
  {
    var step := if size > 1 then size else 1;
    var count := (total + step - 1) / step;
    if count > 1 then count else 1
  }

  function Clamp(value: int, count: nat): (index: nat)
    requires count >= 1
    ensures index < count
    ensures 0 <= value < count ==> index == value
  {
    if value < 0 then 0 else if value > count - 1 then count - 1 else value
  }

  /** `rows.slice(start, start + size)`. */
  function Slice<T>(rows: seq<T>, start: nat, size: nat): seq<T> {
    var from := if start < |rows| then start else |rows|;
    var to := if start + size < |rows| then start + size else |rows|;
    rows[from..to]
  }

  /** The rows of the page that an index, in range or not, reads. */
  function PageRows<T>(rows: seq<T>, size: nat, index: int): seq<T>
    requires size >= 1
  {
    Slice(rows, Clamp(index, PageCount(|rows|, size)) * size, size)
  }

  function FirstPages<T>(rows: seq<T>, size: nat, n: nat): seq<seq<T>>
    requires size >= 1
  {
    seq(n, k => PageRows(rows, size, k))
  }

  lemma PageCountIsExact(total: nat, size: nat)
    requires size >= 1
    ensures var count := PageCount(total, size);
            total <= count * size && (total > 0 ==> (count - 1) * size < total)
  {
    var c := (total + size - 1) / size;
    assert total + size - 1 == size * c + (total + size - 1) % size;
    assert c * size == size * c;
    if c == 0 {
      assert total == 0;
    } else {
      assert (c - 1) * size == c * size - size;
    }
  }

  lemma {:induction false} FirstPagesJoin<T>(rows: seq<T>, size: nat, n: nat)
    requires size >= 1 && n <= PageCount(|rows|, size)
    ensures n * size <= |rows| ==> Concat(FirstPages(rows, size, n)) == rows[..n * size]
    ensures n * size > |rows| ==> Concat(FirstPages(rows, size, n)) == rows
  {
    hide PageCount, PageRows, Concat;
    if n == 0 {
      ConcatNothing<T>();
      assert FirstPages(rows, size, 0) == [];
    } else {
      FirstPagesJoin(rows, size, n - 1);
      var pages, last := FirstPages(rows, size, n - 1), PageRows(rows, size, n - 1);
      assert FirstPages(rows, size, n) == pages + [last];
      ConcatAppend(pages, [last]);
      ConcatOne(last);
      NextPage(rows, size, n - 1);
    }
  }

  /** Page `k` continues where the pages before it end. */
  lemma NextPage<T>(rows: seq<T>, size: nat, k: nat)
    requires size >= 1 && k < PageCount(|rows|, size)
    ensures k * size <= |rows| && (k + 1) * size == k * size + size
    ensures rows[..k * size] + PageRows(rows, size, k)
            == if (k + 1) * size <= |rows| then rows[..(k + 1) * size] else rows
  {
    hide PageCount;
    var count := PageCount(|rows|, size);
    PageCountIsExact(|rows|, size);
    SizesGrow(k, count - 1, size);
    var start := k * size;
    assert (k + 1) * size == start + size;
    if |rows| == 0 {
      PageCountOfNothing(size);
    }
    assert PageRows(rows, size, k) == Slice(rows, start, size);
  }

  lemma ConcatNothing<T>()
    ensures Concat<T>([]) == []
  {
  }

  lemma SizesGrow(a: int, b: int, size: nat)
    requires 0 <= a <= b
    ensures a * size <= b * size
  {
  }

  lemma ConcatOne<T>(part: seq<T>)
    ensures Concat([part]) == part
  {
    assert [part][1..] == [];
    assert Concat([part]) == part + [];
  }

  /**
   The pages tile the rows: together, in order, they are the rows, none but a
   lone page is empty, all but the last are full, and an index out of range
   reads the first or the last of them.
   */
  lemma PagesTile<T>(rows: seq<T>, size: nat, index: int)
    requires size >= 1
    ensures var count := PageCount(|rows|, size);
            && Concat(FirstPages(rows, size, count)) == rows
            && (forall k :: 0 <= k < count - 1 ==> |PageRows(rows, size, k)| == size)
            && |PageRows(rows, size, count - 1)| <= size
            && (rows != [] ==> PageRows(rows, size, count - 1) != [])
            && (index >= count ==> PageRows(rows, size, index) == PageRows(rows, size, count - 1))
            && (index < 0 ==> PageRows(rows, size, index) == PageRows(rows, size, 0))
  {
    hide PageCount, Concat, FirstPages, PageRows;
    var count := PageCount(|rows|, size);
    AllPagesJoin(rows, size);
    forall k | 0 <= k < count
      ensures |PageRows(rows, size, k)| <= size
      ensures k < count - 1 ==> |PageRows(rows, size, k)| == size
      ensures rows != [] ==> PageRows(rows, size, k) != []
    {
      PageLength(rows, size, k);
    }
    OutOfRange(rows, size, index);
  }

  lemma AllPagesJoin<T>(rows: seq<T>, size: nat)
    requires size >= 1
    ensures Concat(FirstPages(rows, size, PageCount(|rows|, size))) == rows
  {
    hide PageCount, Concat, FirstPages, PageRows;
    PageCountIsExact(|rows|, size);
    FirstPagesJoin(rows, size, PageCount(|rows|, size));
    assert rows[..|rows|] == rows;
  }

  lemma PageLength<T>(rows: seq<T>, size: nat, k: nat)
    requires size >= 1 && k < PageCount(|rows|, size)
    ensures |PageRows(rows, size, k)| <= size
    ensures k < PageCount(|rows|, size) - 1 ==> |PageRows(rows, size, k)| == size
    ensures rows != [] ==> PageRows(rows, size, k) != []
  {
    hide PageCount;
    var count := PageCount(|rows|, size);
    PageCountIsExact(|rows|, size);
    PageCountOfNothing(size);
    var start := k * size;
    assert PageRows(rows, size, k) == Slice(rows, start, size);
    SizesGrow(k, count - 1, size);
    if k < count - 1 {
      SizesGrow(k + 1, count - 1, size);
      assert (k + 1) * size == start + size;
    }
  }

  lemma OutOfRange<T>(rows: seq<T>, size: nat, index: int)
    requires size >= 1
    ensures var count := PageCount(|rows|, size);
            && (index >= count ==> PageRows(rows, size, index) == PageRows(rows, size, count - 1))
            && (index < 0 ==> PageRows(rows, size, index) == PageRows(rows, size, 0))
  {
    hide PageCount, Slice;
  }

  lemma PageCountOfNothing(size: nat)
    requires size >= 1
    ensures PageCount(0, size) == 1
  {
    assert (size - 1) / size == 0;
  }
}
