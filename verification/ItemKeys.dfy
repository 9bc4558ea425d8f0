/**
 The keys that identify the rows of a collection
 (tui/src/oven-runtime/ir-descriptor.ts, collection-runtime.ts) and the
 selection that walks over them (state-runtime.ts).
 */
module ItemKeys {
  // ----- Decimal numerals -----

  /** `String(n)` of a natural number. */
  function Digits(n: nat): (s: string)
    ensures |s| > 0 && '#' !in s
  {
    var last := ['0' + (n % 10) as char];
    if n < 10 then last else Digits(n / 10) + last
  }

  lemma {:induction false} DigitsAreInjective(m: nat, n: nat)
    requires Digits(m) == Digits(n)
    ensures m == n
  {
    var s := Digits(m);
    assert s[|s| - 1] == '0' + (m % 10) as char && s[|s| - 1] == '0' + (n % 10) as char;
    if m >= 10 && n >= 10 {
      assert Digits(m / 10) == s[..|s| - 1] && Digits(n / 10) == s[..|s| - 1];
      DigitsAreInjective(m / 10, n / 10);
    }
  }

  // ----- Keys -----

  /** The key of a row that declares none. */
  function RowKey(i: nat): (key: string)
    ensures key != "" && '#' !in key
  {
    "@row:" + Digits(i)
  }

  /** The key of a repeated declaration. */
  function Repeated(declared: string, occurrence: nat): string {
    declared + "#" + Digits(occurrence)
  }

  /** What row `i` is counted under. `declared[i]` is the scalar its key pointer finds, or "". */
  function RawKey(declared: seq<string>, i: nat): string
    requires i < |declared|
  {
    if declared[i] != "" then declared[i] else RowKey(i)
  }

  /** How many of the first `n` rows are counted under `raw`. */
  function Occurrences(declared: seq<string>, n: nat, raw: string): nat
    requires n <= |declared|
  {
    if n == 0 then 0
    else Occurrences(declared, n - 1, raw) + (if RawKey(declared, n - 1) == raw then 1 else 0)
  }

  function Identity(declared: string, i: nat, occurrence: nat): string {
    if declared == "" then RowKey(i)
    else if occurrence > 0 then Repeated(declared, occurrence)
    else declared
  }

  function KeyAt(declared: seq<string>, i: nat): string
    requires i < |declared|
  {
    Identity(declared[i], i, Occurrences(declared, i, RawKey(declared, i)))
  }

  function Keys(declared: seq<string>): (keys: seq<string>)
    ensures |keys| == |declared|
    ensures forall i :: 0 <= i < |keys| ==> keys[i] == KeyAt(declared, i)
  {
    seq(|declared|, i requires 0 <= i < |declared| => KeyAt(declared, i))
  }

  /** The counts of the first `n` rows. */
  ghost predicate Counted(seen: map<string, nat>, declared: seq<string>, n: nat)
    requires n <= |declared|
  {
    forall raw :: Occurrences(declared, n, raw) == if raw in seen then seen[raw] else 0
  }

  lemma NothingCounted(declared: seq<string>)
    ensures Counted(map[], declared, 0)
  {
  }

  lemma CountOf(seen: map<string, nat>, declared: seq<string>, n: nat, raw: string)
    requires n <= |declared| && Counted(seen, declared, n)
    ensures Occurrences(declared, n, raw) == if raw in seen then seen[raw] else 0
  {
  }

  lemma CountOne(seen: map<string, nat>, declared: seq<string>, n: nat, count: nat)
    requires n < |declared| && Counted(seen, declared, n)
    requires count == Occurrences(declared, n, RawKey(declared, n))
    ensures Counted(seen[RawKey(declared, n) := count + 1], declared, n + 1)
  {
  }

  /** `identities`: one pass that counts in a map. */
  method Identities(declared: seq<string>) returns (keys: seq<string>)
    ensures keys == Keys(declared)
  {
    hide Counted, Digits, Repeated, RowKey;
    var seen: map<string, nat> := map[];
    keys := [];
    NothingCounted(declared);
    for i := 0 to |declared|
      invariant |keys| == i
      invariant forall j :: 0 <= j < i ==> keys[j] == KeyAt(declared, j)
      invariant Counted(seen, declared, i)
    {
      var raw := if declared[i] != "" then declared[i] else RowKey(i);
      var count := if raw in seen then seen[raw] else 0;
      CountOf(seen, declared, i, raw);
      CountOne(seen, declared, i, count);
      seen := seen[raw := count + 1];
      keys := keys + [Identity(declared[i], i, count)];
    }
  }

  predicate Distinct(keys: seq<string>) {
    forall i, j :: 0 <= i < j < |keys| ==> keys[i] != keys[j]
  }

  /** Every declared key is one of `names`. */
  predicate Uses(declared: seq<string>, names: set<string>) {
    forall i :: 0 <= i < |declared| ==> declared[i] == "" || declared[i] in names
  }

  predicate IsRepeat(name: string, base: string, n: nat) {
    n > 0 && name == Repeated(base, n)
  }

  predicate IsLaterRow(name: string, n: nat) {
    n > 0 && name == RowKey(n)
  }

  /** No name is another name's numbered repeat, and none is the key of a row other than the first. */
  ghost predicate Safe(names: set<string>) {
    && (forall x, y, n: nat | x in names && y in names :: !IsRepeat(y, x, n))
    && (forall x, n: nat | x in names :: !IsLaterRow(x, n))
  }

  lemma RepeatsAreInjective(x: string, m: nat, y: string, n: nat)
    requires Repeated(x, m) == Repeated(y, n)
    ensures x == y && m == n
  {
    var s := Repeated(x, m);
    assert s[|x|] == '#' && s[|y|] == '#';
    assert forall k :: |x| < k < |s| ==> s[k] == Digits(m)[k - |x| - 1];
    assert forall k :: |y| < k < |s| ==> s[k] == Digits(n)[k - |y| - 1];
    assert |x| == |y|;
    assert x == s[..|x|] && y == s[..|y|];
    assert Digits(m) == s[|x| + 1..] && Digits(n) == s[|y| + 1..];
    DigitsAreInjective(m, n);
  }

  lemma RowKeysAreInjective(m: nat, n: nat)
    requires RowKey(m) == RowKey(n)
    ensures m == n
  {
    assert Digits(m) == RowKey(m)[5..] && Digits(n) == RowKey(n)[5..];
    DigitsAreInjective(m, n);
  }

  lemma RowKeyIsNoRepeat(i: nat, x: string, n: nat)
    ensures RowKey(i) != Repeated(x, n)
  {
    assert Repeated(x, n)[|x|] == '#';
  }

  lemma {:induction false} OccurrencesGrow(declared: seq<string>, i: nat, j: nat, raw: string)
    requires i <= j <= |declared|
    ensures Occurrences(declared, i, raw) <= Occurrences(declared, j, raw)
  {
    if i < j {
      OccurrencesGrow(declared, i, j - 1, raw);
    }
  }

  lemma LaterOccurrence(declared: seq<string>, i: nat, j: nat, raw: string)
    requires i < j <= |declared| && RawKey(declared, i) == raw
    ensures Occurrences(declared, i, raw) < Occurrences(declared, j, raw)
  {
    OccurrencesGrow(declared, i + 1, j, raw);
  }

  lemma SafeNames(names: set<string>, x: string, y: string, n: nat)
    requires Safe(names) && x in names && n > 0
    ensures x != RowKey(n)
    ensures y in names ==> y != Repeated(x, n)
  {
    assert !IsLaterRow(x, n);
    assert y in names ==> !IsRepeat(y, x, n);
  }

  lemma KeysDiffer(declared: seq<string>, names: set<string>, i: nat, j: nat)
    requires Safe(names) && Uses(declared, names) && i < j < |declared|
    ensures KeyAt(declared, i) != KeyAt(declared, j)
  {
    hide Repeated, RowKey, Digits, Safe;
    var x, y := declared[i], declared[j];
    var a, b := Occurrences(declared, i, RawKey(declared, i)), Occurrences(declared, j, RawKey(declared, j));
    if x == "" && y == "" {
      if RowKey(i) == RowKey(j) {
        RowKeysAreInjective(i, j);
      }
    } else if x == "" {
      RowKeyIsNoRepeat(i, y, b);
      if i > 0 {
        SafeNames(names, y, y, i);
      } else if RowKey(0) == y {
        LaterOccurrence(declared, 0, j, y);
      }
    } else if y == "" {
      RowKeyIsNoRepeat(j, x, a);
      SafeNames(names, x, x, j);
    } else {
      DeclaredKeysDiffer(declared, names, i, j, a, b);
    }
  }

  lemma DeclaredKeysDiffer(declared: seq<string>, names: set<string>, i: nat, j: nat, a: nat, b: nat)
    requires Safe(names) && Uses(declared, names) && i < j < |declared|
    requires declared[i] != "" && declared[j] != ""
    requires a == Occurrences(declared, i, declared[i]) && b == Occurrences(declared, j, declared[j])
    ensures Identity(declared[i], i, a) != Identity(declared[j], j, b)
  {
    hide Digits, Safe, Occurrences;
    var x, y := declared[i], declared[j];
    if x == y {
      LaterOccurrence(declared, i, j, x);
    }
    if a > 0 && b > 0 {
      if Repeated(x, a) == Repeated(y, b) {
        RepeatsAreInjective(x, a, y, b);
      }
    } else if a > 0 {
      SafeNames(names, x, y, a);
    } else if b > 0 {
      SafeNames(names, y, x, b);
    }
  }

  /** Rows that give `later` the key row 0 already has: the declared repeats of `x`. */
  lemma {:induction false} CountRepeats(y: string, x: string, n: nat, i: nat)
    requires x != "" && y != "" && x != y && 1 <= i <= n + 2
    ensures Occurrences([y] + seq(n + 1, k => x), i, x) == i - 1
  {
    var declared := [y] + seq(n + 1, k => x);
    if i > 1 {
      CountRepeats(y, x, n, i - 1);
      assert declared[i - 1] == x;
    } else {
      assert Occurrences(declared, 0, x) == 0;
      assert RawKey(declared, 0) == y;
    }
  }

  lemma UnsafeNamesClash(names: set<string>) returns (declared: seq<string>)
    requires "" !in names && !Safe(names)
    ensures Uses(declared, names) && !Distinct(Keys(declared))
  {
    if n: nat, x :| x in names && IsLaterRow(x, n) {
      declared := [x] + seq(n, k => "");
      assert declared[n] == "";
      assert Occurrences(declared, 0, x) == 0;
      assert Keys(declared)[0] == x && Keys(declared)[n] == RowKey(n);
    } else {
      var x, y, n: nat :| x in names && y in names && IsRepeat(y, x, n);
      declared := [y] + seq(n + 1, k => x);
      CountRepeats(y, x, n, n + 1);
      assert Occurrences(declared, 0, y) == 0;
      assert declared[n + 1] == x;
      assert Keys(declared)[0] == y && Keys(declared)[n + 1] == Repeated(x, n);
    }
  }

  /** A set of declared names keeps the keys of every list of rows apart exactly when it is safe. */
  lemma KeysAreDistinctExactly(names: set<string>)
    requires "" !in names
    ensures (forall declared: seq<string> | Uses(declared, names) :: Distinct(Keys(declared))) <==> Safe(names)
  {
    if Safe(names) {
      forall declared: seq<string> | Uses(declared, names)
        ensures Distinct(Keys(declared))
      {
        forall i, j | 0 <= i < j < |declared|
          ensures Keys(declared)[i] != Keys(declared)[j]
        {
          KeysDiffer(declared, names, i, j);
        }
      }
    } else {
      var declared := UnsafeNamesClash(names);
    }
  }

  lemma RepeatHasHash(x: string, n: nat)
    ensures '#' in Repeated(x, n)
  {
    assert Repeated(x, n)[|x|] == '#';
  }

  /** Names without `#` that do not start with `@row:` are safe. */
  lemma PlainNamesAreSafe(names: set<string>)
    requires forall x :: x in names ==> '#' !in x && (|x| < 5 || x[..5] != "@row:")
    ensures Safe(names)
  {
    forall x, y, n: nat | x in names && y in names
      ensures !IsRepeat(y, x, n)
    {
      RepeatHasHash(x, n);
    }
    forall x, n: nat | x in names
      ensures !IsLaterRow(x, n)
    {
      assert RowKey(n)[..5] == "@row:";
    }
  }

  // ----- Selection -----

  /** `keys.indexOf(key)`, with -1 turned into 0. */
  function IndexOf(keys: seq<string>, key: string): (p: nat)
    requires keys != []
    ensures p < |keys|
    ensures key in keys ==> keys[p] == key && forall q :: 0 <= q < p ==> keys[q] != key
    ensures key !in keys ==> p == 0
  {
    if key in keys then FirstAt(keys, key, 0) else 0
  }

  function FirstAt(keys: seq<string>, key: string, from: nat): (p: nat)
    requires from <= |keys| && key in keys[from..]
    ensures from <= p < |keys| && keys[p] == key && forall q :: from <= q < p ==> keys[q] != key
    decreases |keys| - from
  {
    if keys[from] == key then from
    else
      assert keys[from..] == [keys[from]] + keys[from + 1..];
      FirstAt(keys, key, from + 1)
  }

  /** The key `direction` steps on from the selected one, around the page. */
  function Move(keys: seq<string>, selected: string, direction: int): (key: string)
    requires keys != [] && (direction == 1 || direction == -1)
    ensures key in keys
  {
    var n := |keys|;
    keys[(IndexOf(keys, selected) + direction + n) % n]
  }

  function Moves(keys: seq<string>, selected: string, direction: int, k: nat): string
    requires keys != [] && (direction == 1 || direction == -1)
  {
    if k == 0 then selected else Move(keys, Moves(keys, selected, direction, k - 1), direction)
  }

  /** Between one move and as many as there are keys lead from `selected` to `key`. */
  ghost predicate Visits(keys: seq<string>, selected: string, direction: int, key: string)
    requires keys != [] && (direction == 1 || direction == -1)
  {
    exists k: nat :: 1 <= k <= |keys| && Moves(keys, selected, direction, k) == key
  }

  /** Where `k` steps lead on a ring of `n` places. */
  function Around(n: nat, p: nat, direction: int, k: nat): (q: nat)
    requires p < n && k <= n
    ensures q < n
  {
    if direction == 1 then (if p + k < n then p + k else p + k - n)
    else (if p >= k then p - k else p - k + n)
  }

  lemma ModOnce(a: int, n: nat)
    requires 0 <= a < n
    ensures a % n == a && (a + n) % n == a && (a + n + n) % n == a
  {
    assert (a + n) % n == a;
  }

  /** A selection that is not on the page counts as its first key. */
  function Effective(keys: seq<string>, selected: string): (key: string)
    requires keys != []
    ensures key in keys
    ensures key == selected <==> selected in keys
  {
    keys[IndexOf(keys, selected)]
  }

  lemma MoveFrom(keys: seq<string>, selected: string, direction: int)
    requires keys != [] && (direction == 1 || direction == -1)
    ensures Move(keys, selected, direction) == keys[Around(|keys|, IndexOf(keys, selected), direction, 1)]
  {
    var p := IndexOf(keys, selected);
    var q := Around(|keys|, p, direction, 1);
    ModOnce(q, |keys|);
    assert p + direction + |keys| in {q, q + |keys|, q + |keys| + |keys|};
  }

  lemma IndexOfDistinct(keys: seq<string>, p: nat)
    requires Distinct(keys) && p < |keys|
    ensures IndexOf(keys, keys[p]) == p
  {
  }

  lemma {:induction false} MovesFrom(keys: seq<string>, selected: string, direction: int, k: nat)
    requires Distinct(keys) && 1 <= k <= |keys| && (direction == 1 || direction == -1)
    ensures Moves(keys, selected, direction, k) == keys[Around(|keys|, IndexOf(keys, selected), direction, k)]
  {
    hide Distinct, Move, IndexOf;
    var p := IndexOf(keys, selected);
    if k == 1 {
      MoveFrom(keys, selected, direction);
    } else {
      MovesFrom(keys, selected, direction, k - 1);
      MoveFrom(keys, keys[Around(|keys|, p, direction, k - 1)], direction);
      IndexOfDistinct(keys, Around(|keys|, p, direction, k - 1));
    }
  }

  /**
   On keys that differ, wherever the selection is: n moves go through all n keys
   and end on the key the selection counted as, and a move is undone by the
   opposite move exactly when the selection was on the page.
   */
  lemma SelectionCycles(keys: seq<string>, selected: string, direction: int)
    requires Distinct(keys) && keys != [] && (direction == 1 || direction == -1)
    ensures Move(keys, Move(keys, selected, direction), -direction) == selected <==> selected in keys
    ensures Moves(keys, selected, direction, |keys|) == Effective(keys, selected)
    ensures forall key :: key in keys ==> Visits(keys, selected, direction, key)
  {
    hide Move, Moves, Distinct, Visits;
    var n, p := |keys|, IndexOf(keys, selected);
    MoveFrom(keys, selected, direction);
    IndexOfDistinct(keys, Around(n, p, direction, 1));
    MoveFrom(keys, keys[Around(n, p, direction, 1)], -direction);
    MovesFrom(keys, selected, direction, n);
    forall key | key in keys
      ensures Visits(keys, selected, direction, key)
    {
      MovesReach(keys, selected, direction, key);
    }
  }

  lemma MovesReach(keys: seq<string>, selected: string, direction: int, key: string)
    requires Distinct(keys) && key in keys && (direction == 1 || direction == -1)
    ensures Visits(keys, selected, direction, key)
  {
    hide Move, Moves, Distinct;
    var n, p, q := |keys|, IndexOf(keys, selected), IndexOf(keys, key);
    var k := if direction == 1 then Around(n, q, -1, p) else Around(n, p, -1, q);
    if k == 0 {
      k := n;
    }
    MovesFrom(keys, selected, direction, k);
  }

  // ----- Keys that repeat

  /** The length of the longest start of the list in which no key repeats. */
  function Fresh(keys: seq<string>): (m: nat)
    ensures m <= |keys| && Distinct(keys[..m])
    ensures m < |keys| ==> keys[m] in keys[..m]
    ensures keys != [] ==> m > 0
  {
    if keys == [] then 0
    else
      var before := Fresh(keys[..|keys| - 1]);
      assert keys[..|keys| - 1][..before] == keys[..before];
      if before < |keys| - 1 || keys[before] in keys[..before] then before else before + 1
  }

  /** From every key of the page, forward moves lead to every other. */
  ghost predicate ForwardReachesAll(keys: seq<string>)
    requires keys != []
  {
    forall from, key :: from in keys && key in keys ==> ForwardReaches(keys, from, key)
  }

  ghost predicate ForwardReaches(keys: seq<string>, from: string, key: string)
    requires keys != []
  {
    exists k: nat :: Moves(keys, from, 1, k) == key
  }

  /** Every key occurs before the first repeat, and that one repeats the first key. */
  predicate RepeatsFromTheStart(keys: seq<string>)
    requires keys != []
  {
    var m := Fresh(keys);
    (m < |keys| ==> keys[m] == keys[0]) && forall i :: 0 <= i < |keys| ==> keys[i] in keys[..m]
  }

  /** A move from a fresh key leads to the next one, or from the last to what the first repeat repeats. */
  lemma MoveFromFresh(keys: seq<string>, p: nat)
    requires p < Fresh(keys)
    ensures IndexOf(keys, keys[p]) == p
    ensures Move(keys, keys[p], 1)
            == if p + 1 < Fresh(keys) then keys[p + 1] else if Fresh(keys) < |keys| then keys[Fresh(keys)] else keys[0]
  {
    hide Fresh, Move, IndexOf;
    FreshIsFirst(keys, p);
    MoveFrom(keys, keys[p], 1);
  }

  lemma FreshIsFirst(keys: seq<string>, p: nat)
    requires p < Fresh(keys)
    ensures IndexOf(keys, keys[p]) == p
  {
    var m, q := Fresh(keys), IndexOf(keys, keys[p]);
    assert keys[..m][p] == keys[p];
    assert q <= p;
    assert keys[..m][q] == keys[q];
  }

  /** Where the first repeat leads back to. */
  function Back(keys: seq<string>): (f: nat)
    requires keys != []
    ensures f < Fresh(keys)
    ensures keys[f] == if Fresh(keys) < |keys| then keys[Fresh(keys)] else keys[0]
  {
    var m := Fresh(keys);
    if m < |keys| then
      assert keys[m] in keys[..m];
      var f := IndexOf(keys[..m], keys[m]);
      assert keys[..m][f] == keys[f];
      f
    else 0
  }

  /** Forward moves from the fresh key at `p` never leave the fresh keys, nor the loop once inside it. */
  lemma {:induction false} ForwardStays(keys: seq<string>, p: nat, k: nat) returns (q: nat)
    requires p < Fresh(keys)
    ensures q < Fresh(keys) && Moves(keys, keys[p], 1, k) == keys[q]
    ensures p >= Back(keys) ==> q >= Back(keys)
  {
    hide Move, Fresh, Back;
    if k == 0 {
      q := p;
    } else {
      var r := ForwardStays(keys, p, k - 1);
      MoveFromFresh(keys, r);
      q := if r + 1 < Fresh(keys) then r + 1 else Back(keys);
    }
  }

  /** On a loop that starts at the first key, `k` moves lead `k` places around. */
  lemma {:induction false} ForwardAround(keys: seq<string>, p: nat, k: nat)
    requires p < Fresh(keys) && Back(keys) == 0 && k <= Fresh(keys)
    ensures Moves(keys, keys[p], 1, k) == keys[Around(Fresh(keys), p, 1, k)]
  {
    hide Move, Fresh, Back;
    if k > 0 {
      ForwardAround(keys, p, k - 1);
      MoveFromFresh(keys, Around(Fresh(keys), p, 1, k - 1));
    }
  }

  lemma FreshPlace(keys: seq<string>, key: string) returns (p: nat)
    requires key in keys[..Fresh(keys)]
    ensures p < Fresh(keys) && keys[p] == key
  {
    hide Fresh;
    p :| 0 <= p < Fresh(keys) && keys[..Fresh(keys)][p] == key;
  }

  /** Forward moves get from every key to every other exactly when all repeats start over from the first key. */
  lemma ForwardReachesAllExactly(keys: seq<string>)
    requires keys != []
    ensures ForwardReachesAll(keys) <==> RepeatsFromTheStart(keys)
  {
    hide Fresh, Back, Moves;
    if RepeatsFromTheStart(keys) {
      BackToStart(keys);
      forall from, key | from in keys && key in keys ensures ForwardReaches(keys, from, key) {
        var p := FreshPlace(keys, from);
        var q := FreshPlace(keys, key);
        var k := Around(Fresh(keys), q, -1, p);
        ForwardAround(keys, p, k);
        assert Moves(keys, from, 1, k) == key;
      }
    } else {
      NotAllReached(keys);
    }
  }

  lemma BackToStart(keys: seq<string>)
    requires keys != []
    ensures Back(keys) == 0 <==> (Fresh(keys) < |keys| ==> keys[Fresh(keys)] == keys[0])
  {
    hide Fresh;
    var m, f := Fresh(keys), Back(keys);
    assert keys[..m][f] == keys[f] && keys[..m][0] == keys[0];
  }

  lemma NotAllReached(keys: seq<string>)
    requires keys != [] && !RepeatsFromTheStart(keys)
    ensures !ForwardReachesAll(keys)
  {
    hide Fresh, Back, Moves;
    var m := Fresh(keys);
    BackToStart(keys);
    if i :| 0 <= i < |keys| && keys[i] !in keys[..m] {
      forall k: nat ensures Moves(keys, keys[0], 1, k) != keys[i] {
        var q := ForwardStays(keys, 0, k);
        assert keys[..m][q] == keys[q];
      }
      assert !ForwardReaches(keys, keys[0], keys[i]);
    } else {
      var last := keys[m - 1];
      forall k: nat ensures Moves(keys, last, 1, k) != keys[0] {
        var q := ForwardStays(keys, m - 1, k);
        assert keys[..m][q] == keys[q] && keys[..m][0] == keys[0];
      }
      assert !ForwardReaches(keys, last, keys[0]);
    }
  }

  /** For instance two equal keys at the start hold the selection on its way forward. */
  lemma EqualKeysStick(keys: seq<string>, k: nat)
    requires |keys| >= 2 && keys[0] == keys[1]
    ensures Moves(keys, keys[0], 1, k) == keys[0]
  {
    if k > 0 {
      EqualKeysStick(keys, k - 1);
      assert IndexOf(keys, keys[0]) == 0;
    }
  }
}
