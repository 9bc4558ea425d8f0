/**
 The burst coalescer of tui/src/event-stream.ts and the matching rule that
 consumes what it flushes (tui/src/use-dashboard-refresh.ts): which views an
 event refreshes, and which entry of a flushed burst speaks for it.
 */
module Invalidation {
  import opened Wrappers

  const MAX_PENDING := 32
  const RESET := "__reset"

  /** A property that may be missing, null, or text. */
  datatype Key = Absent | Null | Str(text: string)

  datatype Event = Event(ovenId: Key, repoKey: Key, subjectId: Key, kind: Option<string>, phase: Option<string>)

  /** An invalidation: an event, or None when every view must reconcile. */
  type Invalidate = Option<Event>

  /** The rendered Oven: `null` keys are None. */
  datatype Active = Active(ovenId: string, repoKey: Option<string>, definitionRepoKey: Option<string>,
      subjectId: Option<string>)

  /** `key ?? null`. */
  function OrNull(k: Key): Option<string> {
    if k.Str? then Some(k.text) else None
  }

  // ----- which views an event refreshes

  predicate OvenWide(e: Event) {
    e.kind == Some("data-published") || e.kind == Some("binding-changed") || e.kind == Some("definition-changed")
  }

  /** `eventInvalidatesScope`. */
  predicate InvalidatesScope(event: Invalidate, scope: Option<Active>) {
    if event.None? || scope.None? then true
    else
      var (e, s) := (event.value, scope.value);
      if !e.ovenId.Absent? && e.ovenId != Str(s.ovenId) then false
      else if s.repoKey.Some? && !e.repoKey.Absent? && OrNull(e.repoKey) != s.repoKey then false
      else OvenWide(e) || s.subjectId.None? || e.subjectId.Absent? || OrNull(e.subjectId) == s.subjectId
  }

  /** `definitionChangeInvalidates`. */
  predicate DefinitionChangeInvalidates(s: Active, e: Event) {
    && e.kind == Some("definition-changed") && e.phase == Some("complete")
    && e.ovenId == Str(s.ovenId) && OrNull(e.repoKey) == s.definitionRepoKey
  }

  /** Whether `onInvalidate` refreshes the active view. */
  predicate Refreshes(event: Invalidate, active: Option<Active>) {
    if event.Some? && event.value.kind == Some("definition-changed")
    then active.Some? && DefinitionChangeInvalidates(active.value, event.value)
    else InvalidatesScope(event, active)
  }

  /** `isDashboardInvalidation`. */
  predicate Accepted(e: Event) {
    if OvenWide(e) && e.phase == Some("complete") then true
    else
      && e.ovenId == Str("checklist")
      && ((e.kind == Some("item-burned") && e.phase == Some("completed"))
          || (e.kind == Some("lifecycle-changed") && e.phase == Some("complete")))
  }

  /** A property that is only set when there is a text for it. */
  function Given(text: Option<string>): Key {
    if text.Some? then Str(text.value) else Absent
  }

  /** The reset an `oven-reset` frame with a scope builds. */
  function Reset(ovenId: Option<string>, repoKey: Option<string>): Event {
    Event(Given(ovenId), Given(repoKey), Absent, Some(RESET), None)
  }

  predicate IsReset(e: Event) {
    e.kind == Some(RESET)
  }

  /** What can reach the coalescer: a global invalidation, an accepted event, or a reset built from a frame. */
  predicate Input(i: Invalidate) {
    i.Some? ==> Accepted(i.value) || i.value == Reset(OrNull(i.value.ovenId), OrNull(i.value.repoKey))
  }

  // ----- the pending list

  predicate ResetCovers(reset: Event, e: Event) {
    && (reset.ovenId.Absent? || reset.ovenId == e.ovenId)
    && (reset.repoKey.Absent? || OrNull(reset.repoKey) == OrNull(e.repoKey))
  }

  /** A pending barrier for the event: a global entry, or a reset that covers it. */
  predicate Bars(entry: Invalidate, e: Event) {
    entry.None? || (IsReset(entry.value) && ResetCovers(entry.value, e))
  }

  /** The dedupe key of an ordinary event. */
  predicate SameKey(d: Event, e: Event) {
    d.ovenId == e.ovenId && OrNull(d.repoKey) == OrNull(e.repoKey) && d.kind == e.kind && d.phase == e.phase
  }

  predicate Twins(entry: Invalidate, e: Event) {
    entry.Some? && SameKey(entry.value, e)
  }

  /** What a new reset leaves of the pending list. */
  function KeepUncovered(pending: seq<Invalidate>, reset: Event): seq<Invalidate> {
    if pending == [] then []
    else
      (if pending[0].None? || IsReset(pending[0].value) || !ResetCovers(reset, pending[0].value) then [pending[0]]
          else [])
      + KeepUncovered(pending[1..], reset)
  }

  /** `invalidate`, on the pending list. */
  function Push(pending: seq<Invalidate>, event: Invalidate): seq<Invalidate> {
    if event.None? then [None]
    else if exists p :: p in pending && Bars(p, event.value) then pending
    else if IsReset(event.value) then KeepUncovered(pending, event.value) + [event]
    else if exists p :: p in pending && Twins(p, event.value) then pending
    else if |pending| >= MAX_PENDING then [None]
    else pending + [event]
  }

  function Fold(burst: seq<Invalidate>): seq<Invalidate> {
    if burst == [] then [] else Push(Fold(burst[..|burst| - 1]), burst[|burst| - 1])
  }

  /** What the timer hands to `onInvalidate` for one pending entry. */
  function Flushed(entry: Invalidate): Invalidate {
    if entry.Some? && IsReset(entry.value)
    then Some(Event(entry.value.ovenId, entry.value.repoKey, Absent, None, None))
    else entry
  }

  predicate Burst(burst: seq<Invalidate>) {
    forall i :: 0 <= i < |burst| ==> Input(burst[i])
  }

  // ----- the invariant of the pending list

  predicate Ordinary(entry: Invalidate) {
    entry.Some? && !IsReset(entry.value)
  }

  function CountOrdinary(pending: seq<Invalidate>): nat {
    if pending == [] then 0 else (if Ordinary(pending[0]) then 1 else 0) + CountOrdinary(pending[1..])
  }

  /** `p` is pending, `q` after it: no barrier covers the other and no two ordinary entries share a key. */
  predicate InOrder(p: Invalidate, q: Invalidate) {
    p.Some? && q.Some? ==>
      && !Bars(p, q.value)
      && (Ordinary(p) ==> !Bars(q, p.value))
      && (Ordinary(p) && Ordinary(q) ==> !SameKey(p.value, q.value))
  }

  ghost predicate PendingInvariant(pending: seq<Invalidate>) {
    && (None in pending ==> pending == [None])
    && CountOrdinary(pending) <= MAX_PENDING
    && (forall i, j :: 0 <= i < j < |pending| ==> InOrder(pending[i], pending[j]))
  }

  lemma {:induction false} CountAppend(a: seq<Invalidate>, b: seq<Invalidate>)
    ensures CountOrdinary(a + b) == CountOrdinary(a) + CountOrdinary(b)
    ensures CountOrdinary(a) <= |a|
  {
    if a == [] {
      assert a + b == b;
    } else {
      assert (a + b)[1..] == a[1..] + b;
      CountAppend(a[1..], b);
    }
  }

  predicate Kept(p: Invalidate, reset: Event) {
    p.None? || IsReset(p.value) || !ResetCovers(reset, p.value)
  }

  /** What a reset keeps and what it absorbs. */
  lemma {:induction false} KeptEntries(pending: seq<Invalidate>, reset: Event)
    ensures forall p :: p in KeepUncovered(pending, reset) <==> p in pending && Kept(p, reset)
    ensures CountOrdinary(KeepUncovered(pending, reset)) <= CountOrdinary(pending)
  {
    if pending != [] {
      var rest := KeepUncovered(pending[1..], reset);
      KeptEntries(pending[1..], reset);
      CountAppend([pending[0]], rest);
      assert [pending[0]][1..] == [] && [] + rest == rest;
    }
  }

  /** Filtering keeps what holds of every pair in order. */
  lemma {:induction false} KeptInOrder(pending: seq<Invalidate>, reset: Event)
    requires forall i, j :: 0 <= i < j < |pending| ==> InOrder(pending[i], pending[j])
    ensures var kept := KeepUncovered(pending, reset);
            forall i, j :: 0 <= i < j < |kept| ==> InOrder(kept[i], kept[j])
  {
    if pending != [] {
      var rest := KeepUncovered(pending[1..], reset);
      KeptInOrder(pending[1..], reset);
      KeptEntries(pending[1..], reset);
      forall j | 0 <= j < |rest| ensures InOrder(pending[0], rest[j]) {
        assert rest[j] in pending[1..];
      }
    }
  }

  lemma AppendInOrder(pending: seq<Invalidate>, last: Invalidate)
    requires forall i, j :: 0 <= i < j < |pending| ==> InOrder(pending[i], pending[j])
    requires forall p :: p in pending ==> InOrder(p, last)
    ensures var longer := pending + [last];
            forall i, j :: 0 <= i < j < |longer| ==> InOrder(longer[i], longer[j])
  {
  }

  lemma PushKeepsInvariant(pending: seq<Invalidate>, event: Invalidate)
    requires PendingInvariant(pending)
    ensures PendingInvariant(Push(pending, event))
  {
    if event.Some? && !(exists p :: p in pending && Bars(p, event.value)) {
      var e := event.value;
      assert forall p :: p in pending ==> p.Some? && !Bars(p, e);
      if IsReset(e) {
        KeptEntries(pending, e);
        KeptInOrder(pending, e);
        AppendInOrder(KeepUncovered(pending, e), event);
        CountAppend(KeepUncovered(pending, e), [event]);
      } else if !(exists p :: p in pending && Twins(p, e)) && |pending| < MAX_PENDING {
        AppendInOrder(pending, event);
        CountAppend(pending, [event]);
      }
    }
  }

  /** After any sequence of invalidations the pending list is in order. */
  lemma {:induction false} PendingInvariantHolds(burst: seq<Invalidate>)
    ensures PendingInvariant(Fold(burst))
    ensures burst != [] ==> Fold(burst) != []
    decreases |burst|
  {
    if burst != [] {
      PendingInvariantHolds(burst[..|burst| - 1]);
      PushKeepsInvariant(Fold(burst[..|burst| - 1]), burst[|burst| - 1]);
    }
  }

  // ----- what a flushed entry stands for

  /** A repository-scoped definition belongs to the repository of its view (definition-adapter.ts:67). */
  predicate Admitted(active: Option<Active>) {
    active.Some? ==> active.value.definitionRepoKey.None? || active.value.definitionRepoKey == active.value.repoKey
  }

  /** Flushing the entry refreshes every view the event would have refreshed. */
  ghost predicate Covers(entry: Invalidate, event: Invalidate) {
    forall active :: Admitted(active) && Refreshes(event, active) ==> Refreshes(Flushed(entry), active)
  }

  ghost predicate CoveredBy(pending: seq<Invalidate>, event: Invalidate) {
    exists i :: 0 <= i < |pending| && Covers(pending[i], event)
  }

  /** The pending twin `d` refreshes every view the dropped event `e` would. */
  predicate TwinSafe(d: Event, e: Event) {
    || e.kind == Some("definition-changed") || e.ovenId.Null?
    || (&& (e.repoKey.Absent? ==> d.repoKey.Absent?)
        && (OvenWide(e) || d.subjectId.Absent? || e.subjectId.Null? || d.subjectId == e.subjectId))
  }

  /** Events no earlier twin can weaken. */
  predicate Robust(i: Invalidate) {
    i.Some? && !IsReset(i.value) ==>
      || i.value.kind == Some("definition-changed") || i.value.ovenId.Null?
      || (!i.value.repoKey.Absent? && (OvenWide(i.value) || i.value.subjectId.Null?))
  }

  /** Dropping an event in favour of a pending twin is right exactly when TwinSafe says so. */
  lemma TwinSafeIsExact(d: Event, e: Event)
    requires SameKey(d, e) && !IsReset(e)
    requires e.kind == Some("definition-changed") ==> e.phase == Some("complete")
    ensures TwinSafe(d, e) <==> Covers(Some(d), Some(e))
  {
    if !TwinSafe(d, e) {
      var oven := if e.ovenId.Str? then e.ovenId.text else "";
      var active :=
        if e.repoKey.Absent? && !d.repoKey.Absent? then Active(oven, Some(""), None, None)
        else Active(oven, OrNull(e.repoKey), None, if e.subjectId.Str? then Some(e.subjectId.text)
            else Some(Other(d.subjectId)));
      assert Admitted(Some(active)) && Refreshes(Some(e), Some(active)) && !Refreshes(Flushed(Some(d)), Some(active));
    }
  }

  /** Some text that differs from the key's. */
  function Other(k: Key): (s: string)
    ensures Some(s) != OrNull(k)
  {
    if k == Str("") then "other" else ""
  }

  /** A barrier refreshes everything the event it absorbs would have. */
  lemma BarCovers(entry: Invalidate, e: Event)
    requires Input(entry) && Input(Some(e)) && Bars(entry, e)
    ensures Covers(entry, Some(e))
  {
  }

  // ----- every burst

  /** Why the entry covers the event: a barrier, the event itself, or a safe twin. */
  predicate StandsFor(entry: Invalidate, event: Invalidate) {
    || entry.None?
    || (event.Some? && Bars(entry, event.value))
    || entry == event
    || (event.Some? && !IsReset(event.value) && Twins(entry, event.value) && TwinSafe(entry.value, event.value))
  }

  lemma StandingCovers(entry: Invalidate, event: Invalidate)
    requires Input(entry) && Input(event) && StandsFor(entry, event)
    ensures Covers(entry, event)
  {
    if event.Some? && Bars(entry, event.value) {
      BarCovers(entry, event.value);
    } else if event.Some? && !IsReset(event.value) && Twins(entry, event.value) && TwinSafe(entry.value, event.value) {
      TwinSafeIsExact(entry.value, event.value);
    }
  }

  lemma {:induction false} PendingComesFromBurst(burst: seq<Invalidate>)
    ensures forall p :: p in Fold(burst) ==> p.None? || p in burst
    decreases |burst|
  {
    if burst != [] {
      var before, event := burst[..|burst| - 1], burst[|burst| - 1];
      PendingComesFromBurst(before);
      if event.Some? {
        KeptEntries(Fold(before), event.value);
      }
    }
  }

  /** Once something stands for an event, later invalidations keep it so. */
  lemma StandingIsKept(pending: seq<Invalidate>, next: Invalidate, event: Invalidate)
    requires exists p :: p in pending && StandsFor(p, event)
    ensures exists p :: p in Push(pending, next) && StandsFor(p, event)
  {
    var p :| p in pending && StandsFor(p, event);
    var after := Push(pending, next);
    if p !in after {
      if None in after {
        assert StandsFor(None, event);
      } else {
        KeptEntries(pending, next.value);
        assert next in after && StandsFor(next, event);
      }
    }
  }

  lemma PushStands(pending: seq<Invalidate>, event: Invalidate)
    requires Input(event)
    requires event.Some? && !IsReset(event.value) ==>
               forall p :: p in pending && Twins(p, event.value) ==> TwinSafe(p.value, event.value)
    ensures exists p :: p in Push(pending, event) && StandsFor(p, event)
  {
    if event.None? {
      assert [None][0] in Push(pending, event) && StandsFor(None, event);
    } else if exists p :: p in pending && Bars(p, event.value) {
      var p :| p in pending && Bars(p, event.value);
      assert StandsFor(p, event);
    } else if !IsReset(event.value) && exists p :: p in pending && Twins(p, event.value) {
      var p :| p in pending && Twins(p, event.value);
      assert StandsFor(p, event);
    } else if event in Push(pending, event) {
      assert StandsFor(event, event);
    } else {
      assert None in Push(pending, event) && StandsFor(None, event);
    }
  }

  lemma {:induction false} BurstStands(burst: seq<Invalidate>, i: nat)
    requires Burst(burst) && i < |burst|
    requires burst[i].Some? && !IsReset(burst[i].value) ==>
               forall j :: 0 <= j < i && Twins(burst[j], burst[i].value) ==> TwinSafe(burst[j].value, burst[i].value)
    ensures exists p :: p in Fold(burst) && StandsFor(p, burst[i])
    decreases |burst|
  {
    var last := |burst| - 1;
    if i == last {
      PendingComesFromBurst(burst[..last]);
      PushStands(Fold(burst[..last]), burst[i]);
    } else {
      BurstStands(burst[..last], i);
      StandingIsKept(Fold(burst[..last]), burst[last], burst[i]);
    }
  }

  /**
   Burst coverage: through dedupe, reset absorption and overflow, an event that
   no earlier twin weakens is refreshed by some flushed entry.
   */
  lemma BurstCovers(burst: seq<Invalidate>, i: nat)
    requires Burst(burst) && i < |burst|
    requires burst[i].Some? && !IsReset(burst[i].value) ==>
               forall j :: 0 <= j < i && Twins(burst[j], burst[i].value) ==> TwinSafe(burst[j].value, burst[i].value)
    ensures CoveredBy(Fold(burst), burst[i])
  {
    hide Push, Refreshes, StandsFor;
    BurstStands(burst, i);
    var p :| p in Fold(burst) && StandsFor(p, burst[i]);
    PendingComesFromBurst(burst);
    StandingCovers(p, burst[i]);
    var k :| 0 <= k < |Fold(burst)| && Fold(burst)[k] == p;
  }

  /** The event is refreshed as promised in whatever burst it arrives. */
  ghost predicate AlwaysCovered(event: Invalidate) {
    forall burst, i :: Burst(burst) && 0 <= i < |burst| && burst[i] == event ==> CoveredBy(Fold(burst), event)
  }

  /** An unsafe twin just before the event makes the burst lose it. */
  lemma UnsafeTwinLoses(d: Event, e: Event)
    requires Accepted(d) && Accepted(e) && SameKey(d, e) && !TwinSafe(d, e)
    ensures !CoveredBy(Fold([Some(d), Some(e)]), Some(e))
  {
    var burst := [Some(d), Some(e)];
    assert burst[..1] == [Some(d)] && burst[..1][..0] == [];
    assert Fold([]) == [];
    assert Fold(burst[..1]) == Push([], Some(d)) == [Some(d)];
    assert Twins(Some(d), e);
    assert Some(d) in [Some(d)];
    assert Fold(burst) == [Some(d)];
    TwinSafeIsExact(d, e);
  }

  /**
   Exactly the robust events are safe in every burst: global invalidations,
   resets, definition changes, and events with a repository key that are
   oven-wide or carry a null subject.
   */
  lemma RobustIsExact(event: Invalidate)
    requires Input(event)
    ensures AlwaysCovered(event) <==> Robust(event)
  {
    if Robust(event) {
      forall burst, i | Burst(burst) && 0 <= i < |burst| && burst[i] == event
        ensures CoveredBy(Fold(burst), event)
      {
        BurstCovers(burst, i);
      }
    } else {
      var e := event.value;
      var d := if e.repoKey.Absent? then e.(repoKey := Null)
               else e.(subjectId := Str(Other(e.subjectId)));
      UnsafeTwinLoses(d, e);
      var burst := [Some(d), event];
      assert Burst(burst) && burst[1] == event;
    }
  }

  /** Two burned items of one checklist: only the first one's view is refreshed. */
  lemma SecondBurnedItemIsLost()
    ensures var first := Event(Str("checklist"), Str("repo"), Str("a"), Some("item-burned"), Some("completed"));
            var second := first.(subjectId := Str("b"));
            var view := Some(Active("checklist", Some("repo"), None, Some("b")));
            && Refreshes(Some(second), view)
            && Fold([Some(first), Some(second)]) == [Some(first)]
            && !Refreshes(Flushed(Some(first)), view)
  {
    var first := Event(Str("checklist"), Str("repo"), Str("a"), Some("item-burned"), Some("completed"));
    var burst := [Some(first), Some(first.(subjectId := Str("b")))];
    assert burst[..1] == [Some(first)] && burst[..1][..0] == [];
    assert Fold(burst[..1]) == Push([], Some(first)) == [Some(first)];
    assert Twins(Some(first), first.(subjectId := Str("b"))) && Some(first) in [Some(first)];
  }

  // ----- when the list outgrows the cap

  /** The list has reached the cap and takes in a reset that nothing covers and that covers nothing. */
  ghost predicate OutgrowsCap(pending: seq<Invalidate>, event: Invalidate) {
    && event.Some? && IsReset(event.value)
    && !(exists q :: q in pending && Bars(q, event.value))
    && |KeepUncovered(pending, event.value)| == |pending| >= MAX_PENDING
  }

  /** One call takes the list beyond the cap exactly in the reset branch, and there only by an unrelated reset. */
  lemma PushOutgrowsCapExactly(pending: seq<Invalidate>, event: Invalidate)
    ensures |Push(pending, event)| > |pending| && |Push(pending, event)| > 32 <==> OutgrowsCap(pending, event)
  {
    if event.Some? {
      KeptIsNoLonger(pending, event.value);
    }
  }

  lemma {:induction false} KeptIsNoLonger(pending: seq<Invalidate>, reset: Event)
    ensures |KeepUncovered(pending, reset)| <= |pending|
  {
    if pending != [] {
      KeptIsNoLonger(pending[1..], reset);
    }
  }

  /** The list after the first `i` calls of a burst. */
  function PendingAt(burst: seq<Invalidate>, i: nat): seq<Invalidate>
    requires i <= |burst|
  {
    Fold(burst[..i])
  }

  lemma PendingSteps(burst: seq<Invalidate>, i: nat)
    requires i < |burst|
    ensures PendingAt(burst, i + 1) == Push(PendingAt(burst, i), burst[i])
  {
    assert burst[..i + 1][..i] == burst[..i];
  }

  /** The list stays within the cap all through a burst exactly when no call of it outgrows the cap. */
  lemma {:induction false} CapHoldsExactly(burst: seq<Invalidate>, n: nat)
    requires n <= |burst|
    ensures (forall i :: 0 <= i <= n ==> |PendingAt(burst, i)| <= 32)
            <==> forall i :: 0 <= i < n ==> !OutgrowsCap(PendingAt(burst, i), burst[i])
  {
    hide Push, OutgrowsCap, PendingAt;
    if n == 0 {
      NothingPending(burst);
    } else {
      CapHoldsExactly(burst, n - 1);
      PendingSteps(burst, n - 1);
      PushOutgrowsCapExactly(PendingAt(burst, n - 1), burst[n - 1]);
      CapIsKept(PendingAt(burst, n - 1), burst[n - 1]);
    }
  }

  lemma NothingPending(burst: seq<Invalidate>)
    ensures PendingAt(burst, 0) == []
  {
  }

  lemma CapIsKept(pending: seq<Invalidate>, event: Invalidate)
    ensures |pending| <= 32 && !OutgrowsCap(pending, event) ==> |Push(pending, event)| <= 32
  {
    PushOutgrowsCapExactly(pending, event);
  }

  /** Without scoped resets the cap holds. */
  lemma CapHoldsWithoutResets(burst: seq<Invalidate>)
    requires forall i :: 0 <= i < |burst| && burst[i].Some? ==> !IsReset(burst[i].value)
    ensures |Fold(burst)| <= 32
  {
    hide Fold, Push;
    CapHoldsExactly(burst, |burst|);
    assert burst[..|burst|] == burst;
    assert |PendingAt(burst, |burst|)| <= MAX_PENDING;
  }

  /** Scoped resets are never counted against the cap: any number of them can be pending. */
  lemma {:induction false} ResetsExceedTheCap(n: nat)
    ensures Fold(DistinctResets(n)) == DistinctResets(n) && Burst(DistinctResets(n))
    decreases n
  {
    if n > 0 {
      var burst, before := DistinctResets(n), DistinctResets(n - 1);
      ResetsExceedTheCap(n - 1);
      assert burst[..n - 1] == before;
      DistinctResetsUncovered(n);
      hide Push, ResetCovers;
      PushUncoveredReset(before, burst[n - 1].value);
    }
  }

  lemma DistinctResetsUncovered(n: nat)
    requires n > 0
    ensures var (burst, last) := (DistinctResets(n), Reset(Some(Name(n - 1)), None));
            && burst[n - 1] == Some(last) && Input(burst[n - 1])
            && forall i :: 0 <= i < n - 1
                ==> burst[i].Some? && IsReset(burst[i].value) && !ResetCovers(burst[i].value, last)
  {
  }

  lemma PushUncoveredReset(pending: seq<Invalidate>, reset: Event)
    requires IsReset(reset)
    requires forall i ::
        0 <= i < |pending|
        ==> pending[i].Some? && IsReset(pending[i].value) && !ResetCovers(pending[i].value, reset)
    ensures Push(pending, Some(reset)) == pending + [Some(reset)]
  {
    KeepsResets(pending, reset);
    assert forall p :: p in pending ==> !Bars(p, reset);
  }

  function Name(n: nat): (s: string)
    ensures |s| == n
  {
    seq(n, i => 'a')
  }

  function DistinctResets(n: nat): (burst: seq<Invalidate>)
    ensures |burst| == n
    ensures forall i :: 0 <= i < n ==> burst[i] == Some(Reset(Some(Name(i)), None))
  {
    if n == 0 then [] else DistinctResets(n - 1) + [Some(Reset(Some(Name(n - 1)), None))]
  }

  lemma {:induction false} KeepsResets(pending: seq<Invalidate>, reset: Event)
    requires forall i :: 0 <= i < |pending| ==> pending[i].Some? && IsReset(pending[i].value)
    ensures KeepUncovered(pending, reset) == pending
  {
    if pending != [] {
      KeepsResets(pending[1..], reset);
    }
  }
}
