/**
 Width reduction of a chart series (`bucketTerminalSeries` in
 tui/src/terminal-series-chart-model.ts): one candidate per bucket, the global
 extrema, and a loop that trims what is too much.
 */
module Series {
  import opened Arithmetic
  import opened Wrappers

  /** `finite` is false for NaN and the infinities; then `value` means nothing. */
  datatype Point = Point(name: string, value: real, finite: bool, fail: bool)

  function Abs(v: real): (size: real)
    ensures size >= 0.0 && (size == v || size == -v)
  {
    if v < 0.0 then -v else v
  }

  function Finite(points: seq<Point>): (out: seq<Point>)
    ensures forall i :: 0 <= i < |out| ==> out[i].finite
  {
    if points == [] then []
    else Finite(points[..|points| - 1]) + (if points[|points| - 1].finite then [points[|points| - 1]] else [])
  }

  /** These are the places of all finite points, in order. */
  ghost predicate FiniteAt(points: seq<Point>, out: seq<Point>, places: seq<nat>) {
    && |places| == |out|
    && (forall i, j :: 0 <= i < j < |places| ==> places[i] < places[j])
    && (forall i :: 0 <= i < |places| ==> places[i] < |points| && points[places[i]] == out[i])
    && (forall p :: 0 <= p < |points| ==> (points[p].finite <==> p in places))
  }

  /** Exactly the finite points stay, each in its place. */
  lemma {:induction false} FiniteIsExact(points: seq<Point>) returns (places: seq<nat>)
    ensures FiniteAt(points, Finite(points), places)
  {
    if points == [] {
      places := [];
    } else {
      hide FiniteAt;
      var rest, last := points[..|points| - 1], points[|points| - 1];
      places := FiniteIsExact(rest);
      assert points == rest + [last];
      FiniteAtStep(rest, Finite(rest), places, last);
      if last.finite {
        places := places + [|rest|];
      }
    }
  }

  lemma FiniteAtStep(points: seq<Point>, out: seq<Point>, places: seq<nat>, last: Point)
    requires FiniteAt(points, out, places)
    ensures last.finite ==> FiniteAt(points + [last], out + [last], places + [|points|])
    ensures !last.finite ==> FiniteAt(points + [last], out, places)
  {
    forall p | 0 <= p < |points| + 1 ensures p in places + [|points|] <==> p in places || p == |points| {
    }
  }

  /** `Math.max(1, Math.floor(limit))`. */
  function SizeOf(limit: real): (size: nat)
    ensures size >= 1
    ensures if limit < 1.0 then size == 1 else size as real <= limit < size as real + 1.0
  {
    if limit.Floor < 1 then 1 else limit.Floor
  }

  // ----- buckets

  function Start(bucket: nat, n: nat, size: nat): nat
    requires size > 0
  {
    bucket * n / size
  }

  lemma BucketIsNotEmpty(n: nat, size: nat, b: nat)
    requires 0 < size <= n && b < size
    ensures Start(b, n, size) < Start(b + 1, n, size) <= n
  {
    assert (b + 1) * n == b * n + n;
    MulMonotone(b + 1, size, n);
    QuotientGrows(b * n, (b + 1) * n, n, size);
  }

  lemma QuotientGrows(x: nat, y: nat, n: nat, size: nat)
    requires size > 0 && x + size <= y <= n * size
    ensures x / size < y / size <= n
  {
    DivideShifted(x, size);
    DivideMonotone(x + size, y, size);
    DivideMonotone(y, n * size, size);
    DivModUnique(n * size, size, n, 0);
  }

  lemma BucketEnds(n: nat, size: nat)
    requires size > 0
    ensures Start(0, n, size) == 0 && Start(size, n, size) == n
  {
    DivModUnique(size * n, size, n, 0);
  }

  lemma {:induction false} PointInBucketBelow(n: nat, size: nat, upTo: nat, i: nat) returns (b: nat)
    requires 0 < size <= n && upTo <= size && i < Start(upTo, n, size)
    ensures b < upTo && Start(b, n, size) <= i < Start(b + 1, n, size)
  {
    BucketEnds(n, size);
    hide Start;
    assert upTo > 0;
    if i >= Start(upTo - 1, n, size) {
      b := upTo - 1;
    } else {
      b := PointInBucketBelow(n, size, upTo - 1, i);
    }
  }

  lemma {:induction false} BucketsAscend(n: nat, size: nat, b: nat, c: nat)
    requires 0 < size <= n && b <= c <= size
    ensures Start(b, n, size) <= Start(c, n, size)
    decreases c
  {
    hide Start;
    if b < c {
      BucketsAscend(n, size, b, c - 1);
      BucketIsNotEmpty(n, size, c - 1);
    }
  }

  /** The buckets tile the points: every point lies in exactly one of them, and none is empty. */
  lemma BucketsTile(n: nat, size: nat, i: nat) returns (b: nat)
    requires 0 < size <= n && i < n
    ensures b < size && Start(b, n, size) <= i < Start(b + 1, n, size)
    ensures forall c: nat {:trigger Start(c, n, size)} ::
        c < size && Start(c, n, size) <= i < Start(c + 1, n, size)
        ==> c == b
  {
    BucketEnds(n, size);
    b := PointInBucketBelow(n, size, size, i);
    hide Start;
    forall c: nat | c < size && Start(c, n, size) <= i < Start(c + 1, n, size) ensures c == b {
      if c < b { BucketsAscend(n, size, c + 1, b); } else if b < c { BucketsAscend(n, size, b + 1, c); }
    }
  }

  /** The first point of `points[lo..hi]` with the largest excursion, among failures only or among all. */
  function BestOf(points: seq<Point>, lo: nat, hi: nat, failuresOnly: bool): (best: Option<nat>)
    requires lo <= hi <= |points|
    ensures best.None? <==> forall i :: lo <= i < hi ==> failuresOnly && !points[i].fail
    ensures best.Some? ==> lo <= best.value < hi && (failuresOnly ==> points[best.value].fail)
    ensures best.Some? ==> forall i :: lo <= i < hi && (failuresOnly ==> points[i].fail) ==>
              Abs(points[i].value) <= Abs(points[best.value].value)
                  && (i < best.value ==> Abs(points[i].value) < Abs(points[best.value].value))
    decreases hi
  {
    if lo == hi then None
    else
      var before := BestOf(points, lo, hi - 1, failuresOnly);
      if failuresOnly && !points[hi - 1].fail then before
      else if before.None? || Abs(points[hi - 1].value) > Abs(points[before.value].value) then Some(hi - 1)
      else before
  }

  /** The candidate of a bucket: its worst failure, or its largest excursion when nothing failed. */
  function Candidate(points: seq<Point>, lo: nat, hi: nat): (best: nat)
    requires lo < hi <= |points|
    ensures lo <= best < hi
    ensures (exists i :: lo <= i < hi && points[i].fail) ==> points[best].fail
  {
    var failure := BestOf(points, lo, hi, true);
    if failure.Some? then failure.value
    else
      assert !(points[lo].fail);
      BestOf(points, lo, hi, false).value
  }

  // ----- the extrema

  function MinValue(points: seq<Point>): (v: real)
    requires points != []
    ensures forall i :: 0 <= i < |points| ==> v <= points[i].value
    ensures exists i :: 0 <= i < |points| && points[i].value == v
  {
    var last := points[|points| - 1].value;
    if |points| == 1 then last
    else
      var before := MinValue(points[..|points| - 1]);
      if last < before then last else before
  }

  function MaxValue(points: seq<Point>): (v: real)
    requires points != []
    ensures forall i :: 0 <= i < |points| ==> points[i].value <= v
    ensures exists i :: 0 <= i < |points| && points[i].value == v
  {
    var last := points[|points| - 1].value;
    if |points| == 1 then last
    else
      var before := MaxValue(points[..|points| - 1]);
      if last > before then last else before
  }

  /** `findIndex` by value. */
  function FirstWith(points: seq<Point>, v: real): (i: nat)
    requires exists k :: 0 <= k < |points| && points[k].value == v
    ensures i < |points| && points[i].value == v && forall k :: 0 <= k < i ==> points[k].value != v
  {
    if points[0].value == v then 0
    else
      assert exists k :: 0 <= k < |points[1..]| && points[1..][k].value == v by {
        var k :| 0 <= k < |points| && points[k].value == v;
        assert points[1..][k - 1].value == v;
      }
      FirstWith(points[1..], v) + 1
  }

  // ----- what is selected, in order

  function Candidates(points: seq<Point>, size: nat, buckets: nat): (chosen: set<nat>)
    requires 0 < size <= |points| && buckets <= size
    ensures forall i :: i in chosen ==> i < |points|
  {
    if buckets == 0 then {} else Candidates(points, size, buckets - 1) + {CandidateOf(points, size, buckets - 1)}
  }

  function CandidateOf(points: seq<Point>, size: nat, b: nat): (i: nat)
    requires 0 < size <= |points| && b < size
    ensures i < |points| && Start(b, |points|, size) <= i < Start(b + 1, |points|, size)
    ensures forall k :: Start(b, |points|, size) <= k < Start(b + 1, |points|, size) && k < |points| && points[k].fail
              ==> points[i].fail
  {
    BucketIsNotEmpty(|points|, size, b);
    Candidate(points, Start(b, |points|, size), Start(b + 1, |points|, size))
  }

  lemma {:induction false} CandidateIsChosen(points: seq<Point>, size: nat, buckets: nat, b: nat)
    requires 0 < size <= |points| && b < buckets <= size
    ensures CandidateOf(points, size, b) in Candidates(points, size, buckets)
    decreases buckets
  {
    hide CandidateOf;
    if b < buckets - 1 {
      CandidateIsChosen(points, size, buckets - 1, b);
    }
  }

  function Selected(points: seq<Point>, size: nat): (chosen: set<nat>)
    requires 0 < size <= |points|
    ensures forall i :: i in chosen ==> i < |points|
  {
    Candidates(points, size, size) + {FirstWith(points, MinValue(points)), FirstWith(points, MaxValue(points))}
  }

  /** The point at `i` goes before the one at `k` in the choice of a bucket: failures first, then larger excursions. */
  predicate Rather(points: seq<Point>, i: nat, k: nat)
    requires i < |points| && k < |points|
  {
    if points[i].fail != points[k].fail then points[i].fail
    else Abs(points[i].value) > Abs(points[k].value) || (Abs(points[i].value) == Abs(points[k].value) && i <= k)
  }

  /** A bucket chooses the point that goes before all others in it. */
  predicate ChosenOf(points: seq<Point>, size: nat, b: nat, i: nat)
    requires size > 0
  {
    && i < |points| && Start(b, |points|, size) <= i < Start(b + 1, |points|, size)
    && forall k :: 0 <= k < |points| && Start(b, |points|, size) <= k < Start(b + 1, |points|, size) ==>
         Rather(points, i, k)
  }

  /** The first point with the least or the greatest value of all. */
  predicate FirstExtreme(points: seq<Point>, i: nat) {
    && i < |points|
    && (|| (forall k :: 0 <= k < |points| ==>
              points[i].value <= points[k].value && (k < i ==> points[i].value < points[k].value))
        || (forall k :: 0 <= k < |points| ==>
              points[i].value >= points[k].value && (k < i ==> points[i].value > points[k].value)))
  }

  lemma {:induction false} CandidatesAreChosen(points: seq<Point>, size: nat, buckets: nat, i: nat)
    requires 0 < size <= |points| && buckets <= size
    ensures i in Candidates(points, size, buckets) <==> exists b :: 0 <= b < buckets && ChosenOf(points, size, b, i)
  {
    hide ChosenOf, CandidateOf;
    if buckets > 0 {
      CandidatesAreChosen(points, size, buckets - 1, i);
      CandidateIsExact(points, size, buckets - 1, i);
    }
  }

  lemma CandidateIsExact(points: seq<Point>, size: nat, b: nat, i: nat)
    requires 0 < size <= |points| && b < size
    ensures ChosenOf(points, size, b, i) <==> i == CandidateOf(points, size, b)
  {
    hide Start, Rather, CandidateOf;
    CandidateGoesFirst(points, size, b);
    if ChosenOf(points, size, b, i) {
      assert Rather(points, i, CandidateOf(points, size, b)) && Rather(points, CandidateOf(points, size, b), i);
      RatherIsStrict(points, i, CandidateOf(points, size, b));
    }
  }

  lemma RatherIsStrict(points: seq<Point>, i: nat, k: nat)
    requires i < |points| && k < |points| && Rather(points, i, k) && Rather(points, k, i)
    ensures i == k
  {
  }

  lemma CandidateGoesFirst(points: seq<Point>, size: nat, b: nat)
    requires 0 < size <= |points| && b < size
    ensures ChosenOf(points, size, b, CandidateOf(points, size, b))
  {
    BucketIsNotEmpty(|points|, size, b);
    hide Start, Rather, BestOf;
    var lo, hi, chosen := Start(b, |points|, size), Start(b + 1, |points|, size), CandidateOf(points, size, b);
    forall k | lo <= k < hi ensures Rather(points, chosen, k) {
      BestGoesFirst(points, lo, hi, chosen, k);
    }
  }

  lemma BestGoesFirst(points: seq<Point>, lo: nat, hi: nat, chosen: nat, k: nat)
    requires lo <= k < hi <= |points| && chosen == Candidate(points, lo, hi)
    ensures Rather(points, chosen, k)
  {
    hide BestOf, Abs;
  }

  lemma FirstExtremesAreExact(points: seq<Point>, i: nat)
    requires points != []
    ensures FirstExtreme(points, i)
       <==> i == FirstWith(points, MinValue(points)) || i == FirstWith(points, MaxValue(points))
  {
    hide MinValue, MaxValue, FirstWith;
  }

  /** What is selected: the choice of every bucket, the first minimum and the first maximum, and nothing else. */
  lemma SelectedIsExact(points: seq<Point>, size: nat, i: nat)
    requires 0 < size <= |points|
    ensures i in Selected(points, size)
       <==> FirstExtreme(points, i) || exists b :: 0 <= b < size && ChosenOf(points, size, b, i)
  {
    hide Candidates, FirstExtreme, ChosenOf, MinValue, MaxValue, FirstWith;
    CandidatesAreChosen(points, size, size, i);
    FirstExtremesAreExact(points, i);
  }

  predicate Increasing(s: seq<nat>) {
    forall i, j :: 0 <= i < j < |s| ==> s[i] < s[j]
  }

  /** The chosen places below `n`, ascending. */
  function Ascending(chosen: set<nat>, n: nat): seq<nat> {
    if n == 0 then [] else Ascending(chosen, n - 1) + (if n - 1 in chosen then [n - 1] else [])
  }

  lemma {:induction false} AscendingIsExact(chosen: set<nat>, n: nat)
    ensures Increasing(Ascending(chosen, n))
    ensures forall i :: i in Ascending(chosen, n) <==> i in chosen && i < n
  {
    if n > 0 {
      AscendingIsExact(chosen, n - 1);
      var before := Ascending(chosen, n - 1);
      assert forall i :: 0 <= i < |before| ==> before[i] in before;
    }
  }

  lemma AscendingIsPlaces(points: seq<Point>, chosen: set<nat>)
    ensures Places(points, Ascending(chosen, |points|))
    ensures forall i :: i in Ascending(chosen, |points|) <==> i in chosen && i < |points|
  {
    hide Ascending;
    AscendingIsExact(chosen, |points|);
    var s := Ascending(chosen, |points|);
    assert forall i :: 0 <= i < |s| ==> s[i] in s;
  }

  // ----- trimming

  predicate Extreme(points: seq<Point>, i: nat)
    requires i < |points|
  {
    points[i].value == MinValue(points) || points[i].value == MaxValue(points)
  }

  predicate Places(points: seq<Point>, ordered: seq<nat>) {
    Increasing(ordered) && forall i :: 0 <= i < |ordered| ==> ordered[i] < |points|
  }

  /** The entry at `k` must not be removed: an end, a failure, or an extremum. */
  predicate Protected(points: seq<Point>, ordered: seq<nat>, k: nat)
    requires Places(points, ordered) && k < |ordered|
  {
    k == 0 || k == |ordered| - 1 || points[ordered[k]].fail || Extreme(points, ordered[k])
  }

  /** `findIndex` of the first removable entry. */
  function Removable(points: seq<Point>, ordered: seq<nat>, from: nat): (k: Option<nat>)
    requires Places(points, ordered) && from <= |ordered|
    ensures k.None? <==> forall i :: from <= i < |ordered| ==> Protected(points, ordered, i)
    ensures k.Some? ==> from <= k.value < |ordered| && !Protected(points, ordered, k.value)
    ensures k.Some? ==> forall i :: from <= i < k.value ==> Protected(points, ordered, i)
    decreases |ordered| - from
  {
    if from == |ordered| then None
    else if !Protected(points, ordered, from) then Some(from)
    else Removable(points, ordered, from + 1)
  }

  function Without(ordered: seq<nat>, k: nat): seq<nat>
    requires k < |ordered|
  {
    ordered[..k] + ordered[k + 1..]
  }

  /** What one turn of the loop removes: the first removable entry, or the second entry when there is none. */
  function Victim(points: seq<Point>, ordered: seq<nat>): (k: nat)
    requires Places(points, ordered) && |ordered| >= 2
    ensures 0 < k < |ordered|
  {
    var removable := Removable(points, ordered, 0);
    if removable.None? then 1 else removable.value
  }

  lemma WithoutIsPlaces(points: seq<Point>, ordered: seq<nat>, k: nat)
    requires Places(points, ordered) && k < |ordered|
    ensures Places(points, Without(ordered, k))
    ensures forall i :: i in Without(ordered, k) <==> i in ordered && i != ordered[k]
  {
    WithoutLength(ordered, k);
    hide Without;
    var shorter := Without(ordered, k);
    forall i | i in ordered && i != ordered[k] ensures i in shorter {
      var j :| 0 <= j < |ordered| && ordered[j] == i;
      assert if j < k then shorter[j] == i else shorter[j - 1] == i;
    }
    forall i | i in shorter ensures i in ordered && i != ordered[k] {
      var j :| 0 <= j < |shorter| && shorter[j] == i;
      assert i == ordered[if j < k then j else j + 1];
    }
  }

  function Trim(points: seq<Point>, ordered: seq<nat>, size: nat): seq<nat>
    requires Places(points, ordered) && size >= 1
    decreases |ordered|
  {
    if |ordered| <= size then ordered
    else
      WithoutIsPlaces(points, ordered, Victim(points, ordered));
      Trim(points, Without(ordered, Victim(points, ordered)), size)
  }

  /** Trimming keeps order and stops at the size. */
  lemma {:induction false} TrimFacts(points: seq<Point>, ordered: seq<nat>, size: nat)
    requires Places(points, ordered) && size >= 1
    ensures var kept := Trim(points, ordered, size);
            && Places(points, kept)
            && |kept| == (if |ordered| <= size then |ordered| else size)
            && forall i :: i in kept ==> i in ordered
    decreases |ordered|
  {
    if |ordered| > size {
      var k := Victim(points, ordered);
      WithoutIsPlaces(points, ordered, k);
      hide Victim, Places;
      TrimFacts(points, Without(ordered, k), size);
    }
  }

  function CountProtected(points: seq<Point>, ordered: seq<nat>, upTo: nat): nat
    requires Places(points, ordered) && upTo <= |ordered|
  {
    if upTo == 0 then 0
    else CountProtected(points, ordered, upTo - 1) + (if Protected(points, ordered, upTo - 1) then 1 else 0)
  }

  lemma {:induction false} CountOfAll(points: seq<Point>, ordered: seq<nat>, upTo: nat)
    requires Places(points, ordered) && upTo <= |ordered|
    ensures CountProtected(points, ordered, upTo) <= upTo
    ensures (forall k :: 0 <= k < upTo ==> Protected(points, ordered, k))
        ==> CountProtected(points, ordered, upTo) == upTo
  {
    hide Extreme, Protected, Places;
    if upTo > 0 {
      CountOfAll(points, ordered, upTo - 1);
    }
  }

  /** Removing an unprotected entry leaves the protection of the others as it was. */
  lemma ProtectionMoves(points: seq<Point>, ordered: seq<nat>, k: nat, i: nat)
    requires Places(points, ordered) && k < |ordered| && !Protected(points, ordered, k) && i < |ordered| - 1
    ensures Places(points, Without(ordered, k))
    ensures Protected(points, Without(ordered, k), i) <==> Protected(points, ordered, if i < k then i else i + 1)
  {
    hide Extreme;
    WithoutIsPlaces(points, ordered, k);
  }

  /** ... and their number. */
  lemma {:induction false} WithoutKeepsCount(points: seq<Point>, ordered: seq<nat>, k: nat, upTo: nat)
    requires Places(points, ordered) && k < |ordered| && !Protected(points, ordered, k) && upTo < |ordered|
    ensures Places(points, Without(ordered, k))
    ensures CountProtected(points, Without(ordered, k), upTo)
        == CountProtected(points, ordered, if upTo <= k then upTo else upTo + 1)
    decreases upTo
  {
    hide Extreme, Protected, Without;
    WithoutLength(ordered, k);
    WithoutIsPlaces(points, ordered, k);
    if upTo > 0 {
      WithoutKeepsCount(points, ordered, k, upTo - 1);
      ProtectionMoves(points, ordered, k, upTo - 1);
    }
  }

  lemma WithoutLength(ordered: seq<nat>, k: nat)
    requires k < |ordered|
    ensures |Without(ordered, k)| == |ordered| - 1
    ensures forall i :: 0 <= i < |ordered| - 1 ==> Without(ordered, k)[i] == ordered[if i < k then i else i + 1]
  {
  }

  lemma CountIsWhole(points: seq<Point>, ordered: seq<nat>, k: nat)
    requires Places(points, ordered) && k < |ordered| && !Protected(points, ordered, k)
    ensures Places(points, Without(ordered, k)) && |Without(ordered, k)| == |ordered| - 1
    ensures CountProtected(points, Without(ordered, k), |ordered| - 1) == CountProtected(points, ordered, |ordered|)
  {
    hide Extreme, Protected;
    EndsAreProtected(points, ordered);
    WithoutKeepsCount(points, ordered, k, |ordered| - 1);
  }

  lemma EndsAreProtected(points: seq<Point>, ordered: seq<nat>)
    requires Places(points, ordered) && ordered != []
    ensures Protected(points, ordered, 0) && Protected(points, ordered, |ordered| - 1)
  {
  }

  lemma TrimStep(points: seq<Point>, ordered: seq<nat>, size: nat)
    requires Places(points, ordered) && size >= 1 && |ordered| > size
    ensures var shorter := Without(ordered, Victim(points, ordered));
            Places(points, shorter) && Trim(points, ordered, size) == Trim(points, shorter, size)
  {
    WithoutIsPlaces(points, ordered, Victim(points, ordered));
  }

  // ----- which entries survive

  /**
   Whether the entry at `k` survives trimming to `size`. Entries that need not
   be kept go first, from the front; when only protected ones are left, those
   after the first go, from the front again.
   */
  predicate Survives(points: seq<Point>, ordered: seq<nat>, size: nat, k: nat)
    requires Places(points, ordered) && k < |ordered|
  {
    var before := CountProtected(points, ordered, k);
    if !Protected(points, ordered, k) then k - before + size >= |ordered|
    else k == 0 || before + size > CountProtected(points, ordered, |ordered|)
  }

  /** The entries that survive are those, for every list of places and every size. */
  lemma {:induction false} TrimIsExact(points: seq<Point>, ordered: seq<nat>, size: nat, k: nat)
    requires Places(points, ordered) && size >= 1 && k < |ordered|
    ensures ordered[k] in Trim(points, ordered, size) <==> Survives(points, ordered, size, k)
    decreases |ordered|
  {
    hide Extreme, Protected, Victim, Trim, Places, CountProtected;
    CountOfAll(points, ordered, |ordered|);
    CountOfAll(points, ordered, k);
    if |ordered| <= size {
      NothingTrimmed(points, ordered, size, k);
    } else {
      var v := Victim(points, ordered);
      TrimStep(points, ordered, size);
      WithoutLength(ordered, v);
      if k == v {
        VictimIsGone(points, ordered, size);
      } else {
        var i := if k < v then k else k - 1;
        TrimIsExact(points, Without(ordered, v), size, i);
        SurvivalMoves(points, ordered, size, k);
      }
    }
  }

  lemma NothingTrimmed(points: seq<Point>, ordered: seq<nat>, size: nat, k: nat)
    requires Places(points, ordered) && size >= 1 && k < |ordered| <= size
    ensures ordered[k] in Trim(points, ordered, size) && Survives(points, ordered, size, k)
  {
    hide Extreme, Protected;
    CountOfAll(points, ordered, k);
    CountGrows(points, ordered, k, |ordered|);
    CountBound(points, ordered, |ordered|);
    if k > 0 {
      FirstCounts(points, ordered, k);
    }
  }

  lemma {:induction false} CountGrows(points: seq<Point>, ordered: seq<nat>, i: nat, j: nat)
    requires Places(points, ordered) && i <= j <= |ordered|
    ensures CountProtected(points, ordered, i) <= CountProtected(points, ordered, j)
    ensures i < j && Protected(points, ordered, i)
        ==> CountProtected(points, ordered, i) < CountProtected(points, ordered, j)
    ensures i < j && !Protected(points, ordered, i)
        ==> CountProtected(points, ordered, j) - CountProtected(points, ordered, i) < j - i
    ensures CountProtected(points, ordered, j) - CountProtected(points, ordered, i) <= j - i
    decreases j
  {
    hide Protected, Places;
    if i < j {
      CountGrows(points, ordered, i, j - 1);
    }
  }

  lemma CountBound(points: seq<Point>, ordered: seq<nat>, upTo: nat)
    requires Places(points, ordered) && upTo <= |ordered|
    ensures CountProtected(points, ordered, upTo) <= upTo
  {
    CountOfAll(points, ordered, upTo);
  }

  lemma FirstCounts(points: seq<Point>, ordered: seq<nat>, upTo: nat)
    requires Places(points, ordered) && 0 < upTo <= |ordered|
    ensures CountProtected(points, ordered, upTo) >= 1
  {
    hide Places;
    EndsAreProtected(points, ordered);
    CountGrows(points, ordered, 0, upTo);
  }

  /** What a victim is: the first entry that need not be kept, or the second when all must be. */
  lemma VictimFacts(points: seq<Point>, ordered: seq<nat>)
    requires Places(points, ordered) && |ordered| >= 2
    ensures var (v, count) := (Victim(points, ordered), CountProtected(points, ordered, |ordered|));
            && 0 < v < |ordered|
            && CountProtected(points, ordered, v) == v
            && (Protected(points, ordered, v) ==> v == 1 && count == |ordered|)
            && (!Protected(points, ordered, v) ==> count < |ordered|)
            && (Protected(points, ordered, v) ==> forall k :: 0 <= k < |ordered| ==> Protected(points, ordered, k))
  {
    hide Extreme, Protected;
    var v := Victim(points, ordered);
    CountOfAll(points, ordered, v);
    CountOfAll(points, ordered, |ordered|);
    EndsAreProtected(points, ordered);
    CountGrows(points, ordered, v, |ordered|);
  }

  lemma VictimIsGone(points: seq<Point>, ordered: seq<nat>, size: nat)
    requires Places(points, ordered) && size >= 1 && |ordered| > size
    ensures var v := Victim(points, ordered);
            ordered[v] !in Trim(points, ordered, size) && !Survives(points, ordered, size, v)
  {
    hide Extreme, Protected, Victim, Trim, CountProtected;
    var v := Victim(points, ordered);
    VictimFacts(points, ordered);
    TrimStep(points, ordered, size);
    WithoutIsPlaces(points, ordered, v);
    TrimFacts(points, Without(ordered, v), size);
  }

  /** An entry that is not the victim survives exactly when it survives in the shorter list. */
  lemma SurvivalMoves(points: seq<Point>, ordered: seq<nat>, size: nat, k: nat)
    requires Places(points, ordered) && size >= 1 && |ordered| > size
    requires k < |ordered| && k != Victim(points, ordered)
    ensures var v := Victim(points, ordered);
            && Places(points, Without(ordered, v)) && |Without(ordered, v)| == |ordered| - 1
            && (Survives(points, Without(ordered, v), size, if k < v then k else k - 1)
                <==> Survives(points, ordered, size, k))
  {
    hide Extreme, Protected, Victim, CountProtected, Places, Without;
    var v := Victim(points, ordered);
    var shorter, i := Without(ordered, v), if k < v then k else k - 1;
    VictimFacts(points, ordered);
    TrimStep(points, ordered, size);
    WithoutLength(ordered, v);
    if Protected(points, ordered, v) {
      AllStayProtected(points, ordered);
      CountOfAll(points, ordered, k);
      CountOfAll(points, shorter, i);
      CountOfAll(points, shorter, |shorter|);
    } else {
      CountIsWhole(points, ordered, v);
      CountGrows(points, ordered, v, v + 1);
      WithoutKeepsCount(points, ordered, v, i);
      ProtectionMoves(points, ordered, v, i);
      VictimIsFirst(points, ordered, k);
    }
  }

  lemma AllStayProtected(points: seq<Point>, ordered: seq<nat>)
    requires Places(points, ordered) && |ordered| >= 2
    requires forall k :: 0 <= k < |ordered| ==> Protected(points, ordered, k)
    ensures Places(points, Without(ordered, 1))
    ensures forall i :: 0 <= i < |Without(ordered, 1)| ==> Protected(points, Without(ordered, 1), i)
  {
    hide Extreme;
    WithoutIsPlaces(points, ordered, 1);
    var shorter := Without(ordered, 1);
    forall i | 0 <= i < |shorter| ensures Protected(points, shorter, i) {
      assert Protected(points, ordered, if i < 1 then i else i + 1);
    }
  }

  /** Everything in front of an unprotected victim is protected. */
  lemma VictimIsFirst(points: seq<Point>, ordered: seq<nat>, k: nat)
    requires Places(points, ordered) && |ordered| >= 2 && k < |ordered| && k != Victim(points, ordered)
    requires !Protected(points, ordered, Victim(points, ordered))
    ensures k < Victim(points, ordered) ==> Protected(points, ordered, k)
  {
    hide Extreme, Protected;
  }

  /** The second protected entry is the first to go when too many are protected. */
  lemma {:induction false} SecondProtected(points: seq<Point>, ordered: seq<nat>, upTo: nat) returns (k: nat)
    requires Places(points, ordered) && upTo <= |ordered| && CountProtected(points, ordered, upTo) >= 2
    ensures 0 < k < upTo && Protected(points, ordered, k) && CountProtected(points, ordered, k) == 1
  {
    hide Protected, Places;
    if CountProtected(points, ordered, upTo - 1) >= 2 {
      k := SecondProtected(points, ordered, upTo - 1);
    } else {
      k := upTo - 1;
    }
  }

  /** The protected entries all survive. */
  ghost predicate KeepsProtected(points: seq<Point>, ordered: seq<nat>, kept: seq<nat>)
    requires Places(points, ordered)
  {
    forall k :: 0 <= k < |ordered| && Protected(points, ordered, k) ==> ordered[k] in kept
  }

  /** Ends, failures and extrema all survive trimming exactly when there are no more of them than places. */
  lemma TrimKeepsProtectedExactly(points: seq<Point>, ordered: seq<nat>, size: nat)
    requires Places(points, ordered) && size >= 1 && |ordered| > size
    ensures KeepsProtected(points, ordered, Trim(points, ordered, size))
        <==> CountProtected(points, ordered, |ordered|) <= size
  {
    hide Protected, Trim, Places, CountProtected;
    if CountProtected(points, ordered, |ordered|) <= size {
      forall k | 0 <= k < |ordered| && Protected(points, ordered, k) ensures ordered[k] in Trim(points, ordered, size) {
        TrimIsExact(points, ordered, size, k);
        if k > 0 {
          FirstCounts(points, ordered, k);
        }
      }
    } else {
      var k := SecondProtected(points, ordered, |ordered|);
      TrimIsExact(points, ordered, size, k);
    }
  }

  // ----- the whole reduction

  /** What is selected, in ascending order. */
  function Entries(points: seq<Point>, size: nat): (ordered: seq<nat>)
    requires 0 < size <= |points|
    ensures Places(points, ordered)
    ensures forall i :: i in ordered <==> i in Selected(points, size)
  {
    AscendingIsPlaces(points, Selected(points, size));
    Ascending(Selected(points, size), |points|)
  }

  /** The places kept of the finite points. */
  function Kept(points: seq<Point>, size: nat): (kept: seq<nat>)
    requires size >= 1 && |points| > size
    ensures Places(points, kept) && |kept| <= size
  {
    TrimFacts(points, Entries(points, size), size);
    Trim(points, Entries(points, size), size)
  }

  function Pick(points: seq<Point>, places: seq<nat>): seq<Point>
    requires Places(points, places)
  {
    seq(|places|, i requires 0 <= i < |places| => points[places[i]])
  }

  function Bucketed(points: seq<Point>, limit: real): seq<Point> {
    var finite, size := Finite(points), SizeOf(limit);
    if |finite| <= size then finite else Pick(finite, Kept(finite, size))
  }

  /** The reduction in terms of the points: places in ascending order, one for each of them, no more than fit. */
  lemma BucketedIsSubsequence(points: seq<Point>, limit: real) returns (places: seq<nat>)
    ensures var finite := Finite(points);
            && Places(finite, places)
            && Bucketed(points, limit) == Pick(finite, places)
            && |Bucketed(points, limit)| <= SizeOf(limit)
  {
    var finite, size := Finite(points), SizeOf(limit);
    if |finite| <= size {
      places := seq(|finite|, i => i);
      assert Pick(finite, places) == finite;
    } else {
      places := Kept(finite, size);
    }
  }

  /** The entries that must survive: ends of the selection, failures, and extrema. */
  function MustKeep(points: seq<Point>, size: nat): nat
    requires 0 < size <= |points|
  {
    CountProtected(points, Entries(points, size), |Entries(points, size)|)
  }

  predicate InBucket(i: nat, b: nat, n: nat, size: nat)
    requires size > 0
  {
    Start(b, n, size) <= i < Start(b + 1, n, size)
  }

  /** A failure or an extremum. */
  predicate Worst(points: seq<Point>, i: nat)
    requires i < |points|
  {
    points[i].fail || Extreme(points, i)
  }

  /** Every entry of the selection survives exactly when the rule says so. */
  lemma EntrySurvivesExactly(points: seq<Point>, size: nat, k: nat)
    requires 0 < size < |points| && k < |Entries(points, size)|
    ensures Entries(points, size)[k] in Kept(points, size) <==> Survives(points, Entries(points, size), size, k)
  {
    hide Trim, Survives, Ascending, Selected;
    TrimIsExact(points, Entries(points, size), size, k);
  }

  /**
   A chosen failure or extremum survives exactly when it is the first entry, or
   enough of the entries that must survive stand in front of it.
   */
  lemma WorstSurvivesExactly(points: seq<Point>, size: nat, i: nat) returns (k: nat)
    requires 0 < size < |points| && i in Selected(points, size) && Worst(points, i)
    ensures k < |Entries(points, size)| && Entries(points, size)[k] == i
    ensures i in Kept(points, size)
            <==> k == 0 || CountProtected(points, Entries(points, size), k) + size > MustKeep(points, size)
  {
    hide Extreme, Kept, CountProtected;
    var ordered := Entries(points, size);
    assert i in ordered;
    k :| 0 <= k < |ordered| && ordered[k] == i;
    EntrySurvivesExactly(points, size, k);
  }

  /**
   The failures and extrema of the selection all survive exactly when no more entries must survive than there are
   places.
   */
  lemma AllWorstSurviveExactly(points: seq<Point>, size: nat)
    requires 0 < size < |points|
    ensures (forall i :: i in Selected(points, size) && Worst(points, i) ==> i in Kept(points, size))
            <==> MustKeep(points, size) <= size
  {
    hide Extreme, Protected, Kept, CountProtected, Selected;
    var ordered := Entries(points, size);
    if MustKeep(points, size) <= size {
      forall i | i in Selected(points, size) && Worst(points, i) ensures i in Kept(points, size) {
        var k := WorstSurvivesExactly(points, size, i);
        if k > 0 {
          FirstCounts(points, ordered, k);
        }
      }
    } else {
      var i := SomeWorstIsLost(points, size);
    }
  }

  lemma SomeWorstIsLost(points: seq<Point>, size: nat) returns (i: nat)
    requires 0 < size < |points| && MustKeep(points, size) > size
    ensures i in Selected(points, size) && Worst(points, i) && i !in Kept(points, size)
  {
    hide Extreme, Kept, Selected, CountProtected, MinValue, MaxValue, FirstWith;
    var ordered := Entries(points, size);
    var count := |ordered|;
    CountOfAll(points, ordered, count);
    var k := SecondProtected(points, ordered, count);
    if !Worst(points, ordered[k]) {
      CountEnds(points, ordered, k);
      LoneExtremum(points, size);
      assert false;
    }
    i := ordered[k];
    EntrySurvivesExactly(points, size, k);
    assert i in ordered;
  }

  /** When the second protected entry is the last one, two entries are protected. */
  lemma CountEnds(points: seq<Point>, ordered: seq<nat>, k: nat)
    requires Places(points, ordered) && 0 < k < |ordered| && CountProtected(points, ordered, k) == 1
    requires Protected(points, ordered, k) && !Worst(points, ordered[k])
    ensures k == |ordered| - 1 && CountProtected(points, ordered, |ordered|) == 2
    ensures forall j :: 0 < j < |ordered| ==> !Worst(points, ordered[j])
  {
    hide Extreme;
    forall j | 0 < j < k ensures !Worst(points, ordered[j]) {
      CountGrows(points, ordered, j, k);
      FirstCounts(points, ordered, j);
    }
    assert CountProtected(points, ordered, k + 1) == 2;
  }

  /** The extrema of the series are always among the entries, so some entry after the first is one, if there is any. */
  lemma LoneExtremum(points: seq<Point>, size: nat)
    requires 0 < size < |points| && |Entries(points, size)| > 1
    ensures exists j :: 0 < j < |Entries(points, size)| && Worst(points, Entries(points, size)[j])
  {
    var ordered := Entries(points, size);
    var lo, hi := FirstWith(points, MinValue(points)), FirstWith(points, MaxValue(points));
    ExtremaAreChosen(points, size);
    hide Selected, Ascending, MinValue, MaxValue, FirstWith, Places;
    assert lo in ordered && hi in ordered;
    var a :| 0 <= a < |ordered| && ordered[a] == lo;
    var b :| 0 <= b < |ordered| && ordered[b] == hi;
    if a == 0 && b == 0 {
      AllEqual(points, ordered[1]);
      assert Worst(points, ordered[1]);
    } else {
      assert Worst(points, ordered[if a > 0 then a else b]);
    }
  }

  lemma AllEqual(points: seq<Point>, i: nat)
    requires i < |points| && FirstWith(points, MinValue(points)) == FirstWith(points, MaxValue(points))
    ensures Extreme(points, i)
  {
  }

  /** A bucket keeps a failure exactly when one of its chosen failures survives by the rule. */
  lemma BucketFailureSurvivesExactly(points: seq<Point>, size: nat, b: nat)
    requires 0 < size < |points| && b < size
    ensures (exists i :: i in Kept(points, size) && points[i].fail && InBucket(i, b, |points|, size))
            <==> exists k :: 0 <= k < |Entries(points, size)| && FailsIn(points, size, b, k)
                   && (k == 0 || CountProtected(points, Entries(points, size), k) + size > MustKeep(points, size))
  {
    hide Extreme, Kept, CountProtected, InBucket, Selected, Places;
    var ordered := Entries(points, size);
    KeptAreEntries(points, size);
    forall k | 0 <= k < |ordered| && FailsIn(points, size, b, k)
      ensures ordered[k] in Kept(points, size)
              <==> k == 0 || CountProtected(points, ordered, k) + size > MustKeep(points, size)
    {
      EntrySurvivesExactly(points, size, k);
    }
    if i :| i in Kept(points, size) && points[i].fail && InBucket(i, b, |points|, size) {
      assert i in ordered;
      var k :| 0 <= k < |ordered| && ordered[k] == i;
      assert FailsIn(points, size, b, k);
    }
  }

  predicate FailsIn(points: seq<Point>, size: nat, b: nat, k: nat)
    requires 0 < size <= |points| && k < |Entries(points, size)|
  {
    var i := Entries(points, size)[k];
    points[i].fail && InBucket(i, b, |points|, size)
  }

  lemma KeptAreEntries(points: seq<Point>, size: nat)
    requires 0 < size < |points|
    ensures forall i :: i in Kept(points, size) ==> i < |points| && i in Entries(points, size)
  {
    hide Trim, Selected;
    TrimFacts(points, Entries(points, size), size);
  }

  /** When no more entries must survive than there are places, the first global minimum and maximum stay. */
  lemma ExtremaSurvive(points: seq<Point>, size: nat)
    requires 0 < size < |points| && MustKeep(points, size) <= size
    ensures FirstWith(points, MinValue(points)) in Kept(points, size)
    ensures FirstWith(points, MaxValue(points)) in Kept(points, size)
  {
    ExtremaAreChosen(points, size);
    hide Kept, MinValue, MaxValue, FirstWith, Selected, Extreme;
    AllWorstSurviveExactly(points, size);
  }

  /** ... and every bucket with a failure keeps a failure of its own. */
  lemma BucketFailureSurvives(points: seq<Point>, size: nat, b: nat, k: nat)
    requires 0 < size < |points| && MustKeep(points, size) <= size
    requires b < size && k < |points| && InBucket(k, b, |points|, size) && points[k].fail
    ensures exists i :: i in Kept(points, size) && points[i].fail && InBucket(i, b, |points|, size)
  {
    hide Kept, Selected;
    BucketCandidateIsChosen(points, size, b);
    AllWorstSurviveExactly(points, size);
    assert Worst(points, CandidateOf(points, size, b));
  }

  /** Two places for three entries that must survive: the failure between the extrema is lost. */
  lemma FallbackDropsAFailure()
    ensures var points := [Point("", 10.0, true, false), Point("", 1.0, true, true),
                           Point("", -10.0, true, false), Point("", 0.0, true, false)];
            1 in Selected(points, 2) && forall i :: i in Kept(points, 2) ==> !points[i].fail
  {
    var points := [Point("", 10.0, true, false), Point("", 1.0, true, true),
                   Point("", -10.0, true, false), Point("", 0.0, true, false)];
    hide Selected, Kept, Entries, CountProtected, Protected;
    WitnessEntries(points);
    var ordered := Entries(points, 2);
    WitnessCounts(points, ordered);
    EntrySurvivesExactly(points, 2, 1);
    KeptAreEntries(points, 2);
  }

  lemma ExtremaAreChosen(points: seq<Point>, size: nat)
    requires 0 < size <= |points|
    ensures var lo, hi := FirstWith(points, MinValue(points)), FirstWith(points, MaxValue(points));
            lo in Selected(points, size) && hi in Selected(points, size) && Extreme(points, lo) && Extreme(points, hi)
  {
  }

  lemma BucketCandidateIsChosen(points: seq<Point>, size: nat, b: nat)
    requires 0 < size <= |points| && b < size
    ensures CandidateOf(points, size, b) in Selected(points, size)
  {
    hide CandidateOf;
    CandidateIsChosen(points, size, size, b);
  }

  lemma WitnessEntries(points: seq<Point>)
    requires points == [Point("", 10.0, true, false), Point("", 1.0, true, true),
                        Point("", -10.0, true, false), Point("", 0.0, true, false)]
    ensures Entries(points, 2) == [0, 1, 2] && 1 in Selected(points, 2)
  {
    hide BestOf, Candidate, Start, MinValue, MaxValue, FirstWith, Ascending;
    WitnessBuckets(points);
    WitnessExtrema(points);
    assert Candidates(points, 2, 1) == {1};
    assert Candidates(points, 2, 2) == {1, 2};
    assert Selected(points, 2) == {0, 1, 2};
    WitnessOrder();
  }

  lemma WitnessOrder()
    ensures Ascending({0, 1, 2}, 4) == [0, 1, 2]
  {
    var chosen := {0, 1, 2};
    assert Ascending(chosen, 1) == [0];
    assert Ascending(chosen, 2) == [0, 1];
    assert Ascending(chosen, 3) == [0, 1, 2];
  }

  lemma WitnessExtrema(points: seq<Point>)
    requires points == [Point("", 10.0, true, false), Point("", 1.0, true, true),
                        Point("", -10.0, true, false), Point("", 0.0, true, false)]
    ensures FirstWith(points, MinValue(points)) == 2 && FirstWith(points, MaxValue(points)) == 0
  {
    hide MinValue, MaxValue, FirstWith;
    assert points[2].value == -10.0 && points[0].value == 10.0;
    var i :| 0 <= i < |points| && points[i].value == MinValue(points);
    var j :| 0 <= j < |points| && points[j].value == MaxValue(points);
    assert i in {0, 1, 2, 3} && j in {0, 1, 2, 3};
  }

  lemma WitnessBuckets(points: seq<Point>)
    requires points == [Point("", 10.0, true, false), Point("", 1.0, true, true),
                        Point("", -10.0, true, false), Point("", 0.0, true, false)]
    ensures CandidateOf(points, 2, 0) == 1 && CandidateOf(points, 2, 1) == 2
  {
    assert Start(0, 4, 2) == 0 && Start(1, 4, 2) == 2 && Start(2, 4, 2) == 4;
    hide Start;
    assert points[1].fail;
    var failure, any := BestOf(points, 2, 4, true), BestOf(points, 2, 4, false);
    assert failure.None?;
    assert Abs(points[2].value) <= Abs(points[any.value].value);
  }

  lemma WitnessCounts(points: seq<Point>, ordered: seq<nat>)
    requires points == [Point("", 10.0, true, false), Point("", 1.0, true, true),
                        Point("", -10.0, true, false), Point("", 0.0, true, false)]
    requires ordered == [0, 1, 2]
    ensures Places(points, ordered) && Protected(points, ordered, 1)
    ensures CountProtected(points, ordered, 1) == 1 && CountProtected(points, ordered, 3) == 3
  {
    assert CountProtected(points, ordered, 1) == 1;
    assert CountProtected(points, ordered, 2) == 2;
  }

  // ----- the code

  function Larger(a: nat, b: nat): nat {
    if a > b then a else b
  }

  method FindCandidate(points: seq<Point>, lo: nat, hi: nat) returns (best: nat)
    requires lo < hi <= |points|
    ensures best == Candidate(points, lo, hi)
  {
    var failure: Option<nat>, any: Option<nat> := None, None;
    for i := lo to hi
      invariant failure == BestOf(points, lo, i, true) && any == BestOf(points, lo, i, false)
    {
      if points[i].fail
          && (failure.None? || Abs(points[i].value) > Abs(points[failure.value].value)) { failure := Some(i); }
      if any.None? || Abs(points[i].value) > Abs(points[any.value].value) { any := Some(i); }
    }
    best := if failure.Some? then failure.value else any.value;
  }

  /** One turn of the bucket loop. */
  method PickInBucket(finite: seq<Point>, size: nat, bucket: nat) returns (candidate: nat)
    requires 0 < size <= |finite| && bucket < size
    ensures candidate == CandidateOf(finite, size, bucket)
  {
    hide Start, Candidate;
    BucketIsNotEmpty(|finite|, size, bucket);
    var start := Start(bucket, |finite|, size);
    var end := Larger(start + 1, Start(bucket + 1, |finite|, size));
    candidate := FindCandidate(finite, start, end);
  }

  /** The loop over the buckets. */
  method SelectCandidates(finite: seq<Point>, size: nat) returns (selected: set<nat>)
    requires 0 < size <= |finite|
    ensures selected == Candidates(finite, size, size)
  {
    hide CandidateOf;
    selected := {};
    for bucket := 0 to size
      invariant selected == Candidates(finite, size, bucket)
    {
      var candidate := PickInBucket(finite, size, bucket);
      selected := selected + {candidate};
    }
  }

  /** `bucketTerminalSeries`. */
  method BucketTerminalSeries(points: seq<Point>, limit: real) returns (out: seq<Point>)
    ensures out == Bucketed(points, limit)
  {
    hide Candidates, Trim, Ascending, Pick, MinValue, MaxValue, FirstWith;
    var finite, size := Finite(points), SizeOf(limit);
    if |finite| <= size { return finite; }
    var selected := SelectCandidates(finite, size);
    selected := selected + {FirstWith(finite, MinValue(finite)), FirstWith(finite, MaxValue(finite))};
    AscendingIsPlaces(finite, selected);
    TrimFacts(finite, Ascending(selected, |finite|), size);
    var ordered := TrimTo(finite, Ascending(selected, |finite|), size);
    out := Pick(finite, ordered);
  }

  /** The trimming loop, splicing one entry out at a time. */
  method TrimTo(points: seq<Point>, entries: seq<nat>, size: nat) returns (ordered: seq<nat>)
    requires Places(points, entries) && size >= 1
    ensures ordered == Trim(points, entries, size)
  {
    ordered := entries;
    while |ordered| > size
      invariant Places(points, ordered)
      invariant Trim(points, ordered, size) == Trim(points, entries, size)
      decreases |ordered|
    {
      TrimStep(points, ordered, size);
      var removable := Removable(points, ordered, 0);
      ordered := Without(ordered, if removable.None? then 1 else removable.value);
    }
  }
}
