/**
 The graph searches behind the loop drawings
 (dashboard/src/components/LoopGraph/ascii-layout.ts and loop-symbols.ts): the
 success path, the breadth-first distances of a fan-out, its join, and the
 branch paths that lead into the join.
 */
module LoopGraph {
  import opened Wrappers

  type Id = string

  datatype Node = Node(id: Id)

  datatype Edge = Edge(from: Id, on: string, to: Id)

  datatype Graph = Graph(entry: Option<Id>, nodes: seq<Node>, edges: seq<Edge>)

  const PREFERRED := ["complete", "measured", "pass", "target-met", "approve", "success"]

  // ----- picking the first of the best, as a stable sort followed by [0]

  type Rank = (int, int)

  predicate Before(a: Rank, b: Rank) {
    a.0 < b.0 || (a.0 == b.0 && a.1 < b.1)
  }

  /** The place of the first smallest rank. */
  function FirstBest(ranks: seq<Rank>): (best: nat)
    requires ranks != []
    ensures best < |ranks|
    ensures forall i :: 0 <= i < |ranks| ==> !Before(ranks[i], ranks[best])
    ensures forall i :: 0 <= i < best ==> Before(ranks[best], ranks[i])
  {
    if |ranks| == 1 then 0
    else
      var before := FirstBest(ranks[..|ranks| - 1]);
      if Before(ranks[|ranks| - 1], ranks[before]) then |ranks| - 1 else before
  }

  /** `preferred.indexOf(outcome)`. */
  function IndexOf(outcome: string, outcomes: seq<string>): (i: int)
    ensures -1 <= i < |outcomes|
    ensures i >= 0 ==> outcomes[i] == outcome
    ensures i == -1 <==> outcome !in outcomes
  {
    if outcomes == [] then -1
    else if outcomes[0] == outcome then 0
    else
      var rest := IndexOf(outcome, outcomes[1..]);
      if rest < 0 then -1 else rest + 1
  }

  function Outgoing(edges: seq<Edge>, id: Id): (out: seq<Edge>)
    ensures forall e :: e in out <==> e in edges && e.from == id
  {
    if edges == [] then []
    else (if edges[0].from == id then [edges[0]] else []) + Outgoing(edges[1..], id)
  }

  /** The edges that do not lead to one of the ids. */
  function Avoiding(edges: seq<Edge>, ids: set<Id>): (out: seq<Edge>)
    ensures forall e :: e in out <==> e in edges && e.to !in ids
  {
    if edges == [] then []
    else (if edges[0].to !in ids then [edges[0]] else []) + Avoiding(edges[1..], ids)
  }

  /** Every id a walk from the start can meet. */
  function Known(g: Graph, start: Id): set<Id> {
    {start} + set e | e in g.edges :: e.to
  }

  function Ids(path: seq<Id>): set<Id> {
    set id | id in path
  }

  predicate Simple(path: seq<Id>) {
    forall i, j :: 0 <= i < j < |path| ==> path[i] != path[j]
  }

  // ----- the edge a step takes: the first of the best, in the order of the graph

  /** An edge out of `from` that does not lead to one of the ids. */
  predicate Candidate(e: Edge, from: Id, ids: set<Id>) {
    e.from == from && e.to !in ids
  }

  function Candidates(edges: seq<Edge>, from: Id, ids: set<Id>): (out: seq<Edge>)
    ensures forall e :: e in out <==> e in edges && Candidate(e, from, ids)
  {
    Avoiding(Outgoing(edges, from), ids)
  }

  function RanksOf(edges: seq<Edge>, rank: Edge -> Rank): (ranks: seq<Rank>)
    ensures |ranks| == |edges| && forall i :: 0 <= i < |edges| ==> ranks[i] == rank(edges[i])
  {
    seq(|edges|, i requires 0 <= i < |edges| => rank(edges[i]))
  }

  /** No candidate ranks before the edge at `p`, and those in front of it all rank behind it. */
  ghost predicate IsFirstBest(edges: seq<Edge>, from: Id, ids: set<Id>, rank: Edge -> Rank, p: nat)
    requires p < |edges|
  {
    && Candidate(edges[p], from, ids)
    && (forall q :: 0 <= q < |edges| && Candidate(edges[q], from, ids) ==> !Before(rank(edges[q]), rank(edges[p])))
    && (forall q :: 0 <= q < p && Candidate(edges[q], from, ids) ==> Before(rank(edges[p]), rank(edges[q])))
  }

  /** The first best candidate leads to `to`. */
  ghost predicate Leads(edges: seq<Edge>, from: Id, ids: set<Id>, rank: Edge -> Rank, to: Id) {
    exists p :: 0 <= p < |edges| && IsFirstBest(edges, from, ids, rank, p) && edges[p].to == to
  }

  /** A step leads to one place. */
  lemma LeadsToOne(edges: seq<Edge>, from: Id, ids: set<Id>, rank: Edge -> Rank, to: Id, other: Id)
    requires Leads(edges, from, ids, rank, to) && Leads(edges, from, ids, rank, other)
    ensures to == other
  {
    var p :| 0 <= p < |edges| && IsFirstBest(edges, from, ids, rank, p) && edges[p].to == to;
    var q :| 0 <= q < |edges| && IsFirstBest(edges, from, ids, rank, q) && edges[q].to == other;
    assert p == q;
  }

  predicate Increasing(places: seq<nat>) {
    forall i, j :: 0 <= i < j < |places| ==> places[i] < places[j]
  }

  /** The candidates stand at these places among the edges, in this order. */
  ghost predicate StandAt(edges: seq<Edge>, from: Id, ids: set<Id>, out: seq<Edge>, places: seq<nat>) {
    && |places| == |out| && Increasing(places)
    && (forall i :: 0 <= i < |places| ==> places[i] < |edges| && edges[places[i]] == out[i])
    && (forall p :: 0 <= p < |edges| && Candidate(edges[p], from, ids) ==> p in places)
  }

  lemma {:induction false} CandidatePlaces(edges: seq<Edge>, from: Id, ids: set<Id>) returns (places: seq<nat>)
    ensures StandAt(edges, from, ids, Candidates(edges, from, ids), places)
    decreases |edges|
  {
    hide StandAt, Candidates;
    if edges == [] {
      places := [];
      NoPlaces(from, ids);
    } else {
      var rest := edges[..|edges| - 1];
      places := CandidatePlaces(rest, from, ids);
      CandidatesSnoc(rest, from, ids, edges[|edges| - 1]);
      assert edges == rest + [edges[|edges| - 1]];
      OneMorePlace(rest, from, ids, Candidates(rest, from, ids), places, edges[|edges| - 1]);
      if Candidate(edges[|edges| - 1], from, ids) {
        places := places + [|rest|];
      }
    }
  }

  lemma NoPlaces(from: Id, ids: set<Id>)
    ensures Candidates([], from, ids) == []
    ensures StandAt([], from, ids, Candidates([], from, ids), [])
  {
  }

  lemma {:induction false} CandidatesSnoc(edges: seq<Edge>, from: Id, ids: set<Id>, last: Edge)
    ensures Candidates(edges + [last], from, ids)
         == if Candidate(last, from, ids) then Candidates(edges, from, ids) + [last] else Candidates(edges, from, ids)
    decreases |edges|
  {
    hide Candidates, Candidate;
    if edges == [] {
      CandidatesCons(last, [], from, ids);
      NoPlaces(from, ids);
      assert edges + [last] == [last] + [];
    } else {
      assert (edges + [last])[1..] == edges[1..] + [last];
      CandidatesSnoc(edges[1..], from, ids, last);
      CandidatesCons(edges[0], edges[1..], from, ids);
      CandidatesCons(edges[0], edges[1..] + [last], from, ids);
      assert edges + [last] == [edges[0]] + (edges[1..] + [last]);
      assert edges == [edges[0]] + edges[1..];
    }
  }

  lemma CandidatesCons(e: Edge, edges: seq<Edge>, from: Id, ids: set<Id>)
    ensures Candidates([e] + edges, from, ids)
         == (if Candidate(e, from, ids) then [e] else []) + Candidates(edges, from, ids)
  {
    assert ([e] + edges)[1..] == edges;
    var out := Outgoing(edges, from);
    assert ([e] + out)[1..] == out;
    assert [] + out == out;
  }

  lemma OneMorePlace(edges: seq<Edge>, from: Id, ids: set<Id>, out: seq<Edge>, places: seq<nat>, last: Edge)
    requires StandAt(edges, from, ids, out, places)
    ensures Candidate(last, from, ids) ==> StandAt(edges + [last], from, ids, out + [last], places + [|edges|])
    ensures !Candidate(last, from, ids) ==> StandAt(edges + [last], from, ids, out, places)
  {
    forall p | 0 <= p < |edges| + 1 && Candidate((edges + [last])[p], from, ids)
      ensures p in places + [|edges|]
    {
      if p < |edges| {
        assert Candidate(edges[p], from, ids);
      }
    }
  }

  /** Sorting the candidates stably and taking the head takes the first best edge. */
  lemma HeadOfSortLeads(edges: seq<Edge>, from: Id, ids: set<Id>, rank: Edge -> Rank)
    requires Candidates(edges, from, ids) != []
    ensures var out := Candidates(edges, from, ids);
            Leads(edges, from, ids, rank, out[FirstBest(RanksOf(out, rank))].to)
  {
    hide Candidates, FirstBest, Before;
    var out := Candidates(edges, from, ids);
    var places := CandidatePlaces(edges, from, ids);
    var best := FirstBest(RanksOf(out, rank));
    var p := places[best];
    assert edges[p] == out[best] && out[best] in out;
    forall q | 0 <= q < |edges| && Candidate(edges[q], from, ids)
      ensures !Before(rank(edges[q]), rank(edges[p]))
      ensures q < p ==> Before(rank(edges[p]), rank(edges[q]))
    {
      var i :| 0 <= i < |places| && places[i] == q;
      assert out[i] == edges[q];
      assert RanksOf(out, rank)[i] == rank(edges[q]);
    }
    assert IsFirstBest(edges, from, ids, rank, p);
  }

  /** There is such an edge, and no candidate ranks before it. */
  lemma LeadsByBest(edges: seq<Edge>, from: Id, ids: set<Id>, rank: Edge -> Rank, to: Id) returns (e: Edge)
    requires Leads(edges, from, ids, rank, to)
    ensures e in edges && e.from == from && e.to == to && to !in ids
    ensures forall f :: f in edges && Candidate(f, from, ids) ==> !Before(rank(f), rank(e))
  {
    var p :| 0 <= p < |edges| && IsFirstBest(edges, from, ids, rank, p) && edges[p].to == to;
    e := edges[p];
  }

  lemma NothingLeads(edges: seq<Edge>, from: Id, ids: set<Id>)
    requires Candidates(edges, from, ids) == []
    ensures forall e :: e in edges && e.from == from ==> e.to in ids
  {
    forall e | e in edges && e.from == from
      ensures e.to in ids
    {
      assert e in Candidates(edges, from, ids) <==> Candidate(e, from, ids);
    }
  }

  // ----- the success path

  /** Preferred outcomes first, then by collation. */
  function Preference(collation: string -> int): Edge -> Rank {
    (e: Edge) => (var i := IndexOf(e.on, PREFERRED); (if i < 0 then |PREFERRED| else i, collation(e.on)))
  }

  /** The first of the most preferred edges to places not yet visited leads to `to`. */
  ghost predicate PreferredStep(g: Graph, collation: string -> int, visited: seq<Id>, to: Id)
    requires visited != []
  {
    Leads(g.edges, visited[|visited| - 1], Ids(visited), Preference(collation), to)
  }

  ghost predicate SuccessPath(g: Graph, collation: string -> int, path: seq<Id>) {
    && Simple(path)
    && (forall k :: 0 < k < |path| ==> PreferredStep(g, collation, path[..k], path[k]))
  }

  /** `primaryPath` and `loopPrimaryPath`. An empty id ends the path, as it ends the loop. */
  method PrimaryPath(g: Graph, collation: string -> int) returns (path: seq<Id>)
    ensures var entry := if g.entry.Some? then g.entry.value else if g.nodes != [] then g.nodes[0].id else "";
            if entry == "" then path == [] else path != [] && path[0] == entry
    ensures SuccessPath(g, collation, path)
    ensures path != [] ==>
              var last := path[|path| - 1];
              last == "" || forall e :: e in g.edges && e.from == last ==> e.to in path
  {
    hide SuccessPath, Preference, Candidates, Leads;
    var entry := if g.entry.Some? then g.entry.value else if g.nodes != [] then g.nodes[0].id else "";
    OneIsSuccessPath(g, collation, entry);
    if entry == "" { return []; }
    path := [entry];
    var seen, cursor := {entry}, entry;
    while cursor != ""
      invariant path != [] && path[0] == entry && cursor == path[|path| - 1]
      invariant SuccessPath(g, collation, path) && seen == Ids(path) && seen <= Known(g, entry)
      decreases Known(g, entry) - seen
    {
      var candidates := Candidates(g.edges, cursor, seen);
      if candidates == [] {
        NothingLeads(g.edges, cursor, seen);
        return;
      }
      var edge := candidates[FirstBest(RanksOf(candidates, Preference(collation)))];
      HeadOfSortLeads(g.edges, cursor, seen, Preference(collation));
      assert edge in candidates;
      ExtendPath(g, collation, path, edge.to);
      path := path + [edge.to];
      seen := seen + {edge.to};
      cursor := edge.to;
    }
  }

  lemma OneIsSuccessPath(g: Graph, collation: string -> int, entry: Id)
    ensures SuccessPath(g, collation, [entry]) && SuccessPath(g, collation, []) && Ids([entry]) == {entry}
  {
  }

  lemma ExtendPath(g: Graph, collation: string -> int, path: seq<Id>, to: Id)
    requires path != [] && SuccessPath(g, collation, path) && PreferredStep(g, collation, path, to)
    ensures SuccessPath(g, collation, path + [to]) && to !in path
    ensures Ids(path + [to]) == Ids(path) + {to}
  {
    hide Preference, Leads;
    var e := LeadsByBest(g.edges, path[|path| - 1], Ids(path), Preference(collation), to);
    var longer := path + [to];
    forall k | 0 < k < |longer| ensures PreferredStep(g, collation, longer[..k], longer[k]) {
      if k < |path| {
        assert longer[..k] == path[..k];
      } else {
        assert longer[..k] == path;
      }
    }
  }

  // ----- what a step of the success path means for the outcomes

  /**
   Outcome `a` is at least as welcome as `b`: it stands in the list and `b` not
   before it, or neither stands there and `b` does not come first by collation.
   */
  ghost predicate Welcome(collation: string -> int, a: string, b: string) {
    || (exists i :: 0 <= i < |PREFERRED| && a == PREFERRED[i] && b !in PREFERRED[..i])
    || (a !in PREFERRED && b !in PREFERRED && collation(a) <= collation(b))
  }

  lemma PlaceOfOutcome(outcome: string, i: nat)
    requires i < |PREFERRED| && outcome == PREFERRED[i]
    ensures IndexOf(outcome, PREFERRED) == i
  {
    assert forall j, k :: 0 <= j < k < |PREFERRED| ==> PREFERRED[j] != PREFERRED[k];
  }

  lemma PreferenceIsWelcome(collation: string -> int, e: Edge, f: Edge)
    ensures !Before(Preference(collation)(f), Preference(collation)(e)) <==> Welcome(collation, e.on, f.on)
  {
    var i, j := IndexOf(e.on, PREFERRED), IndexOf(f.on, PREFERRED);
    if i >= 0 && (j < 0 || i <= j) {
      forall k | 0 <= k < i ensures f.on != PREFERRED[k] {
        if f.on == PREFERRED[k] { PlaceOfOutcome(f.on, k); }
      }
      assert f.on !in PREFERRED[..i];
    }
    if j >= 0 {
      forall k | j < k < |PREFERRED| ensures f.on in PREFERRED[..k] { assert PREFERRED[..k][j] == f.on; }
    }
    forall k | 0 <= k < |PREFERRED| && e.on == PREFERRED[k] ensures i == k { PlaceOfOutcome(e.on, k); }
  }

  /** An edge to a place not in the path, at least as welcome as any other; among equals the first. */
  ghost predicate MostWelcome(edges: seq<Edge>, collation: string -> int, visited: seq<Id>, p: nat)
    requires visited != [] && p < |edges|
  {
    var last := visited[|visited| - 1];
    && edges[p].from == last && edges[p].to !in visited
    && forall q :: 0 <= q < |edges| && edges[q].from == last && edges[q].to !in visited ==>
         && Welcome(collation, edges[p].on, edges[q].on)
         && (q < p ==> !Welcome(collation, edges[q].on, edges[p].on))
  }

  ghost predicate MostWelcomeLeads(edges: seq<Edge>, collation: string -> int, visited: seq<Id>, to: Id)
    requires visited != []
  {
    exists p :: 0 <= p < |edges| && MostWelcome(edges, collation, visited, p) && edges[p].to == to
  }

  lemma PreferredStepIsExact(g: Graph, collation: string -> int, visited: seq<Id>, to: Id)
    requires visited != []
    ensures PreferredStep(g, collation, visited, to)
       <==> MostWelcomeLeads(g.edges, collation, visited, to)
  {
    hide Preference, Welcome, Before;
    var last, ids, rank := visited[|visited| - 1], Ids(visited), Preference(collation);
    forall p | 0 <= p < |g.edges|
      ensures IsFirstBest(g.edges, last, ids, rank, p) <==> MostWelcome(g.edges, collation, visited, p)
    {
      forall q | 0 <= q < |g.edges|
        ensures Candidate(g.edges[q], last, ids) <==> g.edges[q].from == last && g.edges[q].to !in visited
        ensures !Before(rank(g.edges[q]), rank(g.edges[p])) <==> Welcome(collation, g.edges[p].on, g.edges[q].on)
        ensures !Before(rank(g.edges[p]), rank(g.edges[q])) <==> Welcome(collation, g.edges[q].on, g.edges[p].on)
      {
        PreferenceIsWelcome(collation, g.edges[p], g.edges[q]);
        PreferenceIsWelcome(collation, g.edges[q], g.edges[p]);
      }
    }
  }

  /** The success path in terms of the outcomes on the edges: the most welcome way on, at every step. */
  lemma SuccessPathIsExact(g: Graph, collation: string -> int, path: seq<Id>)
    ensures SuccessPath(g, collation, path)
       <==> && Simple(path)
            && forall k :: 0 < k < |path| ==> MostWelcomeLeads(g.edges, collation, path[..k], path[k])
  {
    hide PreferredStep, MostWelcomeLeads;
    forall k | 0 < k < |path|
      ensures PreferredStep(g, collation, path[..k], path[k])
         <==> MostWelcomeLeads(g.edges, collation, path[..k], path[k])
    {
      PreferredStepIsExact(g, collation, path[..k], path[k]);
    }
  }

  /** Where a listed outcome leads on, the path takes an outcome listed no later. */
  lemma ListedOutcomesFirst(g: Graph, collation: string -> int, path: seq<Id>, k: nat, f: Edge, i: nat)
    requires SuccessPath(g, collation, path) && 0 < k < |path|
    requires f in g.edges && f.from == path[k - 1] && f.to !in path[..k] && i < |PREFERRED| && f.on == PREFERRED[i]
    ensures exists e, j ::
              && e in g.edges && e.from == path[k - 1] && e.to == path[k]
              && 0 <= j <= i && e.on == PREFERRED[j]
  {
    hide MostWelcomeLeads, PreferredStep;
    assert PreferredStep(g, collation, path[..k], path[k]);
    PreferredStepIsExact(g, collation, path[..k], path[k]);
    var e, j := ListedStepFirst(g.edges, collation, path[..k], path[k], f, i);
  }

  lemma ListedStepFirst(edges: seq<Edge>, collation: string -> int, visited: seq<Id>, to: Id, f: Edge, i: nat)
    returns (e: Edge, j: nat)
    requires visited != [] && MostWelcomeLeads(edges, collation, visited, to)
    requires f in edges && f.from == visited[|visited| - 1] && f.to !in visited
    requires i < |PREFERRED| && f.on == PREFERRED[i]
    ensures e in edges && e.from == visited[|visited| - 1] && e.to == to && j <= i && e.on == PREFERRED[j]
  {
    hide Welcome;
    var p :| 0 <= p < |edges| && MostWelcome(edges, collation, visited, p) && edges[p].to == to;
    var q :| 0 <= q < |edges| && edges[q] == f;
    e := edges[p];
    j := ListedFirst(collation, e.on, f.on, i);
  }

  lemma ListedFirst(collation: string -> int, a: string, b: string, i: nat) returns (j: nat)
    requires Welcome(collation, a, b) && i < |PREFERRED| && b == PREFERRED[i]
    ensures j <= i && a == PREFERRED[j]
  {
    j :| 0 <= j < |PREFERRED| && a == PREFERRED[j] && b !in PREFERRED[..j];
    assert forall l :: 0 <= l < j ==> PREFERRED[..j][l] == PREFERRED[l];
  }

  // ----- breadth-first distances that never enter the planner

  /** `v` is reached from `s` over `n` edges, none of which leads into the planner. */
  ghost predicate Reaches(g: Graph, planner: Id, s: Id, v: Id, n: nat)
    decreases n
  {
    if n == 0 then v == s
    else v != planner && exists e :: e in g.edges && e.to == v && Reaches(g, planner, s, e.from, n - 1)
  }

  /** Exactly the reachable ids, each with its shortest distance. */
  ghost predicate IsDistances(g: Graph, planner: Id, s: Id, d: map<Id, nat>) {
    && (forall v :: v in d ==> Reaches(g, planner, s, v, d[v]))
    && (forall v, n: nat :: Reaches(g, planner, s, v, n) ==> v in d && d[v] <= n)
  }

  /** What processing an id puts into the queue. */
  function Queued(out: seq<Edge>, planner: Id, depth: nat): seq<(Id, nat)> {
    if out == [] then []
    else (if out[0].to != planner then [(out[0].to, depth)] else []) + Queued(out[1..], planner, depth)
  }

  lemma {:induction false} QueuedMembers(out: seq<Edge>, planner: Id, depth: nat)
    ensures var q := Queued(out, planner, depth);
            && (forall p :: p in q ==> p.1 == depth && p.0 != planner && exists e :: e in out && e.to == p.0)
            && (forall e :: e in out && e.to != planner ==> (e.to, depth) in q)
  {
    if out != [] {
      QueuedMembers(out[1..], planner, depth);
    }
  }

  /** Breadth first: depths never fall along the queue, and span at most one level. */
  ghost predicate Layered(queue: seq<(Id, nat)>, d: map<Id, nat>) {
    && (forall i, j :: 0 <= i < j < |queue| ==> queue[i].1 <= queue[j].1 <= queue[i].1 + 1)
    && (forall v, i :: v in d && 0 <= i < |queue| ==> d[v] <= queue[i].1)
  }

  ghost predicate Sound(g: Graph, planner: Id, s: Id, queue: seq<(Id, nat)>, d: map<Id, nat>) {
    && (forall v :: v in d ==> Reaches(g, planner, s, v, d[v]))
    && (forall i :: 0 <= i < |queue| ==> Reaches(g, planner, s, queue[i].0, queue[i].1))
  }

  /** The id was processed in time, or waits in the queue. */
  predicate Handled(queue: seq<(Id, nat)>, d: map<Id, nat>, v: Id, depth: nat) {
    (v in d && d[v] <= depth) || (v, depth) in queue
  }

  ghost predicate Covered(g: Graph, planner: Id, s: Id, queue: seq<(Id, nat)>, d: map<Id, nat>) {
    && Handled(queue, d, s, 0)
    && forall e :: e in g.edges && e.from in d && e.to != planner ==> Handled(queue, d, e.to, d[e.from] + 1)
  }

  /** What the search keeps true between two turns. */
  ghost predicate Searching(g: Graph, planner: Id, s: Id, queue: seq<(Id, nat)>, d: map<Id, nat>) {
    && Layered(queue, d) && Sound(g, planner, s, queue, d) && Covered(g, planner, s, queue, d)
    && d.Keys <= Known(g, s) && (forall p :: p in queue ==> p.0 in Known(g, s))
  }

  /** `reachable`. */
  method Reachable(g: Graph, planner: Id, start: Id) returns (result: map<Id, nat>)
    ensures IsDistances(g, planner, start, result)
  {
    hide Searching, Outgoing, Queued, IsDistances;
    result := map[];
    var queue: seq<(Id, nat)> := [(start, 0)];
    SearchBegins(g, planner, start);
    while queue != []
      invariant Searching(g, planner, start, queue, result)
      decreases Known(g, start) - result.Keys, |queue|
    {
      var (id, depth) := queue[0];
      var rest := queue[1..];
      assert queue == [(id, depth)] + rest;
      HeadIsKnown(g, planner, start, rest, result, id, depth);
      if id in result {
        PopSeen(g, planner, start, rest, result, id, depth);
        queue := rest;
      } else {
        PopNew(g, planner, start, rest, result, id, depth);
        ghost var before := result;
        result := result[id := depth];
        assert id in Known(g, start) - before.Keys && id !in Known(g, start) - result.Keys;
        queue := QueueSuccessors(Outgoing(g.edges, id), planner, depth + 1, rest);
      }
    }
    SearchEnds(g, planner, start, result);
  }

  /** The loop over the outgoing edges. */
  method QueueSuccessors(out: seq<Edge>, planner: Id, depth: nat, queue: seq<(Id, nat)>)
      returns (longer: seq<(Id, nat)>)
    ensures longer == queue + Queued(out, planner, depth)
  {
    longer := queue;
    assert out[..0] == [];
    for k := 0 to |out|
      invariant longer == queue + Queued(out[..k], planner, depth)
    {
      QueuedSnoc(out[..k], out[k], planner, depth);
      assert out[..k + 1] == out[..k] + [out[k]];
      if out[k].to != planner {
        longer := longer + [(out[k].to, depth)];
      }
    }
    assert out[..|out|] == out;
  }

  lemma QueuedSnoc(out: seq<Edge>, last: Edge, planner: Id, depth: nat)
    ensures Queued(out + [last], planner, depth)
            == Queued(out, planner, depth) + (if last.to != planner then [(last.to, depth)] else [])
  {
    if out != [] {
      assert (out + [last])[1..] == out[1..] + [last];
      QueuedSnoc(out[1..], last, planner, depth);
    }
  }

  lemma SearchBegins(g: Graph, planner: Id, s: Id)
    ensures Searching(g, planner, s, [(s, 0)], map[])
  {
    assert (s, 0) in [(s, 0)];
  }

  lemma HeadIsKnown(g: Graph, planner: Id, s: Id, rest: seq<(Id, nat)>, d: map<Id, nat>, id: Id, depth: nat)
    requires Searching(g, planner, s, [(id, depth)] + rest, d)
    ensures id in Known(g, s)
  {
    assert ([(id, depth)] + rest)[0] in [(id, depth)] + rest;
  }

  lemma LayeredPop(rest: seq<(Id, nat)>, d: map<Id, nat>, id: Id, depth: nat)
    requires Layered([(id, depth)] + rest, d)
    ensures Layered(rest, d)
    ensures forall i :: 0 <= i < |rest| ==> depth <= rest[i].1 <= depth + 1
    ensures forall v :: v in d ==> d[v] <= depth
  {
    var queue := [(id, depth)] + rest;
    assert queue[0] == (id, depth);
    assert forall i :: 0 <= i < |rest| ==> rest[i] == queue[i + 1];
  }

  lemma PopSeen(g: Graph, planner: Id, s: Id, rest: seq<(Id, nat)>, d: map<Id, nat>, id: Id, depth: nat)
    requires Searching(g, planner, s, [(id, depth)] + rest, d) && id in d
    ensures Searching(g, planner, s, rest, d)
  {
    hide Sound, Layered, Covered, Known;
    LayeredPop(rest, d, id, depth);
    SoundPop(g, planner, s, rest, d, id, depth);
    PopSeenCovered(g, planner, s, rest, d, id, depth);
    assert forall p :: p in rest ==> p in [(id, depth)] + rest;
  }

  lemma SoundPop(g: Graph, planner: Id, s: Id, rest: seq<(Id, nat)>, d: map<Id, nat>, id: Id, depth: nat)
    requires Sound(g, planner, s, [(id, depth)] + rest, d)
    ensures Sound(g, planner, s, rest, d)
  {
    hide Reaches;
    var queue := [(id, depth)] + rest;
    assert forall i :: 0 <= i < |rest| ==> rest[i] == queue[i + 1];
  }

  lemma PopSeenCovered(g: Graph, planner: Id, s: Id, rest: seq<(Id, nat)>, d: map<Id, nat>, id: Id, depth: nat)
    requires Covered(g, planner, s, [(id, depth)] + rest, d) && id in d && d[id] <= depth
    ensures Covered(g, planner, s, rest, d)
  {
    var queue := [(id, depth)] + rest;
    forall v, n: nat | Handled(queue, d, v, n) ensures Handled(rest, d, v, n) {
      assert (v, n) in queue ==> (v, n) in rest || (v, n) == (id, depth);
    }
  }

  lemma PopNew(g: Graph, planner: Id, s: Id, rest: seq<(Id, nat)>, d: map<Id, nat>, id: Id, depth: nat)
    requires Searching(g, planner, s, [(id, depth)] + rest, d) && id !in d
    ensures Searching(g, planner, s, rest + Queued(Outgoing(g.edges, id), planner, depth + 1), d[id := depth])
  {
    hide Layered, Sound, Covered, Queued, Outgoing;
    var pushed, d' := Queued(Outgoing(g.edges, id), planner, depth + 1), d[id := depth];
    QueuedMembers(Outgoing(g.edges, id), planner, depth + 1);
    HeadIsKnown(g, planner, s, rest, d, id, depth);
    PopNewLayered(rest, pushed, d, id, depth);
    PopNewSound(g, planner, s, rest, pushed, d, id, depth);
    PopNewCovered(g, planner, s, rest, pushed, d, id, depth);
    forall p | p in rest + pushed ensures p.0 in Known(g, s) {
      if p in rest { assert p in [(id, depth)] + rest; }
    }
  }

  lemma PopNewLayered(rest: seq<(Id, nat)>, pushed: seq<(Id, nat)>, d: map<Id, nat>, id: Id, depth: nat)
    requires Layered([(id, depth)] + rest, d) && forall p :: p in pushed ==> p.1 == depth + 1
    ensures Layered(rest + pushed, d[id := depth])
  {
    LayeredPop(rest, d, id, depth);
    var q := rest + pushed;
    forall i | 0 <= i < |q| ensures depth <= q[i].1 <= depth + 1 && (i >= |rest| ==> q[i].1 == depth + 1) {
      if i < |rest| { assert q[i] == rest[i]; } else { assert q[i] in pushed; }
    }
    forall i, j | 0 <= i < j < |q| ensures q[i].1 <= q[j].1 {
      if j < |rest| { assert q[i] == rest[i] && q[j] == rest[j]; }
    }
  }

  lemma PopNewSound(g: Graph, planner: Id, s: Id, rest: seq<(Id, nat)>, pushed: seq<(Id, nat)>, d: map<Id, nat>,
      id: Id, depth: nat)
    requires Sound(g, planner, s, [(id, depth)] + rest, d)
    requires forall p ::
        p in pushed
        ==> p.1 == depth + 1 && p.0 != planner && exists e :: e in g.edges && e.from == id && e.to == p.0
    ensures Sound(g, planner, s, rest + pushed, d[id := depth])
  {
    var queue := [(id, depth)] + rest;
    assert queue[0] == (id, depth);
    forall i | 0 <= i < |rest + pushed| ensures Reaches(g, planner, s, (rest + pushed)[i].0, (rest + pushed)[i].1) {
      if i < |rest| {
        assert queue[i + 1] == (rest + pushed)[i];
      } else {
        var p := pushed[i - |rest|];
        assert p in pushed;
        var e :| e in g.edges && e.from == id && e.to == p.0;
        assert Reaches(g, planner, s, e.from, depth);
      }
    }
  }

  lemma PopNewCovered(g: Graph, planner: Id, s: Id, rest: seq<(Id, nat)>, pushed: seq<(Id, nat)>, d: map<Id, nat>,
      id: Id, depth: nat)
    requires Covered(g, planner, s, [(id, depth)] + rest, d) && id !in d
    requires forall e :: e in g.edges && e.from == id && e.to != planner ==> (e.to, depth + 1) in pushed
    ensures Covered(g, planner, s, rest + pushed, d[id := depth])
  {
    var queue, q, d' := [(id, depth)] + rest, rest + pushed, d[id := depth];
    forall v, n: nat | Handled(queue, d, v, n) ensures Handled(q, d', v, n) {
      assert (v, n) in queue ==> (v, n) in rest || (v, n) == (id, depth);
      assert (v, n) in rest ==> (v, n) in q;
    }
    forall e | e in g.edges && e.from in d' && e.to != planner ensures Handled(q, d', e.to, d'[e.from] + 1) {
      if e.from == id {
        assert (e.to, depth + 1) in q;
      } else {
        assert Handled(queue, d, e.to, d[e.from] + 1);
      }
    }
  }

  lemma SearchEnds(g: Graph, planner: Id, s: Id, d: map<Id, nat>)
    requires Searching(g, planner, s, [], d)
    ensures IsDistances(g, planner, s, d)
  {
    forall v, n: nat | Reaches(g, planner, s, v, n) ensures v in d && d[v] <= n {
      ShortestFound(g, planner, s, d, v, n);
    }
  }

  lemma {:induction false} ShortestFound(g: Graph, planner: Id, s: Id, d: map<Id, nat>, v: Id, n: nat)
    requires Covered(g, planner, s, [], d) && Reaches(g, planner, s, v, n)
    ensures v in d && d[v] <= n
    decreases n
  {
    if n == 0 {
      assert Handled([], d, s, 0);
    } else {
      var e :| e in g.edges && e.to == v && Reaches(g, planner, s, e.from, n - 1);
      ShortestFound(g, planner, s, d, e.from, n - 1);
      assert Handled([], d, v, d[e.from] + 1);
    }
  }

  // ----- the join

  function SumAt(maps: seq<map<Id, nat>>, v: Id): nat
    requires InAll(maps, v)
  {
    if maps == [] then 0 else maps[0][v] + SumAt(maps[1..], v)
  }

  predicate InAll(maps: seq<map<Id, nat>>, v: Id) {
    forall i :: 0 <= i < |maps| ==> v in maps[i]
  }

  /** The nodes reachable from every branch, in the graph's order. */
  function Common(nodes: seq<Node>, maps: seq<map<Id, nat>>): (common: seq<Id>)
    ensures forall v :: v in common <==> InAll(maps, v) && exists n :: n in nodes && n.id == v
  {
    if nodes == [] then []
    else (if InAll(maps, nodes[0].id) then [nodes[0].id] else []) + Common(nodes[1..], maps)
  }

  function Sums(common: seq<Id>, maps: seq<map<Id, nat>>): (ranks: seq<Rank>)
    requires forall v :: v in common ==> InAll(maps, v)
    ensures |ranks| == |common|
    ensures forall i :: 0 <= i < |common| ==> ranks[i] == (SumAt(maps, common[i]), 0)
  {
    seq(|common|, i requires 0 <= i < |common| => (SumAt(maps, common[i]), 0))
  }

  /** The first common node with the smallest sum of distances. */
  function Join(g: Graph, maps: seq<map<Id, nat>>): (join: Option<Id>)
    ensures join.None? <==> forall n :: n in g.nodes ==> !InAll(maps, n.id)
    ensures join.Some? ==>
              && InAll(maps, join.value)
              && (exists n :: n in g.nodes && n.id == join.value)
              && (forall n :: n in g.nodes && InAll(maps, n.id) ==> SumAt(maps, join.value) <= SumAt(maps, n.id))
  {
    var common := Common(g.nodes, maps);
    if common == [] then
      assert forall n :: n in g.nodes && InAll(maps, n.id) ==> n.id in common;
      None
    else
      var best := FirstBest(Sums(common, maps));
      SmallestSum(g, maps, common, best);
      Some(common[best])
  }

  lemma SmallestSum(g: Graph, maps: seq<map<Id, nat>>, common: seq<Id>, best: nat)
    requires common == Common(g.nodes, maps) && common != [] && best == FirstBest(Sums(common, maps))
    ensures common[best] in common
    ensures forall n :: n in g.nodes && InAll(maps, n.id) ==> SumAt(maps, common[best]) <= SumAt(maps, n.id)
  {
    forall n | n in g.nodes && InAll(maps, n.id) ensures SumAt(maps, common[best]) <= SumAt(maps, n.id) {
      assert n.id in common;
      var i :| 0 <= i < |common| && common[i] == n.id;
      assert !Before(Sums(common, maps)[i], Sums(common, maps)[best]);
    }
  }

  /** Every branch counts once in the sum. */
  lemma {:induction false} SumSplits(maps: seq<map<Id, nat>>, v: Id, i: nat)
    requires InAll(maps, v) && i < |maps|
    ensures SumAt(maps, v) == SumAt(maps[..i], v) + maps[i][v] + SumAt(maps[i + 1..], v)
  {
    if i > 0 {
      SumSplits(maps[1..], v, i - 1);
      assert maps[1..][..i - 1] == maps[..i][1..] && maps[1..][i..] == maps[i + 1..];
    }
  }

  /** The common node at `b` stands for the node at `p`, before which just the earlier ones are common. */
  ghost predicate StandsFor(nodes: seq<Node>, maps: seq<map<Id, nat>>, b: nat, p: nat) {
    && b < |Common(nodes, maps)| && p < |nodes| && nodes[p].id == Common(nodes, maps)[b]
    && Common(nodes[..p], maps) == Common(nodes, maps)[..b]
  }

  lemma {:induction false} CommonAt(nodes: seq<Node>, maps: seq<map<Id, nat>>, b: nat) returns (p: nat)
    requires b < |Common(nodes, maps)|
    ensures StandsFor(nodes, maps, b, p)
  {
    assert nodes != [];
    CommonSplits(nodes, maps);
    hide Common, StandsFor;
    var here := if InAll(maps, nodes[0].id) then 1 else 0;
    hide InAll;
    if b < here {
      p := 0;
      CommonFirst(nodes, maps);
    } else {
      p := CommonAt(nodes[1..], maps, b - here);
      CommonBehind(nodes, maps, b - here, p);
      p := p + 1;
    }
  }

  lemma CommonSplits(nodes: seq<Node>, maps: seq<map<Id, nat>>)
    requires nodes != []
    ensures |Common(nodes, maps)| == (if InAll(maps, nodes[0].id) then 1 else 0) + |Common(nodes[1..], maps)|
  {
  }

  lemma CommonFirst(nodes: seq<Node>, maps: seq<map<Id, nat>>)
    requires nodes != [] && InAll(maps, nodes[0].id)
    ensures StandsFor(nodes, maps, 0, 0)
  {
  }

  lemma CommonBehind(nodes: seq<Node>, maps: seq<map<Id, nat>>, b: nat, p: nat)
    requires nodes != [] && StandsFor(nodes[1..], maps, b, p)
    ensures StandsFor(nodes, maps, b + (if InAll(maps, nodes[0].id) then 1 else 0), p + 1)
  {
    hide Common, InAll;
    var here := if InAll(maps, nodes[0].id) then [nodes[0].id] else [];
    assert nodes == [nodes[0]] + nodes[1..];
    CommonCons(nodes[0], nodes[1..], maps);
    assert nodes[..p + 1] == [nodes[0]] + nodes[1..][..p];
    CommonCons(nodes[0], nodes[1..][..p], maps);
    TakeBehind(here, Common(nodes[1..], maps), b);
  }

  lemma TakeBehind(a: seq<Id>, b: seq<Id>, k: nat)
    requires k < |b|
    ensures (a + b)[..|a| + k] == a + b[..k] && (a + b)[|a| + k] == b[k]
  {
  }

  lemma NoCommon(maps: seq<map<Id, nat>>)
    ensures Common([], maps) == []
  {
  }

  lemma CommonCons(n: Node, nodes: seq<Node>, maps: seq<map<Id, nat>>)
    ensures Common([n] + nodes, maps) == (if InAll(maps, n.id) then [n.id] else []) + Common(nodes, maps)
  {
    assert ([n] + nodes)[1..] == nodes;
  }

  /** Of several nodes with the least sum the join is the first of the graph. */
  lemma JoinIsFirst(g: Graph, maps: seq<map<Id, nat>>) returns (p: nat)
    requires Join(g, maps).Some?
    ensures p < |g.nodes| && g.nodes[p].id == Join(g, maps).value
    ensures forall q :: 0 <= q < p && InAll(maps, g.nodes[q].id) ==>
              SumAt(maps, g.nodes[q].id) > SumAt(maps, g.nodes[p].id)
  {
    hide SumAt;
    var common := Common(g.nodes, maps);
    var best := FirstBest(Sums(common, maps));
    p := CommonAt(g.nodes, maps, best);
    forall q | 0 <= q < p && InAll(maps, g.nodes[q].id)
      ensures SumAt(maps, g.nodes[q].id) > SumAt(maps, g.nodes[p].id)
    {
      assert g.nodes[q] in g.nodes[..p];
      assert g.nodes[q].id in common[..best];
      var i :| 0 <= i < best && common[i] == g.nodes[q].id;
      assert Before(Sums(common, maps)[best], Sums(common, maps)[i]);
    }
  }

  // ----- the branch paths

  /** How near an id is to the first branch's start; ids it does not reach count as 999. */
  function Nearness(d: map<Id, nat>, v: Id): nat {
    if v in d then d[v] else 999
  }

  function NearnessRank(d: map<Id, nat>): Edge -> Rank {
    (e: Edge) => (Nearness(d, e.to), 0)
  }

  /** The first of the nearest edges around the planner leads to `to`. */
  ghost predicate NearestStep(g: Graph, planner: Id, d: map<Id, nat>, from: Id, to: Id) {
    Leads(g.edges, from, {planner}, NearnessRank(d), to)
  }

  /** An edge around the planner leads on, and none leads anywhere nearer. */
  lemma NearestStepIsNearest(g: Graph, planner: Id, d: map<Id, nat>, from: Id, to: Id)
    requires NearestStep(g, planner, d, from, to)
    ensures to != planner && exists e :: e in g.edges && e.from == from && e.to == to
    ensures forall f :: f in g.edges && f.from == from && f.to != planner ==> Nearness(d, to) <= Nearness(d, f.to)
  {
    var e := LeadsByBest(g.edges, from, {planner}, NearnessRank(d), to);
    forall f | f in g.edges && f.from == from && f.to != planner
      ensures Nearness(d, to) <= Nearness(d, f.to)
    {
      assert Candidate(f, from, {planner});
    }
  }

  /**
   In terms of walks: whatever walk leads from the first branch to another place
   the step could go to, one no longer leads to where it goes — or none does,
   and then the other walk has at least 999 edges.
   */
  lemma NearestStepInWalks(g: Graph, planner: Id, s: Id, d: map<Id, nat>, from: Id, to: Id, f: Edge, n: nat)
    requires IsDistances(g, planner, s, d) && NearestStep(g, planner, d, from, to)
    requires f in g.edges && f.from == from && f.to != planner && Reaches(g, planner, s, f.to, n)
    ensures || (exists m :: 0 <= m <= n && Reaches(g, planner, s, to, m))
            || (n >= 999 && forall m: nat :: !Reaches(g, planner, s, to, m))
  {
    hide NearestStep, Reaches;
    NearestStepIsNearest(g, planner, d, from, to);
    assert Nearness(d, to) <= Nearness(d, f.to) == d[f.to] <= n;
    if to in d {
      assert Reaches(g, planner, s, to, d[to]);
    }
  }

  /** Of several nearest edges the first of the graph is taken. */
  lemma NearestStepIsFirst(g: Graph, planner: Id, d: map<Id, nat>, from: Id, to: Id) returns (p: nat)
    requires NearestStep(g, planner, d, from, to)
    ensures p < |g.edges| && g.edges[p].from == from && g.edges[p].to == to
    ensures forall q :: 0 <= q < p && g.edges[q].from == from && g.edges[q].to != planner ==>
              Nearness(d, to) < Nearness(d, g.edges[q].to)
  {
    p :| 0 <= p < |g.edges| && IsFirstBest(g.edges, from, {planner}, NearnessRank(d), p) && g.edges[p].to == to;
    forall q | 0 <= q < p && g.edges[q].from == from && g.edges[q].to != planner
      ensures Nearness(d, to) < Nearness(d, g.edges[q].to)
    {
      assert Candidate(g.edges[q], from, {planner});
    }
  }

  /** A simple walk of nearest steps from the start that has not met the join yet. */
  ghost predicate BranchWalk(g: Graph, planner: Id, d: map<Id, nat>, start: Id, path: seq<Id>) {
    && path != [] && path[0] == start && Simple(path)
    && (forall k :: 0 < k < |path| ==> NearestStep(g, planner, d, path[k - 1], path[k]))
  }

  /** An accepted branch: it stops one edge short of the join. */
  ghost predicate BranchPath(g: Graph, planner: Id, d: map<Id, nat>, start: Id, join: Id, path: seq<Id>) {
    BranchWalk(g, planner, d, start, path) && join !in path && NearestStep(g, planner, d, path[|path| - 1], join)
  }

  /** Where the search gives up: there is no way on, or the nearest step leads back into the path. */
  ghost predicate BranchStuck(g: Graph, planner: Id, d: map<Id, nat>, start: Id, join: Id, path: seq<Id>) {
    && BranchWalk(g, planner, d, start, path) && join !in path
    && (|| (forall e :: e in g.edges && e.from == path[|path| - 1] ==> e.to == planner)
        || exists back :: back in path && NearestStep(g, planner, d, path[|path| - 1], back))
  }

  /** One branch of `branchPaths`; empty when the branch is refused or starts at the join. */
  method FindBranch(g: Graph, planner: Id, d: map<Id, nat>, start: Id, join: Id) returns (branch: seq<Id>)
    ensures branch != [] ==> BranchPath(g, planner, d, start, join, branch)
    ensures branch == [] ==> NoBranch(g, planner, d, start, join)
  {
    hide Leads, NearnessRank, Candidates;
    var path := [start];
    while path[|path| - 1] != join
      invariant BranchWalk(g, planner, d, start, path) && join !in path[..|path| - 1]
      invariant Ids(path) <= Known(g, start)
      decreases Known(g, start) - Ids(path)
    {
      var last := path[|path| - 1];
      var candidates := Candidates(g.edges, last, {planner});
      if candidates == [] {
        NothingLeads(g.edges, last, {planner});
        assert BranchStuck(g, planner, d, start, join, path);
        return [];
      }
      var next := candidates[FirstBest(RanksOf(candidates, NearnessRank(d)))];
      HeadOfSortLeads(g.edges, last, {planner}, NearnessRank(d));
      if next.to in path {
        assert BranchStuck(g, planner, d, start, join, path);
        return [];
      }
      ExtendBranch(g, planner, d, start, path, next.to);
      path := path + [next.to];
    }
    branch := path[..|path| - 1];
    if branch != [] {
      BranchWithoutJoin(g, planner, d, start, path);
    }
  }

  lemma ExtendBranch(g: Graph, planner: Id, d: map<Id, nat>, start: Id, path: seq<Id>, to: Id)
    requires BranchWalk(g, planner, d, start, path) && to !in path && NearestStep(g, planner, d, path[|path| - 1], to)
    ensures BranchWalk(g, planner, d, start, path + [to]) && Ids(path + [to]) == Ids(path) + {to} && to !in Ids(path)
    ensures to in Known(g, start)
  {
    hide Leads;
    NearestStepIsNearest(g, planner, d, path[|path| - 1], to);
  }

  lemma BranchWithoutJoin(g: Graph, planner: Id, d: map<Id, nat>, start: Id, path: seq<Id>)
    requires BranchWalk(g, planner, d, start, path) && |path| > 1
    ensures var branch := path[..|path| - 1];
            && BranchWalk(g, planner, d, start, branch)
            && NearestStep(g, planner, d, branch[|branch| - 1], path[|path| - 1])
  {
    hide NearestStep;
  }

  // ----- the fan-out as a whole

  datatype Fanout = Fanout(join: Id, branches: seq<seq<Id>>)

  /** The distance maps of all branches. */
  ghost predicate AllDistances(g: Graph, planner: Id, starts: seq<Id>, maps: seq<map<Id, nat>>) {
    |maps| == |starts| && forall i :: 0 <= i < |starts| ==> IsDistances(g, planner, starts[i], maps[i])
  }

  function Starts(branchEdges: seq<Edge>): seq<Id> {
    seq(|branchEdges|, i requires 0 <= i < |branchEdges| => branchEdges[i].to)
  }

  ghost predicate Reached(g: Graph, planner: Id, s: Id, v: Id) {
    exists n: nat :: Reaches(g, planner, s, v, n)
  }

  ghost predicate ReachedByAll(g: Graph, planner: Id, starts: seq<Id>, v: Id) {
    forall i :: 0 <= i < |starts| ==> Reached(g, planner, starts[i], v)
  }

  lemma DistancesAreReached(g: Graph, planner: Id, s: Id, d: map<Id, nat>, v: Id)
    requires IsDistances(g, planner, s, d)
    ensures v in d <==> Reached(g, planner, s, v)
  {
    hide Reaches;
    if v in d { assert Reaches(g, planner, s, v, d[v]); }
  }

  /** A common node of the maps is a node every branch reaches. */
  lemma InAllIsReachedByAll(g: Graph, planner: Id, starts: seq<Id>, maps: seq<map<Id, nat>>, v: Id)
    requires AllDistances(g, planner, starts, maps)
    ensures InAll(maps, v) <==> ReachedByAll(g, planner, starts, v)
  {
    hide Reached, IsDistances;
    forall i | 0 <= i < |starts| ensures v in maps[i] <==> Reached(g, planner, starts[i], v) {
      DistancesAreReached(g, planner, starts[i], maps[i], v);
    }
  }

  /** The distances are determined by the graph: two maps that both qualify are equal. */
  lemma DistancesAreUnique(g: Graph, planner: Id, s: Id, c: map<Id, nat>, d: map<Id, nat>)
    requires IsDistances(g, planner, s, c) && IsDistances(g, planner, s, d)
    ensures c == d
  {
    hide Reaches;
    forall v ensures (v in c <==> v in d) && (v in c ==> c[v] == d[v]) {
      if v in c { assert Reaches(g, planner, s, v, c[v]); }
      if v in d { assert Reaches(g, planner, s, v, d[v]); }
    }
  }

  /**
   The searches of `fanoutLayout`, once the planner has enough branches that fit
   the width: a join nearest to all branches with a path into it from each, or
   nothing.
   */
  method FindFanout(g: Graph, planner: Id) returns (fanout: Option<Fanout>)
    requires Outgoing(g.edges, planner) != []
    ensures fanout.Some? ==> GoodFanout(g, planner, Starts(Outgoing(g.edges, planner)), fanout.value)
    ensures fanout.None? ==> NoFanout(g, planner, Starts(Outgoing(g.edges, planner)))
  {
    hide IsDistances, BranchPath, BranchStuck, Outgoing, Join, Starts;
    var starts := Starts(Outgoing(g.edges, planner));
    StartsLength(Outgoing(g.edges, planner));
    var maps := AllMaps(g, planner, starts);
    assert maps != [];
    var join := Join(g, maps);
    if join.None? { return None; }
    var branches := FindBranches(g, planner, maps[0], starts, join.value);
    fanout := if branches.None? then None else Some(Fanout(join.value, branches.value));
  }

  lemma StartsLength(branchEdges: seq<Edge>)
    ensures |Starts(branchEdges)| == |branchEdges|
  {
  }

  /** The branch paths, or nothing when one of them is empty. */
  method FindBranches(g: Graph, planner: Id, d: map<Id, nat>, starts: seq<Id>, join: Id)
      returns (branches: Option<seq<seq<Id>>>)
    ensures branches.Some? ==> Branches(g, planner, d, starts, join, branches.value)
    ensures branches.None? ==> SomeNoBranch(g, planner, d, starts, join)
  {
    hide BranchPath, BranchStuck;
    var found: seq<seq<Id>> := [];
    for i := 0 to |starts|
      invariant |found| == i
      invariant forall k :: 0 <= k < i ==> BranchPath(g, planner, d, starts[k], join, found[k])
    {
      var branch := FindBranch(g, planner, d, starts[i], join);
      if branch == [] { return None; }
      found := found + [branch];
    }
    return Some(found);
  }

  method AllMaps(g: Graph, planner: Id, starts: seq<Id>) returns (maps: seq<map<Id, nat>>)
    ensures AllDistances(g, planner, starts, maps)
  {
    hide IsDistances;
    maps := [];
    for i := 0 to |starts|
      invariant |maps| == i
      invariant forall k :: 0 <= k < i ==> IsDistances(g, planner, starts[k], maps[k])
    {
      var d := Reachable(g, planner, starts[i]);
      maps := maps + [d];
    }
  }

  /** The nearest join, and a path into it from every branch. */
  ghost predicate GoodFanout(g: Graph, planner: Id, starts: seq<Id>, fanout: Fanout)
    requires starts != []
  {
    exists maps :: AllDistances(g, planner, starts, maps)
      && Join(g, maps) == Some(fanout.join) && Branches(g, planner, maps[0], starts, fanout.join, fanout.branches)
  }

  ghost predicate Branches(g: Graph, planner: Id, d: map<Id, nat>, starts: seq<Id>, join: Id, branches: seq<seq<Id>>) {
    && |branches| == |starts|
    && forall i :: 0 <= i < |starts| ==> BranchPath(g, planner, d, starts[i], join, branches[i])
  }

  /** There is no join, or some branch starts at it or gets stuck before it. */
  ghost predicate NoFanout(g: Graph, planner: Id, starts: seq<Id>)
    requires starts != []
  {
    exists maps :: AllDistances(g, planner, starts, maps)
      && (Join(g, maps).None? || SomeNoBranch(g, planner, maps[0], starts, Join(g, maps).value))
  }

  ghost predicate SomeNoBranch(g: Graph, planner: Id, d: map<Id, nat>, starts: seq<Id>, join: Id) {
    exists i :: 0 <= i < |starts| && NoBranch(g, planner, d, starts[i], join)
  }

  ghost predicate NoBranch(g: Graph, planner: Id, d: map<Id, nat>, start: Id, join: Id) {
    start == join || exists path :: BranchStuck(g, planner, d, start, join, path)
  }

  lemma {:induction false} WalksAgree(g: Graph, planner: Id, d: map<Id, nat>, start: Id, p: seq<Id>, q: seq<Id>, k: nat)
    requires BranchWalk(g, planner, d, start, p) && BranchWalk(g, planner, d, start, q) && k < |p| && k < |q|
    ensures p[k] == q[k]
  {
    hide Leads;
    if k > 0 {
      WalksAgree(g, planner, d, start, p, q, k - 1);
      LeadsToOne(g.edges, p[k - 1], {planner}, NearnessRank(d), p[k], q[k]);
    }
  }

  /** A branch ends where the walk is one step from the join: no other walk does. */
  lemma BranchIsUnique(g: Graph, planner: Id, d: map<Id, nat>, start: Id, join: Id, p: seq<Id>, q: seq<Id>)
    requires BranchPath(g, planner, d, start, join, p) && BranchPath(g, planner, d, start, join, q)
    ensures p == q
  {
    hide Leads;
    BranchIsNoLonger(g, planner, d, start, join, p, q);
    BranchIsNoLonger(g, planner, d, start, join, q, p);
    forall k | 0 <= k < |p| ensures p[k] == q[k] {
      WalksAgree(g, planner, d, start, p, q, k);
    }
  }

  lemma BranchIsNoLonger(g: Graph, planner: Id, d: map<Id, nat>, start: Id, join: Id, p: seq<Id>, q: seq<Id>)
    requires BranchPath(g, planner, d, start, join, p) && BranchWalk(g, planner, d, start, q) && join !in q
    ensures |q| <= |p|
  {
    hide Leads;
    if |q| > |p| {
      WalksAgree(g, planner, d, start, p, q, |p| - 1);
      LeadsToOne(g.edges, p[|p| - 1], {planner}, NearnessRank(d), join, q[|p|]);
      assert false;
    }
  }

  /** Where there is a branch the search is not refused. */
  lemma BranchIsNotStuck(g: Graph, planner: Id, d: map<Id, nat>, start: Id, join: Id, p: seq<Id>)
    requires BranchPath(g, planner, d, start, join, p)
    ensures !NoBranch(g, planner, d, start, join)
  {
    hide Leads;
    forall q ensures !BranchStuck(g, planner, d, start, join, q) {
      if BranchStuck(g, planner, d, start, join, q) {
        BranchIsNoLonger(g, planner, d, start, join, p, q);
        var last := |q| - 1;
        WalksAgree(g, planner, d, start, p, q, last);
        var next := if |q| < |p| then p[|q|] else join;
        NearestStepIsNearest(g, planner, d, q[last], next);
        var back :| back in q && NearestStep(g, planner, d, q[last], back);
        LeadsToOne(g.edges, q[last], {planner}, NearnessRank(d), next, back);
        var k :| 0 <= k < |q| && q[k] == back;
        WalksAgree(g, planner, d, start, p, q, k);
        assert false;
      }
    }
  }

  /** What the searches find is determined by the graph: never two fan-outs, never one and none. */
  lemma FanoutIsDetermined(g: Graph, planner: Id, starts: seq<Id>, fanout: Fanout)
    requires starts != [] && GoodFanout(g, planner, starts, fanout)
    ensures !NoFanout(g, planner, starts)
    ensures forall other :: GoodFanout(g, planner, starts, other) ==> other == fanout
  {
    hide BranchPath, NoBranch, IsDistances, Join;
    var maps :| AllDistances(g, planner, starts, maps)
      && Join(g, maps) == Some(fanout.join) && Branches(g, planner, maps[0], starts, fanout.join, fanout.branches);
    forall others | AllDistances(g, planner, starts, others) ensures others == maps {
      forall i | 0 <= i < |starts| ensures others[i] == maps[i] {
        DistancesAreUnique(g, planner, starts[i], others[i], maps[i]);
      }
    }
    forall i | 0 <= i < |starts| ensures !NoBranch(g, planner, maps[0], starts[i], fanout.join) {
      BranchIsNotStuck(g, planner, maps[0], starts[i], fanout.join, fanout.branches[i]);
    }
    forall other | GoodFanout(g, planner, starts, other) ensures other == fanout {
      assert Branches(g, planner, maps[0], starts, fanout.join, other.branches);
      forall i | 0 <= i < |starts| ensures other.branches[i] == fanout.branches[i] {
        BranchIsUnique(g, planner, maps[0], starts[i], fanout.join, fanout.branches[i], other.branches[i]);
      }
    }
  }

  /** What the join of a fan-out is, in terms of walks alone. */
  lemma JoinIsReachedByAll(g: Graph, planner: Id, starts: seq<Id>, maps: seq<map<Id, nat>>)
    requires AllDistances(g, planner, starts, maps)
    ensures Join(g, maps).None? <==> forall n :: n in g.nodes ==> !ReachedByAll(g, planner, starts, n.id)
    ensures Join(g, maps).Some? ==>
              var join := Join(g, maps).value;
              && ReachedByAll(g, planner, starts, join)
              && forall n :: n in g.nodes && ReachedByAll(g, planner, starts, n.id) ==>
                   InAll(maps, n.id) && SumAt(maps, join) <= SumAt(maps, n.id)
  {
    hide Reached, IsDistances, Common, FirstBest, ReachedByAll;
    forall v ensures InAll(maps, v) <==> ReachedByAll(g, planner, starts, v) {
      InAllIsReachedByAll(g, planner, starts, maps, v);
    }
  }

  /**
   A retry edge defeats the fan-out: distances are those of the first branch, so
   a step back to its first node always counts as nearest, and an accepted first
   branch holds no node with an edge back to its start.
   */
  lemma NoRetryEdgeInFirstBranch(g: Graph, planner: Id, d: map<Id, nat>, start: Id, join: Id, branch: seq<Id>)
    requires IsDistances(g, planner, start, d) && start != planner
    requires BranchPath(g, planner, d, start, join, branch)
    ensures forall e :: e in g.edges && e.to == start ==> e.from !in branch
  {
    hide IsDistances, Leads, Nearness;
    forall e, k | e in g.edges && e.to == start && 0 <= k < |branch| ensures e.from != branch[k] {
      var next := if k + 1 < |branch| then branch[k + 1] else join;
      assert next != branch[0] && NearestStep(g, planner, d, branch[k], next);
      NearestStepIsNearest(g, planner, d, branch[k], next);
      OnlyStartIsNear(g, planner, d, start, next);
    }
  }

  /** The start, and only the start, is at distance 0. */
  lemma OnlyStartIsNear(g: Graph, planner: Id, d: map<Id, nat>, start: Id, v: Id)
    requires IsDistances(g, planner, start, d)
    ensures Nearness(d, start) == 0
    ensures v != start ==> Nearness(d, v) > 0
  {
    assert Reaches(g, planner, start, start, 0);
    assert v in d ==> Reaches(g, planner, start, v, d[v]);
  }

  // ----- the tail below the join

  /** A path on from the join: never back, never to the planner, each step the best by outcome. */
  ghost predicate TailPath(g: Graph, planner: Id, join: Id, tail: seq<Id>) {
    && tail != [] && tail[0] == join && Simple(tail)
    && (forall k :: 0 < k < |tail| ==> TailStep(g, planner, tail[..k], tail[k]))
  }

  /** `tail`: on from the join, never back, most preferred outcome last in the list first. */
  method FindTail(g: Graph, planner: Id, join: Id) returns (tail: seq<Id>)
    ensures TailPath(g, planner, join, tail)
    ensures forall e :: e in g.edges && e.from == tail[|tail| - 1] ==> e.to in tail || e.to == planner
  {
    hide TailStep, Candidates, LateRank, Leads;
    tail := [join];
    while true
      invariant TailPath(g, planner, join, tail) && Ids(tail) <= Known(g, join)
      decreases Known(g, join) - Ids(tail)
    {
      var last, ids := tail[|tail| - 1], Ids(tail) + {planner};
      var candidates := Candidates(g.edges, last, ids);
      if candidates == [] {
        NothingLeads(g.edges, last, ids);
        return;
      }
      var next := candidates[FirstBest(RanksOf(candidates, LateRank()))];
      HeadOfSortLeads(g.edges, last, ids, LateRank());
      assert next in candidates;
      ExtendTail(g, planner, join, tail, next.to);
      tail := tail + [next.to];
    }
  }

  lemma ExtendTail(g: Graph, planner: Id, join: Id, tail: seq<Id>, to: Id)
    requires TailPath(g, planner, join, tail) && to !in tail
    requires Leads(g.edges, tail[|tail| - 1], Ids(tail) + {planner}, LateRank(), to)
    ensures TailPath(g, planner, join, tail + [to]) && Ids(tail + [to]) == Ids(tail) + {to} && to !in Ids(tail)
  {
    hide Leads;
    var longer := tail + [to];
    forall k | 0 < k < |longer|
      ensures TailStep(g, planner, longer[..k], longer[k])
    {
      if k < |tail| {
        assert longer[..k] == tail[..k];
      } else {
        assert longer[..k] == tail;
      }
    }
  }

  /** Descending by place in the list of preferred outcomes; the others come last. */
  function LateRank(): Edge -> Rank {
    (e: Edge) => (-IndexOf(e.on, PREFERRED), 0)
  }

  ghost predicate TailStep(g: Graph, planner: Id, visited: seq<Id>, to: Id)
    requires visited != []
  {
    Leads(g.edges, visited[|visited| - 1], Ids(visited) + {planner}, LateRank(), to)
  }

  /** Outcome `a` is at least as late as `b`: `b` is not in the list, or not after `a` there. */
  ghost predicate Late(a: string, b: string) {
    || b !in PREFERRED
    || exists i :: 0 <= i < |PREFERRED| && a == PREFERRED[i] && b !in PREFERRED[i + 1..]
  }

  lemma LateRankIsLate(e: Edge, f: Edge)
    ensures !Before(LateRank()(f), LateRank()(e)) <==> Late(e.on, f.on)
  {
    var i, j := IndexOf(e.on, PREFERRED), IndexOf(f.on, PREFERRED);
    if j >= 0 && i >= j {
      forall k | i < k < |PREFERRED| ensures f.on != PREFERRED[k] {
        if f.on == PREFERRED[k] { PlaceOfOutcome(f.on, k); }
      }
      assert f.on !in PREFERRED[i + 1..];
    }
    if j >= 0 {
      forall k | 0 <= k < j && e.on == PREFERRED[k] ensures f.on in PREFERRED[k + 1..] {
        assert PREFERRED[k + 1..][j - k - 1] == f.on;
      }
    }
    forall k | 0 <= k < |PREFERRED| && e.on == PREFERRED[k] ensures i == k { PlaceOfOutcome(e.on, k); }
  }

  /** An edge to a place neither in the path nor the planner, with the latest outcome; among equals the first. */
  ghost predicate Latest(edges: seq<Edge>, planner: Id, visited: seq<Id>, p: nat)
    requires visited != [] && p < |edges|
  {
    var last := visited[|visited| - 1];
    && edges[p].from == last && edges[p].to !in visited && edges[p].to != planner
    && forall q :: 0 <= q < |edges| && edges[q].from == last && edges[q].to !in visited && edges[q].to != planner ==>
         && Late(edges[p].on, edges[q].on)
         && (q < p ==> !Late(edges[q].on, edges[p].on))
  }

  ghost predicate LatestLeads(edges: seq<Edge>, planner: Id, visited: seq<Id>, to: Id)
    requires visited != []
  {
    exists p :: 0 <= p < |edges| && Latest(edges, planner, visited, p) && edges[p].to == to
  }

  lemma TailStepIsExact(g: Graph, planner: Id, visited: seq<Id>, to: Id)
    requires visited != []
    ensures TailStep(g, planner, visited, to) <==> LatestLeads(g.edges, planner, visited, to)
  {
    hide LateRank, Late, Before;
    var last, ids, rank := visited[|visited| - 1], Ids(visited) + {planner}, LateRank();
    forall p | 0 <= p < |g.edges|
      ensures IsFirstBest(g.edges, last, ids, rank, p) <==> Latest(g.edges, planner, visited, p)
    {
      forall q | 0 <= q < |g.edges|
        ensures Candidate(g.edges[q], last, ids)
           <==> g.edges[q].from == last && g.edges[q].to !in visited && g.edges[q].to != planner
        ensures !Before(rank(g.edges[q]), rank(g.edges[p])) <==> Late(g.edges[p].on, g.edges[q].on)
        ensures !Before(rank(g.edges[p]), rank(g.edges[q])) <==> Late(g.edges[q].on, g.edges[p].on)
      {
        LateRankIsLate(g.edges[p], g.edges[q]);
        LateRankIsLate(g.edges[q], g.edges[p]);
      }
    }
  }

  /** The tail in terms of the outcomes on the edges. */
  lemma TailPathIsExact(g: Graph, planner: Id, join: Id, tail: seq<Id>)
    ensures TailPath(g, planner, join, tail)
       <==> && tail != [] && tail[0] == join && Simple(tail)
            && forall k :: 0 < k < |tail| ==> LatestLeads(g.edges, planner, tail[..k], tail[k])
  {
    hide TailStep, LatestLeads;
    forall k | 0 < k < |tail|
      ensures TailStep(g, planner, tail[..k], tail[k]) <==> LatestLeads(g.edges, planner, tail[..k], tail[k])
    {
      TailStepIsExact(g, planner, tail[..k], tail[k]);
    }
  }

  /**
   The two readings of the one list: of two ways out whose outcomes are listed,
   the success path takes the earlier outcome and the tail the later one.
   */
  lemma TailTurnsTheListAround(collation: string -> int, i: nat, j: nat)
    requires i < j < 6
    ensures var outcomes := ["complete", "measured", "pass", "target-met", "approve", "success"];
            var g := Graph(Some("a"), [], [Edge("a", outcomes[j], "late"), Edge("a", outcomes[i], "early")]);
            SuccessPath(g, collation, ["a", "early"]) && TailPath(g, "p", "a", ["a", "late"])
  {
    hide SuccessPath, TailPath, Welcome, Late;
    var outcomes := PREFERRED;
    var g := Graph(Some("a"), [], [Edge("a", outcomes[j], "late"), Edge("a", outcomes[i], "early")]);
    OutcomesInOrder(collation, i, j);
    assert ["a", "early"][..1] == ["a"] && ["a", "late"][..1] == ["a"];
    assert MostWelcome(g.edges, collation, ["a"], 1);
    assert Latest(g.edges, "p", ["a"], 0);
    assert MostWelcomeLeads(g.edges, collation, ["a"], "early") && LatestLeads(g.edges, "p", ["a"], "late");
    SuccessPathIsExact(g, collation, ["a", "early"]);
    TailPathIsExact(g, "p", "a", ["a", "late"]);
  }

  lemma OutcomesInOrder(collation: string -> int, i: nat, j: nat)
    requires i < j < |PREFERRED|
    ensures Welcome(collation, PREFERRED[i], PREFERRED[j]) && !Welcome(collation, PREFERRED[j], PREFERRED[i])
    ensures Late(PREFERRED[j], PREFERRED[i]) && !Late(PREFERRED[i], PREFERRED[j])
    ensures forall k :: 0 <= k < |PREFERRED| ==>
              Welcome(collation, PREFERRED[k], PREFERRED[k]) && Late(PREFERRED[k], PREFERRED[k])
  {
    forall k, l | 0 <= k < |PREFERRED| && 0 <= l < |PREFERRED|
      ensures Welcome(collation, PREFERRED[k], PREFERRED[l]) <==> k <= l
      ensures Late(PREFERRED[k], PREFERRED[l]) <==> k >= l
    {
      PlaceOfOutcome(PREFERRED[k], k);
      PlaceOfOutcome(PREFERRED[l], l);
      PreferenceIsWelcome(collation, Edge("", PREFERRED[k], ""), Edge("", PREFERRED[l], ""));
      LateRankIsLate(Edge("", PREFERRED[k], ""), Edge("", PREFERRED[l], ""));
    }
  }
}
