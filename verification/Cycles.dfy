/** The backlog's cycle check (tests/_kit/backlog.py, pruefe_keine_zyklen): a depth-first walk
    over `blocked_by` that reports a chain whenever it meets a node of its own path. */
module Cycles {
  import Sets

  type Id = string

  /** One backlog entry: its id and the ids it is blocked by. */
  datatype Entry = Entry(id: Id, blockedBy: seq<Id>)

  type Graph = map<Id, seq<Id>>

  predicate Edge(g: Graph, a: Id, b: Id) {
    a in g && b in g[a]
  }

  /** A walk: every node is blocked by the next one. */
  ghost predicate Walk(g: Graph, p: seq<Id>) {
    forall i :: 0 <= i < |p| - 1 ==> StepAt(g, p, i)
  }

  predicate StepAt(g: Graph, p: seq<Id>, i: int)
    requires 0 <= i < |p| - 1
  {
    Edge(g, p[i], p[i + 1])
  }

  /** A cycle as the check prints it: a walk that comes back to its first node. */
  ghost predicate Cycle(g: Graph, p: seq<Id>) {
    |p| >= 2 && p[0] == p[|p| - 1] && Walk(g, p)
  }

  ghost predicate Acyclic(g: Graph) {
    forall p :: !Cycle(g, p)
  }

  // ---------- the graph: a later entry with the same id replaces an earlier one ----------

  function GraphOf(entries: seq<Entry>): Graph {
    if entries == [] then map[]
    else GraphOf(entries[..|entries| - 1])[entries[|entries| - 1].id := entries[|entries| - 1].blockedBy]
  }

  method BuildGraph(entries: seq<Entry>) returns (g: Graph)
    ensures g == GraphOf(entries)
  {
    g := map[];
    for i := 0 to |entries|
      invariant g == GraphOf(entries[..i])
    {
      g := g[entries[i].id := entries[i].blockedBy];
      assert entries[..i + 1][..i] == entries[..i];
    }
    assert entries[..|entries|] == entries;
  }

  /** The i-th entry is the last with its id. */
  predicate LastWith(entries: seq<Entry>, i: nat, id: Id) {
    i < |entries| && entries[i].id == id && forall j | i < j < |entries| :: entries[j].id != id
  }

  /** One id is blocked by another exactly if the last entry of the one lists the other. */
  lemma {:induction false} EdgesExactly(entries: seq<Entry>, a: Id, b: Id)
    ensures Edge(GraphOf(entries), a, b) <==> exists i: nat :: LastWith(entries, i, a) && b in entries[i].blockedBy
    decreases |entries|
  {
    if entries != [] {
      var n := |entries| - 1;
      var front := entries[..n];
      assert forall j | 0 <= j < n :: front[j] == entries[j];
      EdgesExactly(front, a, b);
      if entries[n].id == a {
        assert LastWith(entries, n, a);
        assert forall i: nat :: LastWith(entries, i, a) ==> i == n;
      } else {
        assert forall i: nat :: LastWith(entries, i, a) <==> LastWith(front, i, a);
      }
    }
  }

  // ---------- the walk ----------

  function Targets(g: Graph): set<Id> {
    set a, b | a in g.Keys && b in g[a] :: b
  }

  /** A set of ids that holds every entry and everything an entry is blocked by. */
  ghost predicate Closed(g: Graph, nodes: set<Id>) {
    g.Keys <= nodes && forall a, b :: Edge(g, a, b) ==> b in nodes
  }

  function Successors(g: Graph, n: Id): seq<Id> {
    if n in g then g[n] else []
  }

  function IndexIn(p: seq<Id>, n: Id): (i: nat)
    requires n in p
    ensures i < |p| && p[i] == n
  {
    if p[0] == n then 0 else 1 + IndexIn(p[1..], n)
  }

  /** Every finished node carries a rank above the ranks of whatever blocks it. */
  ghost predicate Ranked(g: Graph, rank: map<Id, nat>) {
    forall a, b {:trigger Edge(g, a, b)} :: a in rank && Edge(g, a, b) ==> b in rank && rank[b] < rank[a]
  }

  ghost predicate Below(rank: map<Id, nat>, clock: nat) {
    forall a :: a in rank ==> rank[a] < clock
  }

  /** What holds whenever the walk stands at the end of `path`. */
  ghost predicate Good(g: Graph, nodes: set<Id>, seen: set<Id>, reports: set<seq<Id>>, rank: map<Id, nat>, path: seq<Id>) {
    && seen <= nodes
    && (forall n :: n in path ==> n in seen)
    && Walk(g, path)
    && (forall c :: c in reports ==> Cycle(g, c))
    && (reports == {} ==> Finished(g, seen, rank, path))
  }

  /** Without a report, the nodes seen are those of the path and those already finished. */
  ghost predicate Finished(g: Graph, seen: set<Id>, rank: map<Id, nat>, path: seq<Id>) {
    && Ranked(g, rank)
    && rank.Keys <= seen
    && (forall n :: n in seen ==> n in path || n in rank)
    && (forall n :: n in path ==> n !in rank)
  }

  lemma GoodReport(g: Graph, nodes: set<Id>, seen: set<Id>, reports: set<seq<Id>>, rank: map<Id, nat>,
                  path: seq<Id>, node: Id)
    requires Good(g, nodes, seen, reports, rank, path)
    requires node in path && Edge(g, path[|path| - 1], node)
    ensures Good(g, nodes, seen, reports + {path[IndexIn(path, node)..] + [node]}, rank, path)
  {
    ChainIsCycle(g, path, IndexIn(path, node), node);
  }

  lemma GoodEnter(g: Graph, nodes: set<Id>, seen: set<Id>, reports: set<seq<Id>>, rank: map<Id, nat>,
                  path: seq<Id>, node: Id)
    requires Good(g, nodes, seen, reports, rank, path)
    requires node in nodes && node !in seen
    requires path != [] ==> Edge(g, path[|path| - 1], node)
    ensures Good(g, nodes, seen + {node}, reports, rank, path + [node])
  {
    var p := path + [node];
    forall i | 0 <= i < |p| - 1 ensures StepAt(g, p, i) {
      if i < |path| - 1 { assert StepAt(g, path, i); }
    }
  }

  lemma GoodLeave(g: Graph, nodes: set<Id>, seen: set<Id>, reports: set<seq<Id>>, rank: map<Id, nat>,
                  path: seq<Id>, node: Id,
                  clock: nat)
    requires Good(g, nodes, seen, reports, rank, path + [node])
    requires node !in path
    requires Below(rank, clock)
    requires reports == {} ==> forall b :: Edge(g, node, b) ==> b in rank
    ensures Good(g, nodes, seen, reports, rank[node := clock], path)
  {
    var p := path + [node];
    forall i | 0 <= i < |path| - 1 ensures StepAt(g, path, i) {
      assert StepAt(g, p, i);
    }
    assert node in p;
    assert forall n :: n in path ==> n in p;
  }

  class Search {
    const graph: Graph
    ghost const nodes: set<Id>
    var seen: set<Id>
    var reports: set<seq<Id>>
    ghost var rank: map<Id, nat>
    ghost var clock: nat

    constructor (g: Graph)
      ensures graph == g && Closed(g, nodes)
      ensures seen == {} && reports == {} && rank == map[] && clock == 0
    {
      graph, nodes := g, g.Keys + Targets(g);
      seen, reports, rank, clock := {}, {}, map[], 0;
    }

    ghost predicate Valid(path: seq<Id>)
      reads this
    {
      Good(graph, nodes, seen, reports, rank, path) && Below(rank, clock)
    }

    method Visit(node: Id, path: seq<Id>)
      requires Closed(graph, nodes) && Valid(path)
      requires node in nodes
      requires path != [] ==> Edge(graph, path[|path| - 1], node)
      modifies this
      ensures Valid(path)
      ensures old(seen) + {node} <= seen && old(reports) <= reports && old(rank).Keys <= rank.Keys
      ensures reports == {} ==> node in rank
      decreases |nodes - seen|, 0
    {
      if node in path {
        GoodReport(graph, nodes, seen, reports, rank, path, node);
        reports := reports + {path[IndexIn(path, node)..] + [node]};
      } else if node !in seen {
        GoodEnter(graph, nodes, seen, reports, rank, path, node);
        SmallerMeasure(nodes, seen, seen + {node}, node);
        seen := seen + {node};
        VisitSuccessors(node, path + [node]);
        GoodLeave(graph, nodes, seen, reports, rank, path, node, clock);
        rank, clock := rank[node := clock], clock + 1;
      }
    }

    /** The loop over what blocks `node`, the last node of `path`. */
    method VisitSuccessors(node: Id, path: seq<Id>)
      requires Closed(graph, nodes) && Valid(path)
      requires path != [] && path[|path| - 1] == node
      modifies this
      ensures Valid(path)
      ensures old(seen) <= seen && old(reports) <= reports && old(rank).Keys <= rank.Keys
      ensures reports == {} ==> forall b :: Edge(graph, node, b) ==> b in rank
      decreases |nodes - seen|, 1
    {
      var next := Successors(graph, node);
      for i := 0 to |next|
        invariant Valid(path)
        invariant old(seen) <= seen && old(reports) <= reports && old(rank).Keys <= rank.Keys
        invariant reports == {} ==> forall k :: 0 <= k < i ==> next[k] in rank
      {
        assert Edge(graph, node, next[i]);
        Sets.SubsetSize(nodes - seen, nodes - old(seen));
        Visit(next[i], path);
      }
    }

    /** The outer loop: start a walk from every entry. */
    method Run()
      requires Closed(graph, nodes)
      requires seen == {} && reports == {} && rank == map[] && clock == 0
      modifies this
      ensures forall c :: c in reports ==> Cycle(graph, c)
      ensures reports == {} <==> Acyclic(graph)
    {
      var todo := graph.Keys;
      while todo != {}
        invariant Valid([])
        invariant todo <= graph.Keys
        invariant reports == {} ==> forall n :: n in graph.Keys - todo ==> n in rank
        decreases todo
      {
        var k :| k in todo;
        Visit(k, []);
        todo := todo - {k};
      }
      if reports == {} {
        RankedIsAcyclic(graph, rank);
      } else {
        var c :| c in reports;
        assert Cycle(graph, c);
      }
    }
  }

  /** pruefe_keine_zyklen on the loaded entries. */
  method CheckNoCycles(entries: seq<Entry>) returns (reports: set<seq<Id>>)
    ensures forall c :: c in reports ==> Cycle(GraphOf(entries), c)
    ensures reports == {} <==> Acyclic(GraphOf(entries))
  {
    var g := BuildGraph(entries);
    var search := new Search(g);
    search.Run();
    reports := search.reports;
  }

  // ---------- facts ----------

  lemma ChainIsCycle(g: Graph, path: seq<Id>, i: nat, node: Id)
    requires Walk(g, path) && i < |path| && path[i] == node
    requires Edge(g, path[|path| - 1], node)
    ensures Cycle(g, path[i..] + [node])
  {
    var c := path[i..] + [node];
    forall k | 0 <= k < |c| - 1 ensures StepAt(g, c, k) {
      if k < |c| - 2 {
        assert StepAt(g, path, i + k);
      }
    }
  }

  lemma SmallerMeasure(nodes: set<Id>, before: set<Id>, seen: set<Id>, node: Id)
    requires node in nodes && node !in before && before + {node} <= seen
    ensures |nodes - seen| < |nodes - before|
  {
    Sets.SubsetSize(nodes - seen, nodes - before - {node});
  }

  /** Along a walk the ranks go down. */
  lemma {:induction false} WalkDescends(g: Graph, rank: map<Id, nat>, p: seq<Id>, i: nat)
    requires Ranked(g, rank) && Walk(g, p) && 0 < i < |p|
    requires p[0] in rank
    ensures p[i] in rank && rank[p[i]] < rank[p[0]]
  {
    if i > 1 { WalkDescends(g, rank, p, i - 1); }
    assert StepAt(g, p, i - 1);
  }

  lemma RankedIsAcyclic(g: Graph, rank: map<Id, nat>)
    requires Ranked(g, rank)
    requires g.Keys <= rank.Keys
    ensures Acyclic(g)
  {
    forall p ensures !Cycle(g, p) {
      if Cycle(g, p) {
        assert StepAt(g, p, 0);
        WalkDescends(g, rank, p, |p| - 1);
      }
    }
  }
}
