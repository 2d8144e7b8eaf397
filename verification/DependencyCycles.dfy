/**
 Depth-first search for dependency cycles between VMs (`detect_dependency_cycles`).
 */
module DependencyCycles {

  /** `dependsOn` of every configured VM; names that are no VM may occur and are skipped. */
  type Graph = map<string, seq<string>>

  // ----- reference notions -----

  predicate Edge(g: Graph, u: string, v: string) { u in g && v in g && v in g[u] }

  predicate Linked(g: Graph, path: seq<string>, i: nat)
    requires i + 1 < |path|
  {
    Edge(g, path[i], path[i + 1])
  }

  /** Consecutive VMs depend on each other. */
  predicate IsPath(g: Graph, path: seq<string>) {
    forall i :: 0 <= i < |path| - 1 ==> Linked(g, path, i)
  }

  /** A dependency chain that comes back to its start and repeats no VM before. */
  predicate IsCycle(g: Graph, c: seq<string>) {
    |c| >= 2 && c[0] == c[|c| - 1] && IsPath(g, c) && Distinct(c[..|c| - 1])
  }

  predicate Distinct(s: seq<string>) { forall i, j :: 0 <= i < j < |s| ==> s[i] != s[j] }

  ghost predicate HasCycle(g: Graph) { exists c :: |c| >= 2 && c[0] == c[|c| - 1] && IsPath(g, c) }

  /** Every dependency stands before its dependents. */
  ghost predicate TopologicalOrder(g: Graph, order: seq<string>) {
    && Distinct(order) && (forall u :: u in order <==> u in g)
    && forall j, v :: 0 <= j < |order| && Edge(g, order[j], v) ==> v in order[..j]
  }

  // ----- what a report covers -----

  /** The edge by which a reported cycle comes back to its start. */
  predicate Closes(issue: seq<string>, u: string, v: string) {
    |issue| >= 2 && issue[|issue| - 2] == u && issue[|issue| - 1] == v
  }

  predicate ReportedEdge(issues: seq<seq<string>>, u: string, v: string) {
    exists i :: 0 <= i < |issues| && Closes(issues[i], u, v)
  }

  lemma ReportedStays(issues: seq<seq<string>>, longer: seq<seq<string>>, u: string, v: string)
    requires issues <= longer && ReportedEdge(issues, u, v)
    ensures ReportedEdge(longer, u, v)
  {
    var i :| 0 <= i < |issues| && Closes(issues[i], u, v);
    assert Closes(longer[i], u, v);
  }

  /** Every dependency stands before its dependents, but for the edges that close reported cycles. */
  ghost predicate OrderBut(g: Graph, order: seq<string>, issues: seq<seq<string>>) {
    && Distinct(order) && (forall u :: u in order <==> u in g)
    && forall j, v :: 0 <= j < |order| && Edge(g, order[j], v) ==> Ordered(order, j, v, issues)
  }

  predicate Ordered(order: seq<string>, j: int, v: string, issues: seq<seq<string>>) {
    0 <= j < |order| && (v in order[..j] || ReportedEdge(issues, order[j], v))
  }

  /** Two consecutive VMs of a path whose edge no reported cycle closes. */
  predicate Unreported(issues: seq<seq<string>>, path: seq<string>, i: int) {
    0 <= i < |path| - 1 ==> !ReportedEdge(issues, path[i], path[i + 1])
  }

  lemma {:induction false} UnreportedDescends(g: Graph, order: seq<string>, issues: seq<seq<string>>,
                                              path: seq<string>, j: nat)
    requires OrderBut(g, order, issues) && IsPath(g, path) && |path| > 0
    requires forall i :: 0 <= i < |path| - 1 ==> Unreported(issues, path, i)
    requires j < |order| && order[j] == path[0]
    ensures |path| > 1 ==> path[|path| - 1] in order[..j]
    decreases |path|
  {
    if |path| > 1 {
      assert Linked(g, path, 0) && Unreported(issues, path, 0) && Ordered(order, j, path[1], issues);
      var k :| 0 <= k < j && order[k] == path[1];
      var rest := path[1..];
      forall i | 0 <= i < |rest| - 1 ensures Linked(g, rest, i) && Unreported(issues, rest, i) {
        assert Linked(g, path, i + 1) && Unreported(issues, path, i + 1);
      }
      UnreportedDescends(g, order, issues, rest, k);
      assert rest[|rest| - 1] == path[|path| - 1];
      assert |rest| > 1 ==> path[|path| - 1] in order[..k];
    }
  }

  /** Every cycle of the graph, reported or not, runs over the closing edge of a reported one. */
  lemma EveryCycleIsHit(g: Graph, order: seq<string>, issues: seq<seq<string>>, c: seq<string>) returns (i: nat)
    requires OrderBut(g, order, issues) && |c| >= 2 && c[0] == c[|c| - 1] && IsPath(g, c)
    ensures i < |c| - 1 && ReportedEdge(issues, c[i], c[i + 1])
  {
    i := 0;
    if k :| 0 <= k < |c| - 1 && !Unreported(issues, c, k) {
      i := k;
    } else {
      assert Linked(g, c, 0);
      var j :| 0 <= j < |order| && order[j] == c[0];
      assert c[0] !in order[..j];
      UnreportedDescends(g, order, issues, c, j);
    }
  }

  /** A graph with a topological order has no cycle. */
  lemma OrderExcludesCycles(g: Graph, order: seq<string>)
    requires TopologicalOrder(g, order)
    ensures !HasCycle(g)
  {
    forall j, v | 0 <= j < |order| && Edge(g, order[j], v) ensures Ordered(order, j, v, []) {
      assert v in order[..j];
    }
    forall c | |c| >= 2 && c[0] == c[|c| - 1] && IsPath(g, c) ensures false {
      var i := EveryCycleIsHit(g, order, [], c);
    }
  }

  predicate Covered(visited: set<string>, issues: seq<seq<string>>, vm: string, v: string) {
    v in visited || ReportedEdge(issues, vm, v)
  }

  // ----- the search -----

  class Search {
    const g: Graph
    var visiting: seq<string>
    var visited: set<string>
    var issues: seq<seq<string>>
    ghost var finished: seq<string>

    ghost predicate Valid()
      reads this
    {
      && (forall i :: 0 <= i < |visiting| ==> visiting[i] in g && visiting[i] !in visited)
      && Distinct(visiting) && IsPath(g, visiting)
      && (forall u :: u in visited <==> u in finished) && Distinct(finished)
      && (forall u :: u in visited ==> u in g)
      && (forall i :: 0 <= i < |issues| ==> IsCycle(g, issues[i]))
      && (forall j, v :: 0 <= j < |finished| && Edge(g, finished[j], v) ==> Ordered(finished, j, v, issues))
    }

    constructor (g: Graph)
      ensures this.g == g && Valid() && visiting == [] && visited == {} && issues == [] && finished == []
    {
      this.g := g;
      visiting, visited, issues, finished := [], {}, [], [];
    }

    /** `visiting.iter().position(..)`. */
    method Position(vm: string) returns (p: nat)
      requires vm in visiting
      ensures p < |visiting| && visiting[p] == vm
    {
      p := 0;
      while visiting[p] != vm
        invariant p < |visiting| && vm in visiting[p..]
        decreases |visiting| - p
      {
        assert visiting[p..][1..] == visiting[p + 1..];
        p := p + 1;
      }
    }

    /** The stack from the repeated VM on, closed by that VM, is a cycle. */
    lemma StackCloses(position: nat, vm: string)
      requires Valid() && position < |visiting| && visiting[position] == vm
      requires Edge(g, visiting[|visiting| - 1], vm)
      ensures IsCycle(g, visiting[position..] + [vm])
    {
      var c := visiting[position..] + [vm];
      assert c[..|c| - 1] == visiting[position..];
      forall i | 0 <= i < |c| - 1 ensures Linked(g, c, i) {
        assert i < |c| - 2 ==> Linked(g, visiting, position + i);
      }
    }

    method Enter(vm: string)
      requires Valid() && vm in g && vm !in visited && vm !in visiting
      requires visiting != [] ==> Edge(g, visiting[|visiting| - 1], vm)
      modifies this`visiting
      ensures Valid() && visiting == old(visiting) + [vm]
    {
      ghost var before := visiting;
      visiting := visiting + [vm];
      assert IsPath(g, visiting) by {
        forall i | 0 <= i < |visiting| - 1 ensures Linked(g, visiting, i) {
          assert i < |before| - 1 ==> Linked(g, before, i);
        }
      }
    }

    method Finish(vm: string)
      requires Valid() && visiting != [] && visiting[|visiting| - 1] == vm
      requires forall v :: Edge(g, vm, v) ==> v in visited || ReportedEdge(issues, vm, v)
      modifies this`visiting, this`visited, this`finished
      ensures Valid() && visiting == old(visiting)[..|old(visiting)| - 1]
      ensures visited == old(visited) + {vm} && finished == old(finished) + [vm]
    {
      ghost var stack, done := visiting, finished;
      visiting := visiting[..|visiting| - 1];
      visited := visited + {vm};
      finished := finished + [vm];
      assert IsPath(g, visiting) by {
        forall i | 0 <= i < |visiting| - 1 ensures Linked(g, visiting, i) {
          assert Linked(g, stack, i);
        }
      }
      forall j, v | 0 <= j < |finished| && Edge(g, finished[j], v) ensures Ordered(finished, j, v, issues) {
        assert finished[..j] == done[..j];
        assert j < |done| ==> Ordered(done, j, v, issues);
      }
    }

    /** The back edge closes a cycle, which is reported. */
    method Report(vm: string)
      requires Valid() && vm in visiting && Edge(g, visiting[|visiting| - 1], vm)
      modifies this`issues
      ensures Valid() && |issues| == old(|issues|) + 1 && old(issues) <= issues
      ensures ReportedEdge(issues, visiting[|visiting| - 1], vm)
    {
      var position := Position(vm);
      StackCloses(position, vm);
      ghost var before := issues;
      issues := issues + [visiting[position..] + [vm]];
      assert Closes(issues[|before|], visiting[|visiting| - 1], vm);
      ReportsGrow(before);
    }

    /** One report more keeps the order of the finished VMs. */
    lemma ReportsGrow(before: seq<seq<string>>)
      requires before <= issues
      requires forall j, v :: 0 <= j < |finished| && Edge(g, finished[j], v) ==> Ordered(finished, j, v, before)
      ensures forall j, v :: 0 <= j < |finished| && Edge(g, finished[j], v) ==> Ordered(finished, j, v, issues)
    {
      forall j, v | 0 <= j < |finished| && Edge(g, finished[j], v) ensures Ordered(finished, j, v, issues) {
        assert Ordered(finished, j, v, before);
        if ReportedEdge(before, finished[j], v) {
          ReportedStays(before, issues, finished[j], v);
        }
      }
    }

    ghost function Unvisited(): set<string>
      reads this
    {
      g.Keys - set u | u in visiting
    }

    /** `visit`: the stack is restored, earlier findings stay, and the VM is finished, or the edge to
        it is reported as closing a cycle. */
    method Visit(vm: string)
      requires Valid() && vm in g
      requires visiting != [] ==> Edge(g, visiting[|visiting| - 1], vm)
      modifies this
      ensures Valid() && visiting == old(visiting)
      ensures old(visited) <= visited && old(finished) <= finished && old(issues) <= issues
      ensures vm in visited || (visiting != [] && ReportedEdge(issues, visiting[|visiting| - 1], vm))
      decreases Unvisited(), 0
    {
      if vm in visited { return; }
      if vm in visiting {
        Report(vm);
        return;
      }
      Enter(vm);
      assert (set u | u in visiting) == (set u | u in old(visiting)) + {vm};
      VisitDependencies(vm);
      Finish(vm);
      assert visiting == old(visiting);
    }

    method VisitDependencies(vm: string)
      requires Valid() && visiting != [] && visiting[|visiting| - 1] == vm
      modifies this
      ensures Valid() && visiting == old(visiting)
      ensures old(visited) <= visited && old(finished) <= finished && old(issues) <= issues
      ensures forall v :: Edge(g, vm, v) ==> v in visited || ReportedEdge(issues, vm, v)
      decreases Unvisited(), 1
    {
      var dependencies := g[vm];
      for i := 0 to |dependencies|
        invariant Valid() && visiting == old(visiting)
        invariant old(visited) <= visited && old(finished) <= finished && old(issues) <= issues
        invariant forall k :: 0 <= k < i && dependencies[k] in g ==> Covered(visited, issues, vm, dependencies[k])
      {
        ghost var known, found := visited, issues;
        if dependencies[i] in g {
          Visit(dependencies[i]);
        }
        forall k | 0 <= k < i && dependencies[k] in g ensures Covered(visited, issues, vm, dependencies[k]) {
          assert Covered(known, found, vm, dependencies[k]);
          if ReportedEdge(found, vm, dependencies[k]) {
            ReportedStays(found, issues, vm, dependencies[k]);
          }
        }
      }
      forall v | Edge(g, vm, v) ensures v in visited || ReportedEdge(issues, vm, v) {
        var k :| 0 <= k < |dependencies| && dependencies[k] == v;
        assert Covered(visited, issues, vm, dependencies[k]);
      }
    }
  }

  lemma NothingReported(g: Graph, order: seq<string>)
    requires OrderBut(g, order, [])
    ensures TopologicalOrder(g, order)
  {
    forall j, v | 0 <= j < |order| && Edge(g, order[j], v) ensures v in order[..j] {
      assert Ordered(order, j, v, []);
    }
  }

  /** The validator reports an issue if and only if the dependencies of existing VMs contain a
      cycle; what it reports are real cycles, and every cycle runs over an edge that closes a
      reported one: without those edges the finish order is topological. */
  method DetectDependencyCycles(g: Graph, names: seq<string>)
    returns (issues: seq<seq<string>>, ghost order: seq<string>)
    requires forall u :: u in names <==> u in g
    ensures issues != [] <==> HasCycle(g)
    ensures forall i :: 0 <= i < |issues| ==> IsCycle(g, issues[i])
    ensures issues == [] ==> TopologicalOrder(g, order)
    ensures OrderBut(g, order, issues)
  {
    var search := new Search(g);
    for i := 0 to |names|
      invariant search.Valid() && search.g == g && search.visiting == []
      invariant forall k :: 0 <= k < i ==> names[k] in search.visited
    {
      search.Visit(names[i]);
    }
    issues, order := search.issues, search.finished;
    if issues == [] {
      NothingReported(g, order);
      OrderExcludesCycles(g, order);
    } else {
      assert IsCycle(g, issues[0]);
    }
  }
}
