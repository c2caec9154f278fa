/** Dependencies between pods: walks and cycles of the graph, the cycle check, and the
    startup order. */
module DependencyGraph {
  type Graph = map<string, seq<string>>

  datatype Pod = Pod(name: string, dependsOn: seq<string>)

  /** graph[node]: a pod that is only mentioned as a dependency has none of its own. */
  function Deps(g: Graph, node: string): seq<string> {
    if node in g then g[node] else []
  }

  ghost predicate Closed(g: Graph, nodes: set<string>) {
    forall n, d | n in nodes && d in Deps(g, n) :: d in nodes
  }

  /** A walk follows at least zero dependencies, a cycle at least one. */
  ghost predicate Walk(g: Graph, p: seq<string>) {
    |p| > 0 && forall i | 0 < i < |p| :: p[i] in Deps(g, p[i - 1])
  }

  ghost predicate Cycle(g: Graph, p: seq<string>) {
    Walk(g, p) && |p| > 1 && p[0] == p[|p| - 1]
  }

  ghost predicate OnCycle(g: Graph, node: string) {
    exists p :: Cycle(g, p) && node in p
  }

  ghost predicate Acyclic(g: Graph) {
    forall p :: !Cycle(g, p)
  }

  lemma OnCycleIsCyclic(g: Graph, node: string)
    requires OnCycle(g, node)
    ensures !Acyclic(g)
  {
  }

  ghost predicate NoDuplicates(s: seq<string>) {
    forall i, j | 0 <= i < j < |s| :: s[i] != s[j]
  }

  /** Every dependency of a listed node is listed before it. */
  ghost predicate Ordered(g: Graph, order: seq<string>) {
    forall i, d | 0 <= i < |order| && d in Deps(g, order[i]) :: d in order[..i]
  }

  ghost predicate StartupOrder(g: Graph, nodes: set<string>, order: seq<string>) {
    && NoDuplicates(order)
    && (forall n :: n in order <==> n in nodes)
    && Ordered(g, order)
  }

  lemma NoDuplicatesSnoc(s: seq<string>, x: string)
    requires NoDuplicates(s) && x !in s
    ensures NoDuplicates(s + [x])
  {
  }

  lemma OrderedSnoc(g: Graph, order: seq<string>, node: string)
    requires NoDuplicates(order) && Ordered(g, order) && node !in order
    requires forall d <- Deps(g, node) :: d in order
    ensures NoDuplicates(order + [node]) && Ordered(g, order + [node])
  {
    var o := order + [node];
    forall i, d | 0 <= i < |o| && d in Deps(g, o[i])
      ensures d in o[..i]
    {
      assert o[..i] == order[..i];
    }
  }

  /** A walk that ends in an ordered list stays in it and goes strictly backwards. */
  lemma {:induction false} WalkDescends(g: Graph, order: seq<string>, p: seq<string>, i: nat)
    requires Ordered(g, order) && Walk(g, p) && i < |order| && p[0] == order[i]
    ensures |p| > 1 ==> p[|p| - 1] in order[..i]
    decreases |p|
  {
    if |p| > 1 {
      assert p[1] in Deps(g, p[0]);
      var j :| 0 <= j < i && order[j] == p[1];
      var rest := p[1..];
      assert Walk(g, rest) by {
        forall k | 0 < k < |rest| ensures rest[k] in Deps(g, rest[k - 1]) {
          assert p[k + 1] in Deps(g, p[k]);
        }
      }
      WalkDescends(g, order, rest, j);
      assert p[|p| - 1] == rest[|rest| - 1];
      if |rest| > 1 {
        assert forall x | x in order[..j] :: x in order[..i];
      }
    }
  }

  /** An ordered list of all nodes rules out every cycle. */
  lemma OrderedIsAcyclic(g: Graph, nodes: set<string>, order: seq<string>)
    requires StartupOrder(g, nodes, order) && g.Keys <= nodes
    ensures Acyclic(g)
  {
    forall p | Cycle(g, p)
      ensures false
    {
      assert p[1] in Deps(g, p[0]);
      assert p[0] in order;
      var i :| 0 <= i < |order| && order[i] == p[0];
      WalkDescends(g, order, p, i);
    }
  }

  lemma WalkSnoc(g: Graph, p: seq<string>, node: string)
    requires p == [] || (Walk(g, p) && node in Deps(g, p[|p| - 1]))
    ensures Walk(g, p + [node])
  {
  }

  lemma WalkUnsnoc(g: Graph, p: seq<string>, node: string)
    requires Walk(g, p + [node]) && NoDuplicates(p + [node])
    ensures p != [] ==> Walk(g, p)
    ensures NoDuplicates(p) && node !in p
  {
    var q := p + [node];
    assert forall i | 0 <= i < |p| :: q[i] == p[i];
    assert q[|p|] == node;
  }

  /** A walk that comes back to a node it has passed closes a cycle through it. */
  lemma WalkClosesCycle(g: Graph, p: seq<string>, node: string)
    requires Walk(g, p) && node in p && node in Deps(g, p[|p| - 1])
    ensures OnCycle(g, node)
  {
    var i :| 0 <= i < |p| && p[i] == node;
    var c := p[i..] + [node];
    assert Walk(g, c) by {
      forall k | 0 < k < |c| ensures c[k] in Deps(g, c[k - 1]) {
        if k < |c| - 1 {
          assert p[i + k] in Deps(g, p[i + k - 1]);
        }
      }
    }
    assert Cycle(g, c) && node in c;
  }
}

/** DetectCircularDependency and getTopologicalOrder, as they mutate their captured state. */
module PodDepend {
  import opened DependencyGraph
  import opened Wrappers

  datatype Error = Circular(node: string) | NonExistent(node: string, neighbor: string)

  /** What the construction loop builds: the last pod of a name decides its dependencies,
      every name and every mentioned dependency becomes a node. */
  ghost function GraphOf(pods: seq<Pod>): Graph {
    if pods == [] then map[]
    else
      var last := pods[|pods| - 1];
      GraphOf(pods[..|pods| - 1])[last.name := last.dependsOn]
  }

  ghost function NodesOf(pods: seq<Pod>): set<string> {
    set pod, n | pod in pods && n in [pod.name] + pod.dependsOn :: n
  }

  /** The pod that decides the dependencies of its name: no later pod has it too. */
  ghost predicate Decides(pods: seq<Pod>, i: int) {
    0 <= i < |pods| && forall j | i < j < |pods| :: pods[j].name != pods[i].name
  }

  /** A name leads to the dependencies of the last pod that has it. */
  lemma {:induction false} GraphHoldsLastPods(pods: seq<Pod>, i: nat)
    requires Decides(pods, i)
    ensures pods[i].name in GraphOf(pods) && GraphOf(pods)[pods[i].name] == pods[i].dependsOn
    decreases |pods|
  {
    if i < |pods| - 1 {
      var init := pods[..|pods| - 1];
      assert Decides(init, i) && init[i] == pods[i] && pods[|pods| - 1].name != pods[i].name;
      GraphHoldsLastPods(init, i);
    }
  }

  /** The keys of the graph are the names of the pods. */
  lemma {:induction false} GraphHoldsNames(pods: seq<Pod>, n: string)
    ensures n in GraphOf(pods) <==> exists pod <- pods :: pod.name == n
    decreases |pods|
  {
    if pods != [] {
      var init, last := pods[..|pods| - 1], pods[|pods| - 1];
      GraphHoldsNames(init, n);
      assert forall pod :: pod in pods <==> pod in init || pod == last;
    }
  }

  /** `a` depends on `b` directly: so says the last pod that is called `a`. */
  ghost predicate DependsOn(pods: seq<Pod>, a: string, b: string) {
    exists i :: Decides(pods, i) && pods[i].name == a && b in pods[i].dependsOn
  }

  /** A chain of direct dependencies that comes back to its first pod. */
  ghost predicate CircularChain(pods: seq<Pod>, chain: seq<string>) {
    && |chain| > 1 && chain[0] == chain[|chain| - 1]
    && forall k | 0 < k < |chain| :: DependsOn(pods, chain[k - 1], chain[k])
  }

  lemma EdgesAreDependencies(pods: seq<Pod>, a: string, b: string)
    ensures b in Deps(GraphOf(pods), a) <==> DependsOn(pods, a, b)
  {
    GraphHoldsNames(pods, a);
    if a in GraphOf(pods) {
      var i: nat :| i < |pods| && pods[i].name == a;
      var j := LastNamed(pods, i);
      GraphHoldsLastPods(pods, j);
      assert forall k | Decides(pods, k) && pods[k].name == a :: k == j;
    } else {
      assert forall k | Decides(pods, k) :: pods[k] in pods;
    }
  }

  /** The last pod with the name of pod `i`. */
  ghost function LastNamed(pods: seq<Pod>, i: nat): (j: nat)
    requires i < |pods|
    ensures Decides(pods, j) && pods[j].name == pods[i].name
    decreases |pods| - i
  {
    if j: nat :| i < j < |pods| && pods[j].name == pods[i].name then LastNamed(pods, j) else i
  }

  /** The cycles of the graph are the circular chains of the pods. */
  lemma CyclesAreCircularChains(pods: seq<Pod>, p: seq<string>)
    ensures Cycle(GraphOf(pods), p) <==> CircularChain(pods, p)
  {
    forall k | 0 < k < |p|
      ensures p[k] in Deps(GraphOf(pods), p[k - 1]) <==> DependsOn(pods, p[k - 1], p[k])
    {
      EdgesAreDependencies(pods, p[k - 1], p[k]);
    }
  }

  lemma {:induction false} GraphOfClosed(pods: seq<Pod>)
    ensures GraphOf(pods).Keys <= NodesOf(pods)
    ensures forall n, d | n in GraphOf(pods) && d in GraphOf(pods)[n] :: d in NodesOf(pods)
  {
    if pods != [] {
      var init, last := pods[..|pods| - 1], pods[|pods| - 1];
      GraphOfClosed(init);
      assert forall pod <- init :: pod in pods;
      forall n | n in NodesOf(init)
        ensures n in NodesOf(pods)
      {
      }
      forall d | d in [last.name] + last.dependsOn
        ensures d in NodesOf(pods)
      {
        assert last in pods;
      }
    }
  }

  method BuildGraph(pods: seq<Pod>) returns (graph: Graph, allNodes: set<string>)
    ensures graph == GraphOf(pods) && allNodes == NodesOf(pods)
    ensures Closed(graph, allNodes) && graph.Keys <= allNodes
  {
    graph, allNodes := map[], {};
    for i := 0 to |pods|
      invariant graph == GraphOf(pods[..i]) && allNodes == NodesOf(pods[..i])
    {
      var pod := pods[i];
      assert pods[..i + 1][..i] == pods[..i];
      graph := graph[pod.name := pod.dependsOn];
      ghost var before := allNodes;
      allNodes := allNodes + {pod.name};
      for k := 0 to |pod.dependsOn|
        invariant allNodes == before + {pod.name} + set d | d in pod.dependsOn[..k]
      {
        allNodes := allNodes + {pod.dependsOn[k]};
      }
      assert pod.dependsOn[..|pod.dependsOn|] == pod.dependsOn;
      NodesOfSnoc(pods[..i], pod);
      assert pods[..i + 1] == pods[..i] + [pod];
    }
    assert pods[..|pods|] == pods;
    GraphOfClosed(pods);
  }

  lemma NodesOfSnoc(pods: seq<Pod>, pod: Pod)
    ensures NodesOf(pods + [pod]) == NodesOf(pods) + {pod.name} + set d | d in pod.dependsOn
  {
    var all := pods + [pod];
    forall n | n in NodesOf(pods) + {pod.name} + set d | d in pod.dependsOn
      ensures n in NodesOf(all)
    {
      if n in NodesOf(pods) {
        var p :| p in pods && n in [p.name] + p.dependsOn;
        assert p in all;
      } else {
        assert pod in all && n in [pod.name] + pod.dependsOn;
      }
    }
  }

  /** The state the dfs closure of DetectCircularDependency captures. */
  class CycleCheck {
    const graph: Graph
    const allNodes: set<string>
    var visited: map<string, int>
    var stack: seq<string>

    // The nodes whose visit is complete, in the order of completion.
    ghost var finished: seq<string>

    constructor (graph: Graph, allNodes: set<string>)
      requires Closed(graph, allNodes)
      ensures this.graph == graph && this.allNodes == allNodes
      ensures Valid() && stack == [] && finished == [] && visited == map[]
    {
      this.graph, this.allNodes := graph, allNodes;
      visited, stack, finished := map[], [], [];
    }

    /** 0: not visited, 1: on the stack, 2: finished. */
    function Status(node: string): int
      reads this`visited
    {
      if node in visited then visited[node] else 0
    }

    ghost function Unvisited(): set<string>
      reads this`visited
    {
      set n | n in allNodes && Status(n) == 0
    }

    ghost predicate Valid()
      reads this
    {
      && Closed(graph, allNodes)
      && (forall n :: 0 <= Status(n) <= 2)
      && (forall n :: Status(n) == 1 <==> n in stack)
      && (forall n :: Status(n) == 2 <==> n in finished)
      && (forall n | n in stack || n in finished :: n in allNodes)
      && (stack != [] ==> Walk(graph, stack))
      && NoDuplicates(stack) && NoDuplicates(finished) && Ordered(graph, finished)
    }

    /** The visit of one node. It succeeds with the node finished and the stack as it was,
        or reports a node that lies on a cycle. */
    method Dfs(node: string) returns (err: Option<Error>)
      requires Valid() && node in allNodes
      requires stack != [] ==> node in Deps(graph, stack[|stack| - 1])
      modifies this
      ensures err.None? ==> Valid() && stack == old(stack) && node in finished
      ensures err.None? ==> old(finished) <= finished && Unvisited() <= old(Unvisited())
      ensures err.Some? ==> err.value.Circular? && OnCycle(graph, err.value.node)
      decreases Unvisited()
    {
      hide Walk, NoDuplicates, Ordered, OnCycle;
      if Status(node) == 1 {
        WalkClosesCycle(graph, stack, node);
        return Some(Circular(node));
      }
      if Status(node) == 2 {
        return None;
      }
      Enter(node);
      var deps := Deps(graph, node);
      for i := 0 to |deps|
        invariant Valid() && stack == old(stack) + [node] && old(finished) <= finished
        invariant forall d <- deps[..i] :: d in finished
        invariant Unvisited() <= old(Unvisited()) - {node}
      {
        var neighbor := deps[i];
        if neighbor !in allNodes {
          return Some(NonExistent(node, neighbor));
        }
        assert node in old(Unvisited());
        err := Dfs(neighbor);
        if err.Some? {
          return;
        }
      }
      assert deps[..|deps|] == deps;
      Leave(node);
      err := None;
    }

    /** The node is being visited. */
    method Enter(node: string)
      requires Valid() && node in allNodes && Status(node) == 0
      requires stack != [] ==> node in Deps(graph, stack[|stack| - 1])
      modifies this
      ensures Valid() && stack == old(stack) + [node] && finished == old(finished)
      ensures Unvisited() == old(Unvisited()) - {node}
    {
      WalkSnoc(graph, stack, node);
      visited := visited[node := 1];
      stack := stack + [node];
      assert forall n :: Status(n) == if n == node then 1 else old(Status(n));
    }

    /** All dependencies of the node on top of the stack are finished, and so is the node. */
    method Leave(node: string)
      requires Valid() && stack != [] && node == stack[|stack| - 1]
      requires forall d <- Deps(graph, node) :: d in finished
      modifies this
      ensures Valid() && stack == old(stack)[..|old(stack)| - 1] && finished == old(finished) + [node]
      ensures Unvisited() == old(Unvisited())
    {
      hide Walk, Ordered, NoDuplicates;
      assert node in stack && stack == stack[..|stack| - 1] + [node];
      WalkUnsnoc(graph, stack[..|stack| - 1], node);
      OrderedSnoc(graph, finished, node);
      visited := visited[node := 2];
      finished := finished + [node];
      stack := stack[..|stack| - 1];
      assert forall n :: Status(n) == if n == node then 2 else old(Status(n));
      assert old(stack) == stack + [node];
    }
  }

  /** Every pod and every dependency is listed once, and of each pod all dependencies are
      listed before it. */
  ghost predicate StartsInOrder(pods: seq<Pod>, order: seq<string>) {
    && NoDuplicates(order)
    && (forall n :: n in order <==> exists pod <- pods :: n == pod.name || n in pod.dependsOn)
    && (forall i, d | 0 <= i < |order| && DependsOn(pods, order[i], d) :: d in order[..i])
  }

  lemma StartupIsInOrder(pods: seq<Pod>, order: seq<string>)
    requires StartupOrder(GraphOf(pods), NodesOf(pods), order)
    ensures StartsInOrder(pods, order)
  {
    forall i, d | 0 <= i < |order| && DependsOn(pods, order[i], d)
      ensures d in order[..i]
    {
      EdgesAreDependencies(pods, order[i], d);
    }
    forall n
      ensures n in NodesOf(pods) <==> exists pod <- pods :: n == pod.name || n in pod.dependsOn
    {
      if pod :| pod in pods && (n == pod.name || n in pod.dependsOn) {
        assert n in [pod.name] + pod.dependsOn;
      }
    }
  }

  /** Visits the nodes in whatever order the map yields them. The check succeeds exactly
      when no pod depends on itself through a chain of dependencies; otherwise the pod it
      names lies on such a chain, and no error ever speaks of a pod that does not exist. */
  method DetectCircularDependency(pods: seq<Pod>) returns (err: Option<Error>, startup: seq<string>)
    ensures err.None? <==> forall p :: !CircularChain(pods, p)
    ensures err.None? ==> StartsInOrder(pods, startup)
    ensures err.Some? ==> err.value.Circular? && exists p :: CircularChain(pods, p) && err.value.node in p
  {
    forall p {
      CyclesAreCircularChains(pods, p);
    }
    hide CircularChain, Cycle;
    var graph, allNodes := BuildGraph(pods);
    var check := new CycleCheck(graph, allNodes);
    var remaining := allNodes;
    startup := [];
    while remaining != {}
      invariant check.Valid() && check.stack == [] && check.graph == graph && check.allNodes == allNodes
      invariant remaining <= allNodes && forall n <- allNodes - remaining :: n in check.finished
    {
      var node :| node in remaining;
      remaining := remaining - {node};
      if check.Status(node) == 0 {
        err := check.Dfs(node);
        if err.Some? {
          return;
        }
      }
    }
    OrderedIsAcyclic(graph, allNodes, check.finished);
    err := None;
    startup := GetTopologicalOrder(graph, allNodes);
    StartupIsInOrder(pods, startup);
  }

  /** The state the dfs closure of getTopologicalOrder captures. */
  class Sorter {
    const graph: Graph
    var visited: set<string>
    var order: seq<string>

    const nodes: set<string>
    // The nodes whose dependencies are being listed, outermost first.
    ghost var pending: seq<string>

    constructor (graph: Graph, nodes: set<string>)
      requires Closed(graph, nodes)
      ensures this.graph == graph && this.nodes == nodes
      ensures Valid() && order == [] && pending == [] && visited == {}
    {
      this.graph, this.nodes := graph, nodes;
      visited, order, pending := {}, [], [];
    }

    ghost predicate Valid()
      reads this
    {
      && Closed(graph, nodes) && visited <= nodes
      && (forall n :: n in visited <==> n in order || n in pending)
      && (forall n <- pending :: n !in order)
      && (pending != [] ==> Walk(graph, pending))
      && NoDuplicates(pending) && NoDuplicates(order)
      && (Acyclic(graph) ==> Ordered(graph, order))
    }

    method Dfs(node: string)
      requires Valid() && node in nodes
      requires pending != [] ==> node in Deps(graph, pending[|pending| - 1])
      modifies this
      ensures Valid() && pending == old(pending)
      ensures old(order) <= order && old(visited) <= visited && node in visited
      ensures Acyclic(graph) ==> node in order
      decreases nodes - visited
    {
      hide Walk, NoDuplicates, Ordered, OnCycle, Acyclic;
      if node in visited {
        if node in pending {
          WalkClosesCycle(graph, pending, node);
          OnCycleIsCyclic(graph, node);
        }
        return;
      }
      Enter(node);
      var deps := Deps(graph, node);
      for i := 0 to |deps|
        invariant Valid() && pending == old(pending) + [node]
        invariant old(order) <= order && old(visited) + {node} <= visited
        invariant Acyclic(graph) ==> forall d <- deps[..i] :: d in order
      {
        assert node in nodes - old(visited);
        Dfs(deps[i]);
      }
      assert deps[..|deps|] == deps;
      Leave(node);
    }

    method Enter(node: string)
      requires Valid() && node in nodes && node !in visited
      requires pending != [] ==> node in Deps(graph, pending[|pending| - 1])
      modifies this
      ensures Valid() && pending == old(pending) + [node] && order == old(order)
      ensures visited == old(visited) + {node}
    {
      WalkSnoc(graph, pending, node);
      visited := visited + {node};
      pending := pending + [node];
    }

    method Leave(node: string)
      requires Valid() && pending != [] && node == pending[|pending| - 1]
      requires Acyclic(graph) ==> forall d <- Deps(graph, node) :: d in order
      modifies this
      ensures Valid() && pending == old(pending)[..|old(pending)| - 1] && order == old(order) + [node]
      ensures visited == old(visited)
    {
      assert node in pending && pending == pending[..|pending| - 1] + [node];
      WalkUnsnoc(graph, pending[..|pending| - 1], node);
      NoDuplicatesSnoc(order, node);
      if Acyclic(graph) {
        OrderedSnoc(graph, order, node);
      }
      hide Walk, Ordered, NoDuplicates, Acyclic;
      order := order + [node];
      pending := pending[..|pending| - 1];
      assert old(pending) == pending + [node];
    }
  }

  /** Lists every node once, whatever the graph; the list is a startup order, every
      dependency before its dependents, exactly when the graph has no cycle. */
  method GetTopologicalOrder(graph: Graph, allNodes: set<string>) returns (order: seq<string>)
    requires Closed(graph, allNodes) && graph.Keys <= allNodes
    ensures NoDuplicates(order) && forall n :: n in order <==> n in allNodes
    ensures StartupOrder(graph, allNodes, order) <==> Acyclic(graph)
  {
    var sorter := new Sorter(graph, allNodes);
    var remaining := allNodes;
    while remaining != {}
      invariant sorter.Valid() && sorter.pending == [] && sorter.graph == graph && sorter.nodes == allNodes
      invariant remaining <= allNodes && allNodes - remaining <= sorter.visited
    {
      var node :| node in remaining;
      remaining := remaining - {node};
      if node !in sorter.visited {
        sorter.Dfs(node);
      }
    }
    order := sorter.order;
    if StartupOrder(graph, allNodes, order) {
      OrderedIsAcyclic(graph, allNodes, order);
    }
  }
}
