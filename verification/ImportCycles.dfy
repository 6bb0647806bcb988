/**
The depth-first cycle detector of the import-boundary check (scripts/boundaries/b1.py:41-63).
Neighbours and start nodes are taken in any order; the script takes them sorted.
*/
module ImportCycles {
  import opened Common

  type Graph = map<string, set<string>>

  /** Neighbours, none for a name that is not a key. */
  function Succ(g: Graph, n: string): set<string> {
    if n in g then g[n] else {}
  }

  ghost function Nodes(g: Graph): set<string> {
    g.Keys + set n, m | n in g && m in g[n] :: m
  }

  ghost predicate IsWalk(g: Graph, p: seq<string>) {
    forall i :: 0 <= i < |p| - 1 ==> p[i] in g && p[i + 1] in g[p[i]]
  }

  ghost predicate Distinct(s: seq<string>) {
    forall i, j :: 0 <= i < j < |s| ==> s[i] != s[j]
  }

  /** At least one edge, back to where it started. */
  ghost predicate IsCycle(g: Graph, c: seq<string>) {
    |c| >= 2 && IsWalk(g, c) && c[0] == Last(c)
  }

  ghost predicate IsSimpleCycle(g: Graph, c: seq<string>) {
    IsCycle(g, c) && Distinct(c[..|c| - 1])
  }

  ghost predicate HasCycle(g: Graph) {
    exists c :: IsCycle(g, c)
  }

  /** Some reported cycle is closed by the edge from `v` to `w`. */
  ghost predicate Closes(cycles: seq<seq<string>>, v: string, w: string) {
    exists r :: r in cycles && |r| >= 2 && r[|r| - 2] == v && Last(r) == w
  }

  /** The last edge of a reported cycle. */
  ghost function ClosingEdge(c: seq<string>): (string, string) {
    if |c| < 2 then ("", "") else (c[|c| - 2], Last(c))
  }

  /** No edge closes two reported cycles. */
  ghost predicate ClosedOnce(cycles: seq<seq<string>>) {
    forall i, j :: 0 <= i < j < |cycles| ==> ClosingEdge(cycles[i]) != ClosingEdge(cycles[j])
  }

  /** Every neighbour of a listed node is listed before it, or the edge to it closes a reported cycle. */
  ghost predicate SuccessorsFirst(g: Graph, order: seq<string>, cycles: seq<seq<string>>) {
    forall i, w :: 0 <= i < |order| && w in Succ(g, order[i]) ==> w in order[..i] || Closes(cycles, order[i], w)
  }

  /** A walk passes a reported closing edge. */
  ghost predicate Passes(cycles: seq<seq<string>>, c: seq<string>) {
    exists i :: 0 <= i < |c| - 1 && Closes(cycles, c[i], c[i + 1])
  }

  /** Along any other walk that starts at position `k` of such an order, positions fall by at least one a step. */
  lemma {:induction false} WalkDescends(g: Graph, order: seq<string>, cycles: seq<seq<string>>, c: seq<string>, k: nat, i: nat)
    returns (j: nat)
    requires SuccessorsFirst(g, order, cycles) && IsWalk(g, c) && !Passes(cycles, c)
    requires i < |c| && k < |order| && order[k] == c[0]
    ensures j + i <= k && order[j] == c[i]
    decreases i
  {
    hide Closes;
    if i == 0 {
      j := k;
    } else {
      var h := WalkDescends(g, order, cycles, c, k, i - 1);
      assert c[i - 1 + 1] in Succ(g, c[i - 1]) && !Closes(cycles, c[i - 1], c[i - 1 + 1]);
      j :| 0 <= j < h && order[j] == c[i];
    }
  }

  /** With a duplicate-free order of that kind over the keys, every cycle passes a reported closing edge. */
  lemma EveryCyclePasses(g: Graph, order: seq<string>, cycles: seq<seq<string>>, c: seq<string>)
    requires SuccessorsFirst(g, order, cycles) && Distinct(order) && forall n :: n in g ==> n in order
    requires IsCycle(g, c)
    ensures Passes(cycles, c)
  {
    if !Passes(cycles, c) {
      assert c[0 + 1] in Succ(g, c[0]);
      var k :| 0 <= k < |order| && order[k] == c[0];
      var j := WalkDescends(g, order, cycles, c, k, |c| - 1);
      assert false;
    }
  }

  /** Every reported cycle is closed by an edge from one of the nodes. */
  ghost predicate ClosedFrom(cycles: seq<seq<string>>, nodes: set<string>) {
    forall i :: 0 <= i < |cycles| ==> ClosingEdge(cycles[i]).0 in nodes
  }

  /** From position `k` on, no reported cycle is closed by an edge from one of the nodes. */
  ghost predicate ClosedOutside(cycles: seq<seq<string>>, k: nat, nodes: set<string>) {
    forall i :: k <= i < |cycles| ==> ClosingEdge(cycles[i]).0 !in nodes
  }

  /** No reported cycle is closed by an edge from `node` to one of `todo`. */
  ghost predicate NotYetClosed(cycles: seq<seq<string>>, node: string, todo: set<string>) {
    forall i :: 0 <= i < |cycles| ==> ClosingEdge(cycles[i]).0 != node || ClosingEdge(cycles[i]).1 !in todo
  }

  /** The neighbours of `node` outside `todo` are finished, or the edge to them is reported. */
  ghost predicate Explored(g: Graph, node: string, todo: set<string>, finished: seq<string>, cycles: seq<seq<string>>) {
    forall w :: w in Succ(g, node) && w !in todo ==> w in finished || Closes(cycles, node, w)
  }

  lemma ExploredGrows(g: Graph, node: string, todo: set<string>, finished: seq<string>, cycles: seq<seq<string>>,
                      neighbor: string, finished': seq<string>, cycles': seq<seq<string>>)
    requires Explored(g, node, todo, finished, cycles) && finished <= finished' && cycles <= cycles'
    requires neighbor in finished' || Closes(cycles', node, neighbor)
    ensures Explored(g, node, todo - {neighbor}, finished', cycles')
  {
    hide Closes;
    forall w | w in Succ(g, node) && w !in todo ensures w in finished' || Closes(cycles', node, w) {
      if w !in finished {
        ClosesGrows(cycles, cycles', node, w);
      }
    }
  }

  lemma ClosedByOthers(cycles: seq<seq<string>>, cycles': seq<seq<string>>, node: string, todo: set<string>, nodes: set<string>)
    requires cycles <= cycles' && node in nodes && NotYetClosed(cycles, node, todo)
    requires ClosedOutside(cycles', |cycles|, nodes)
    ensures NotYetClosed(cycles', node, todo)
  {
    hide ClosingEdge;
    assert forall i :: 0 <= i < |cycles| ==> cycles'[i] == cycles[i];
  }

  lemma StaysOutside(cycles: seq<seq<string>>, cycles': seq<seq<string>>, k: nat, part: set<string>, nodes: set<string>)
    requires cycles <= cycles' && k <= |cycles| && part <= nodes
    requires ClosedOutside(cycles, k, part) && ClosedOutside(cycles', |cycles|, nodes)
    ensures ClosedOutside(cycles', k, part)
  {
    hide ClosingEdge;
    assert forall i :: 0 <= i < |cycles| ==> cycles'[i] == cycles[i];
  }

  /** One more cycle, closed by the edge from `node` to `neighbor`. */
  lemma ClosedByNode(cycles: seq<seq<string>>, c: seq<string>, node: string, todo: set<string>, k: nat, part: set<string>)
    requires NotYetClosed(cycles, node, todo) && ClosedOutside(cycles, k, part)
    requires ClosingEdge(c).0 == node && node !in part && ClosingEdge(c).1 in todo
    ensures NotYetClosed(cycles + [c], node, todo - {ClosingEdge(c).1}) && ClosedOutside(cycles + [c], k, part)
  {
    hide ClosingEdge;
    assert forall i :: 0 <= i < |cycles| ==> (cycles + [c])[i] == cycles[i];
  }

  lemma NotClosedYet(cycles: seq<seq<string>>, node: string, todo: set<string>, neighbor: string)
    requires NotYetClosed(cycles, node, todo) && neighbor in todo
    ensures forall i :: 0 <= i < |cycles| ==> ClosingEdge(cycles[i]) != (node, neighbor)
    ensures NotYetClosed(cycles, node, todo - {neighbor})
  {
    hide ClosingEdge;
  }

  lemma NothingExplored(g: Graph, node: string, finished: seq<string>, cycles: seq<seq<string>>, visited: set<string>)
    requires ClosedFrom(cycles, visited) && node !in visited
    ensures Explored(g, node, Succ(g, node), finished, cycles) && NotYetClosed(cycles, node, Succ(g, node))
    ensures ClosedOutside(cycles, |cycles|, visited)
  {
    hide ClosingEdge;
  }

  lemma AllExplored(g: Graph, node: string, finished: seq<string>, cycles: seq<seq<string>>)
    requires Explored(g, node, {}, finished, cycles)
    ensures forall w :: w in Succ(g, node) ==> w in finished || Closes(cycles, node, w)
  {
    hide Closes;
  }

  lemma SuccessorsFirstGrows(g: Graph, order: seq<string>, cycles: seq<seq<string>>, c: seq<string>)
    requires SuccessorsFirst(g, order, cycles)
    ensures SuccessorsFirst(g, order, cycles + [c])
  {
    forall i, w | 0 <= i < |order| && w in Succ(g, order[i]) && w !in order[..i] ensures Closes(cycles + [c], order[i], w) {
      ClosesGrows(cycles, cycles + [c], order[i], w);
    }
  }

  lemma ClosesGrows(cycles: seq<seq<string>>, more: seq<seq<string>>, v: string, w: string)
    requires Closes(cycles, v, w) && cycles <= more
    ensures Closes(more, v, w)
  {
    var r :| r in cycles && |r| >= 2 && r[|r| - 2] == v && Last(r) == w;
    var i :| 0 <= i < |cycles| && cycles[i] == r;
    assert more[i] == r;
  }

  class CycleFinder {
    const graph: Graph
    var visited: set<string>
    var inStack: set<string>
    var path: seq<string>
    var cycles: seq<seq<string>>
    ghost var finished: seq<string>  // nodes whose search has returned, in that order

    constructor (graph: Graph)
      ensures this.graph == graph && Valid() && path == [] && cycles == [] && finished == []
    {
      this.graph := graph;
      visited, inStack, path, cycles, finished := {}, {}, [], [], [];
    }

    /** White nodes are unvisited, grey nodes are the path, black nodes are finished. */
    ghost predicate Valid()
      reads this
    {
      && Distinct(path) && IsWalk(graph, path)
      && (forall n :: n in inStack <==> n in path)
      && (forall n :: n in visited <==> n in path || n in finished)
      && (forall n :: n in path ==> n !in finished)
      && Distinct(finished)
      && visited <= Nodes(graph)
      && (forall c :: c in cycles ==> IsSimpleCycle(graph, c))
      && SuccessorsFirst(graph, finished, cycles)
      && ClosedOnce(cycles) && ClosedFrom(cycles, visited)
    }

    /** The cycle closed by the edge from the end of the path back to position `start`. */
    lemma BackEdgeClosesCycle(start: nat)
      requires Valid() && start < |path| && path[start] in Succ(graph, Last(path))
      ensures IsSimpleCycle(graph, path[start..] + [path[start]])
    {
      var c := path[start..] + [path[start]];
      forall i | 0 <= i < |c| - 1 ensures c[i + 1] in Succ(graph, c[i]) {
        if i < |c| - 2 {
          assert path[start + i + 1] in Succ(graph, path[start + i]);
        }
      }
      assert c[..|c| - 1] == path[start..];
    }

    /** The first position of a name on the path. */
    method IndexOf(n: string) returns (i: nat)
      requires n in path
      ensures i < |path| && path[i] == n
    {
      i := 0;
      while path[i] != n
        invariant i < |path| && n !in path[..i]
        decreases |path| - i
      {
        assert path == path[..i + 1] + path[i + 1..];
        i := i + 1;
      }
    }

    /** Opens a node: visited, on the stack, at the end of the path. */
    method Enter(node: string)
      requires Valid() && node !in visited && node in Nodes(graph)
      requires path != [] ==> node in Succ(graph, Last(path))
      modifies this
      ensures Valid() && visited == old(visited) + {node} && inStack == old(inStack) + {node}
      ensures path == old(path) + [node] && cycles == old(cycles) && finished == old(finished)
    {
      hide SuccessorsFirst, IsSimpleCycle, Nodes;
      visited, inStack, path := visited + {node}, inStack + {node}, path + [node];
    }

    /** Records the cycle closed by an edge back into the path. */
    method Close(neighbor: string)
      requires Valid() && neighbor in inStack && neighbor in Succ(graph, Last(path))
      requires forall i :: 0 <= i < |cycles| ==> ClosingEdge(cycles[i]) != (Last(path), neighbor)
      modifies this`cycles
      ensures Valid() && |cycles| == |old(cycles)| + 1 && cycles == old(cycles) + [Last(cycles)]
      ensures ClosingEdge(Last(cycles)) == (Last(path), neighbor) && Closes(cycles, Last(path), neighbor)
    {
      hide SuccessorsFirst, Distinct, IsWalk;
      var i := IndexOf(neighbor);
      BackEdgeClosesCycle(i);
      var cycle := path[i..] + [neighbor];
      assert cycle[|cycle| - 2] == Last(path);
      SuccessorsFirstGrows(graph, finished, cycles, cycle);
      cycles := cycles + [cycle];
    }

    /** Closes the node at the end of the path. */
    method Leave(node: string)
      requires Valid() && path != [] && Last(path) == node
      requires forall w :: w in Succ(graph, node) ==> w in finished || Closes(cycles, node, w)
      modifies this
      ensures Valid() && visited == old(visited) && path == old(path)[..|old(path)| - 1]
      ensures inStack == old(inStack) - {node} && cycles == old(cycles) && finished == old(finished) + [node]
    {
      hide IsSimpleCycle, Succ, Nodes, SuccessorsFirst;
      FinishKeepsOrder(finished, node);
      assert node in path;
      assert path == path[..|path| - 1] + [node];
      path := path[..|path| - 1];
      inStack := inStack - {node};
      finished := finished + [node];
    }

    /** Finishing a node whose neighbours are all finished or reported keeps the order. */
    lemma FinishKeepsOrder(order: seq<string>, node: string)
      requires SuccessorsFirst(graph, order, cycles)
      requires forall w :: w in Succ(graph, node) ==> w in order || Closes(cycles, node, w)
      ensures SuccessorsFirst(graph, order + [node], cycles)
    {
      hide Closes;
      forall i, w | 0 <= i < |order| + 1 && w in Succ(graph, (order + [node])[i])
        ensures w in (order + [node])[..i] || Closes(cycles, (order + [node])[i], w)
      {
        assert (order + [node])[..i] == order[..i];
        assert order[..|order|] == order;
      }
    }

    /** Explores everything reachable from an unvisited node that the path leads to. */
    method Dfs(node: string)
      requires Valid() && node !in visited && node in Nodes(graph)
      requires path != [] ==> node in Succ(graph, Last(path))
      modifies this
      ensures Valid() && path == old(path) && inStack == old(inStack)
      ensures old(visited) <= visited && node in finished
      ensures old(finished) <= finished && old(cycles) <= cycles
      ensures ClosedOutside(cycles, |old(cycles)|, old(visited))
      decreases Nodes(graph) - visited
    {
      hide SuccessorsFirst, IsSimpleCycle, Distinct, IsWalk, Succ, Nodes, Closes, ClosedOnce, ClosedFrom;
      hide ClosedOutside, NotYetClosed, Explored, ClosingEdge;
      ghost var outside := visited;
      NothingExplored(graph, node, finished, cycles, visited);
      Enter(node);
      ghost var start := path;
      var todo := Succ(graph, node);
      while todo != {}
        invariant todo <= Succ(graph, node)
        invariant Valid() && path == start && inStack == old(inStack) + {node}
        invariant outside + {node} <= visited
        invariant old(finished) <= finished && old(cycles) <= cycles
        invariant Explored(graph, node, todo, finished, cycles) && NotYetClosed(cycles, node, todo)
        invariant ClosedOutside(cycles, |old(cycles)|, outside)
        decreases todo
      {
        var neighbor :| neighbor in todo;
        ghost var before, finishedBefore, visitedBefore := cycles, finished, visited;
        if neighbor !in visited {
          SuccInNodes(graph, node, neighbor);
          Dfs(neighbor);
          ClosedByOthers(before, cycles, node, todo, visitedBefore);
          StaysOutside(before, cycles, |old(cycles)|, outside, visitedBefore);
          NotClosedYet(cycles, node, todo, neighbor);
        } else if neighbor in inStack {
          NotClosedYet(cycles, node, todo, neighbor);
          Close(neighbor);
          ClosedByNode(before, Last(cycles), node, todo, |old(cycles)|, outside);
        } else {
          NotClosedYet(cycles, node, todo, neighbor);
        }
        ExploredGrows(graph, node, todo, finishedBefore, before, neighbor, finished, cycles);
        todo := todo - {neighbor};
      }
      AllExplored(graph, node, finished, cycles);
      Leave(node);
    }
  }

  lemma SuccInNodes(g: Graph, n: string, m: string)
    requires m in Succ(g, n)
    ensures m in Nodes(g)
  {
  }

  /**
  Every list it returns is a genuine simple cycle, no edge closes two of them, and every directed
  cycle of the graph, self-loops included, passes the closing edge of one. So the result is empty
  exactly when there is no cycle.
  */
  method FindCycles(g: Graph) returns (cycles: seq<seq<string>>)
    ensures cycles == [] <==> !HasCycle(g)
    ensures forall c :: c in cycles ==> IsSimpleCycle(g, c)
    ensures forall c :: IsCycle(g, c) ==>
              exists i, r :: 0 <= i < |c| - 1 && r in cycles && |r| >= 2 && r[|r| - 2] == c[i] && Last(r) == c[i + 1]
    ensures ClosedOnce(cycles)
  {
    var f := new CycleFinder(g);
    var todo := g.Keys;
    while todo != {}
      invariant f.Valid() && f.graph == g && f.path == [] && todo <= g.Keys
      invariant forall n :: n in g && n !in todo ==> n in f.finished
      decreases todo
    {
      var node :| node in todo;
      todo := todo - {node};
      if node !in f.visited {
        f.Dfs(node);
      }
    }
    cycles := f.cycles;
    forall c | IsCycle(g, c) ensures Passes(cycles, c) {
      EveryCyclePasses(g, f.finished, cycles, c);
    }
    if cycles != [] {
      assert cycles[0] in cycles;
    }
  }
}
