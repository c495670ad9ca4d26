/**
 Execution graphs: nodes that name the ids they depend on.
 An arc goes from a dependency to the node that needs it.
 */
module TaskGraph {
  import opened Pigeonhole

  type Id = string

  datatype TaskNode = TaskNode(taskId: Id, dependsOn: seq<Id>, parameters: string)

  ghost predicate Arc(nodes: seq<TaskNode>, u: Id, v: Id) {
    exists n :: n in nodes && n.taskId == v && u in n.dependsOn
  }

  /** The ids the graph declares. */
  ghost function Declared(nodes: seq<TaskNode>): set<Id> { set i | 0 <= i < |nodes| :: nodes[i].taskId }

  /** Everything an arc can touch: declared ids and dependencies, declared or not. */
  ghost function Vertices(nodes: seq<TaskNode>): set<Id> {
    Declared(nodes) + (set i, j | 0 <= i < |nodes| && 0 <= j < |nodes[i].dependsOn| :: nodes[i].dependsOn[j])
  }

  ghost predicate AllDeclared(nodes: seq<TaskNode>) { Vertices(nodes) == Declared(nodes) }

  lemma ArcEnds(nodes: seq<TaskNode>, u: Id, v: Id)
    requires Arc(nodes, u, v)
    ensures u in Vertices(nodes) && v in Declared(nodes)
  {
    var n :| n in nodes && n.taskId == v && u in n.dependsOn;
    var i :| 0 <= i < |nodes| && nodes[i] == n;
    var j :| 0 <= j < |n.dependsOn| && n.dependsOn[j] == u;
    assert nodes[i].dependsOn[j] == u;
  }

  // ---------- paths, cycles and topological orders

  ghost predicate IsPath(nodes: seq<TaskNode>, p: seq<Id>) {
    |p| > 0 && forall i :: 0 <= i < |p| - 1 ==> Arc(nodes, p[i], p[i + 1])
  }

  ghost predicate Acyclic(nodes: seq<TaskNode>) {
    forall p :: IsPath(nodes, p) && |p| >= 2 ==> p[0] != p[|p| - 1]
  }

  /** Every dependency of an element of the list is in the list, before it. */
  ghost predicate Ordered(nodes: seq<TaskNode>, order: seq<Id>) {
    && NoDuplicates(order)
    && forall u, i :: 0 <= i < |order| && Arc(nodes, u, order[i]) ==> u in order[..i]
  }

  ghost predicate TopologicalOrder(nodes: seq<TaskNode>, order: seq<Id>) {
    Ordered(nodes, order) && (forall v :: v in order <==> v in Vertices(nodes))
  }

  ghost function Position(order: seq<Id>, v: Id): nat
    ensures v in order ==> Position(order, v) < |order| && order[Position(order, v)] == v
  {
    if v in order then var i :| 0 <= i < |order| && order[i] == v; i else |order|
  }

  lemma ArcAdvances(nodes: seq<TaskNode>, order: seq<Id>, u: Id, v: Id)
    requires TopologicalOrder(nodes, order) && Arc(nodes, u, v)
    ensures u in order && v in order && Position(order, u) < Position(order, v)
  {
    ArcEnds(nodes, u, v);
    var i := Position(order, v);
    assert u in order[..i];
    var j :| 0 <= j < i && order[j] == u;
    assert order[Position(order, u)] == order[j];
  }

  lemma {:induction false} PathAdvances(nodes: seq<TaskNode>, order: seq<Id>, p: seq<Id>)
    requires TopologicalOrder(nodes, order) && IsPath(nodes, p) && |p| >= 2
    ensures Position(order, p[0]) < Position(order, p[|p| - 1])
    decreases |p|
  {
    var n := |p| - 1;
    assert Arc(nodes, p[n - 1], p[n]);
    ArcAdvances(nodes, order, p[n - 1], p[n]);
    if n >= 2 {
      assert IsPath(nodes, p[..n]) by {
        forall i | 0 <= i < n - 1 ensures Arc(nodes, p[..n][i], p[..n][i + 1]) {
          assert Arc(nodes, p[i], p[i + 1]);
        }
      }
      PathAdvances(nodes, order, p[..n]);
    }
  }

  lemma OrderedIsAcyclic(nodes: seq<TaskNode>, order: seq<Id>)
    requires TopologicalOrder(nodes, order)
    ensures Acyclic(nodes)
  {
    forall p | IsPath(nodes, p) && |p| >= 2 ensures p[0] != p[|p| - 1] {
      PathAdvances(nodes, order, p);
    }
  }

  ghost predicate HasPredecessorIn(nodes: seq<TaskNode>, S: set<Id>, v: Id) {
    exists u :: u in S && Arc(nodes, u, v)
  }

  lemma Predecessor(nodes: seq<TaskNode>, S: set<Id>, v: Id) returns (u: Id)
    requires HasPredecessorIn(nodes, S, v)
    ensures u in S && Arc(nodes, u, v)
  {
    u :| u in S && Arc(nodes, u, v);
  }

  ghost predicate Stuck(nodes: seq<TaskNode>, S: set<Id>) {
    S != {} && forall v :: v in S ==> HasPredecessorIn(nodes, S, v)
  }

  /** In a set where everything has a predecessor, paths of any length run backwards. */
  lemma {:induction false} BackwardPath(nodes: seq<TaskNode>, S: set<Id>, n: nat) returns (p: seq<Id>)
    requires Stuck(nodes, S) && n > 0
    ensures IsPath(nodes, p) && |p| == n && forall i :: 0 <= i < n ==> p[i] in S
    decreases n
  {
    hide Arc, HasPredecessorIn;
    if n == 1 {
      var v :| v in S;
      p := [v];
    } else {
      var q := BackwardPath(nodes, S, n - 1);
      assert q[0] in S;
      var u := Predecessor(nodes, S, q[0]);
      p := [u] + q;
      forall i | 0 <= i < |p| - 1 ensures Arc(nodes, p[i], p[i + 1]) {
        if i > 0 { assert Arc(nodes, q[i - 1], q[i]); }
      }
    }
  }

  /** A nonempty set where everything has a predecessor contains a cycle. */
  lemma StuckSetHasCycle(nodes: seq<TaskNode>, S: set<Id>)
    requires Stuck(nodes, S)
    ensures !Acyclic(nodes)
  {
    hide Arc, Stuck;
    var p := BackwardPath(nodes, S, |S| + 1);
    if NoDuplicates(p) {
      FitsInSet(p, S);
      assert false;
    }
    var i, j :| 0 <= i < j < |p| && p[i] == p[j];
    var cycle := p[i..j + 1];
    forall k | 0 <= k < |cycle| - 1 ensures Arc(nodes, cycle[k], cycle[k + 1]) {
      assert Arc(nodes, p[i + k], p[i + k + 1]);
    }
    assert IsPath(nodes, cycle) && cycle[0] == cycle[|cycle| - 1];
  }

  lemma OrderedSnoc(nodes: seq<TaskNode>, order: seq<Id>, v: Id)
    requires Ordered(nodes, order) && v !in order
    requires forall u :: Arc(nodes, u, v) ==> u in order
    ensures Ordered(nodes, order + [v])
  {
    hide Arc;
    var longer := order + [v];
    forall u, i | 0 <= i < |longer| && Arc(nodes, u, longer[i]) ensures u in longer[..i] {
      if i < |order| {
        assert longer[i] == order[i] && longer[..i] == order[..i];
      } else {
        assert longer[..i] == order;
      }
    }
  }

  /** An acyclic graph always offers a next vertex whose dependencies are already listed. */
  lemma NextVertex(nodes: seq<TaskNode>, order: seq<Id>) returns (v: Id)
    requires Acyclic(nodes)
    requires exists v :: v in Vertices(nodes) && v !in order
    ensures v in Vertices(nodes) && v !in order && forall u :: Arc(nodes, u, v) ==> u in order
  {
    hide Arc, Acyclic, Vertices;
    var rest := set v | v in Vertices(nodes) && v !in order;
    var w :| w in Vertices(nodes) && w !in order;
    assert w in rest;
    if Stuck(nodes, rest) {
      StuckSetHasCycle(nodes, rest);
      assert false;
    }
    v :| v in rest && !HasPredecessorIn(nodes, rest, v);
    forall u | Arc(nodes, u, v) ensures u in order { ArcEnds(nodes, u, v); }
  }

  lemma {:induction false} ExtendOrder(nodes: seq<TaskNode>, order: seq<Id>) returns (full: seq<Id>)
    requires Acyclic(nodes) && Ordered(nodes, order)
    requires forall v :: v in order ==> v in Vertices(nodes)
    ensures TopologicalOrder(nodes, full)
    decreases |Vertices(nodes)| - |order|
  {
    hide Arc, Acyclic, Vertices;
    if exists v :: v in Vertices(nodes) && v !in order {
      var v := NextVertex(nodes, order);
      OrderedSnoc(nodes, order, v);
      FitsInSet(order + [v], Vertices(nodes));
      full := ExtendOrder(nodes, order + [v]);
    } else {
      full := order;
    }
  }

  /** A finite graph has no cycle exactly when its vertices can be listed dependencies first. */
  lemma AcyclicIffOrdered(nodes: seq<TaskNode>)
    ensures Acyclic(nodes) <==> exists order :: TopologicalOrder(nodes, order)
  {
    if Acyclic(nodes) {
      var order := ExtendOrder(nodes, []);
    } else {
      forall order | TopologicalOrder(nodes, order) ensures false { OrderedIsAcyclic(nodes, order); }
    }
  }
}
