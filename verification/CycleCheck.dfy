/** The compiler's cycle check: Kahn's algorithm over adjacency lists and in-degrees. */
module CycleCheck {
  import opened Pigeonhole
  import opened TaskGraph

  type Edge = (Id, Id)

  // ---------- the edge list the validator walks, one entry per depends_on entry

  ghost function NodeEdges(n: TaskNode): (es: seq<Edge>)
    ensures |es| == |n.dependsOn|
  {
    seq(|n.dependsOn|, j requires 0 <= j < |n.dependsOn| => (n.dependsOn[j], n.taskId))
  }

  ghost function Edges(nodes: seq<TaskNode>): seq<Edge> {
    if nodes == [] then [] else Edges(nodes[..|nodes| - 1]) + NodeEdges(nodes[|nodes| - 1])
  }

  lemma {:induction false} EdgeIffArc(nodes: seq<TaskNode>, u: Id, v: Id)
    ensures (u, v) in Edges(nodes) <==> Arc(nodes, u, v)
    decreases |nodes|
  {
    if nodes != [] {
      var init, last := nodes[..|nodes| - 1], nodes[|nodes| - 1];
      EdgeIffArc(init, u, v);
      assert nodes == init + [last];
      assert (u, v) in NodeEdges(last) <==> last.taskId == v && u in last.dependsOn by {
        if last.taskId == v && u in last.dependsOn {
          var j :| 0 <= j < |last.dependsOn| && last.dependsOn[j] == u;
          assert NodeEdges(last)[j] == (u, v);
        }
      }
      assert Arc(nodes, u, v) <==> Arc(init, u, v) || (last.taskId == v && u in last.dependsOn) by {
        if Arc(init, u, v) {
          var n :| n in init && n.taskId == v && u in n.dependsOn;
          assert n in nodes;
        }
        if last.taskId == v && u in last.dependsOn { assert last in nodes; }
      }
    }
  }

  ghost function Sources(es: seq<Edge>): set<Id> { set i | 0 <= i < |es| :: es[i].0 }

  /** The adjacency list of u. */
  ghost function Targets(es: seq<Edge>, u: Id): seq<Id> {
    if es == [] then []
    else var e := es[|es| - 1]; Targets(es[..|es| - 1], u) + (if e.0 == u then [e.1] else [])
  }

  /** How many edges into v come from outside `done`. */
  ghost function Pending(es: seq<Edge>, v: Id, done: set<Id>): nat {
    if es == [] then 0
    else var e := es[|es| - 1]; Pending(es[..|es| - 1], v, done) + (if e.1 == v && e.0 !in done then 1 else 0)
  }

  ghost function Count(s: seq<Id>, v: Id): nat {
    if s == [] then 0 else Count(s[..|s| - 1], v) + (if s[|s| - 1] == v then 1 else 0)
  }

  lemma Snoc(es: seq<Edge>, e: Edge)
    ensures forall u :: Targets(es + [e], u) == Targets(es, u) + (if e.0 == u then [e.1] else [])
    ensures forall v :: Pending(es + [e], v, {}) == Pending(es, v, {}) + (if e.1 == v then 1 else 0)
    ensures Sources(es + [e]) == Sources(es) + {e.0}
  {
    var es' := es + [e];
    assert es'[..|es'| - 1] == es;
    assert Sources(es') == Sources(es) + {e.0} by {
      assert es'[|es|].0 == e.0;
      forall u | u in Sources(es) ensures u in Sources(es') {
        var i :| 0 <= i < |es| && es[i].0 == u;
        assert es'[i].0 == u;
      }
    }
  }

  lemma {:induction false} PendingZero(es: seq<Edge>, v: Id, done: set<Id>)
    ensures Pending(es, v, done) == 0 <==> forall u :: (u, v) in es ==> u in done
    decreases |es|
  {
    if es != [] {
      var init, e := es[..|es| - 1], es[|es| - 1];
      assert es == init + [e];
      PendingZero(init, v, done);
      if Pending(es, v, done) != 0 {
        if Pending(init, v, done) != 0 {
          var u :| (u, v) in init && u !in done;
          assert (u, v) in es;
        } else {
          assert (e.0, v) in es && e.0 !in done;
        }
      }
    }
  }

  lemma {:induction false} CountSnoc(s: seq<Id>, k: nat, v: Id)
    requires k < |s|
    ensures Count(s[..k + 1], v) == Count(s[..k], v) + (if s[k] == v then 1 else 0)
    ensures Count(s[..k + 1], v) <= Count(s, v)
    decreases |s| - k
  {
    assert s[..k + 1][..k] == s[..k];
    if k + 1 < |s| { CountSnoc(s, k + 1, v); } else { assert s[..k + 1] == s; }
  }

  /** Finishing u takes away exactly its edges. */
  lemma {:induction false} PendingStep(es: seq<Edge>, v: Id, done: set<Id>, u: Id)
    requires u !in done
    ensures Pending(es, v, done) == Pending(es, v, done + {u}) + Count(Targets(es, u), v)
    decreases |es|
  {
    if es != [] {
      var init, e := es[..|es| - 1], es[|es| - 1];
      PendingStep(init, v, done, u);
      var t := Targets(es, u);
      if e.0 == u {
        assert t[..|t| - 1] == Targets(init, u);
      } else {
        assert t == Targets(init, u);
      }
    }
  }

  lemma {:induction false} TargetsAreArcs(es: seq<Edge>, u: Id, v: Id)
    ensures v in Targets(es, u) <==> (u, v) in es
    decreases |es|
  {
    if es != [] {
      var init, e := es[..|es| - 1], es[|es| - 1];
      assert es == init + [e];
      TargetsAreArcs(init, u, v);
    }
  }

  // ---------- building the maps

  ghost function Lookup(adj: map<Id, seq<Id>>, u: Id): seq<Id> { if u in adj then adj[u] else [] }

  ghost predicate Represents(adj: map<Id, seq<Id>>, nodes: seq<TaskNode>, es: seq<Edge>) {
    && adj.Keys == Declared(nodes) + Sources(es)
    && forall u :: Lookup(adj, u) == Targets(es, u)
  }

  ghost predicate Degrees(inDegree: map<Id, int>, nodes: seq<TaskNode>, es: seq<Edge>, done: set<Id>) {
    && inDegree.Keys == Declared(nodes)
    && forall v :: v in inDegree ==> inDegree[v] == Pending(es, v, done)
  }

  ghost predicate Maps(adj: map<Id, seq<Id>>, inDegree: map<Id, int>, nodes: seq<TaskNode>, es: seq<Edge>) {
    Represents(adj, nodes, es) && Degrees(inDegree, nodes, es, {})
  }

  lemma AddArc(adj: map<Id, seq<Id>>, nodes: seq<TaskNode>, es: seq<Edge>, dep: Id, id: Id)
    requires Represents(adj, nodes, es)
    ensures Represents(adj[dep := Lookup(adj, dep) + [id]], nodes, es + [(dep, id)])
  {
    hide Declared, Targets, Sources;
    Snoc(es, (dep, id));
    var adj' := adj[dep := Lookup(adj, dep) + [id]];
    assert adj'.Keys == adj.Keys + {dep};
    forall u ensures Lookup(adj', u) == Targets(es + [(dep, id)], u) {
      assert Lookup(adj, u) == Targets(es, u);
    }
  }

  lemma AddEdge(adj: map<Id, seq<Id>>, inDegree: map<Id, int>, nodes: seq<TaskNode>, es: seq<Edge>, dep: Id, id: Id)
    requires Maps(adj, inDegree, nodes, es) && id in Declared(nodes)
    ensures Maps(adj[dep := Lookup(adj, dep) + [id]], inDegree[id := inDegree[id] + 1], nodes, es + [(dep, id)])
  {
    hide Declared, Represents, Pending;
    AddArc(adj, nodes, es, dep, id);
    Snoc(es, (dep, id));
  }

  lemma DeclaredPrefix(nodes: seq<TaskNode>, i: nat)
    requires i < |nodes|
    ensures Declared(nodes[..i + 1]) == Declared(nodes[..i]) + {nodes[i].taskId}
    ensures nodes[i].taskId in Declared(nodes)
  {
    var p := nodes[..i + 1];
    assert p[i].taskId == nodes[i].taskId;
    forall u | u in Declared(nodes[..i]) ensures u in Declared(p) {
      var j :| 0 <= j < i && nodes[..i][j].taskId == u;
      assert p[j].taskId == u;
    }
    forall u | u in Declared(p) ensures u in Declared(nodes[..i]) || u == nodes[i].taskId {
      var j :| 0 <= j < i + 1 && p[j].taskId == u;
      if j < i { assert nodes[..i][j].taskId == u; }
    }
  }

  method Declare(nodes: seq<TaskNode>) returns (adj: map<Id, seq<Id>>, inDegree: map<Id, int>)
    ensures Maps(adj, inDegree, nodes, [])
  {
    hide Declared;
    adj, inDegree := map[], map[];
    assert Declared(nodes[..0]) == {} by { DeclaredNone(nodes); }
    for i := 0 to |nodes|
      invariant adj.Keys == inDegree.Keys == Declared(nodes[..i])
      invariant forall u :: u in adj ==> adj[u] == []
      invariant forall u :: u in inDegree ==> inDegree[u] == 0
    {
      DeclaredPrefix(nodes, i);
      if nodes[i].taskId !in adj {
        adj := adj[nodes[i].taskId := []];
      }
      if nodes[i].taskId !in inDegree {
        inDegree := inDegree[nodes[i].taskId := 0];
      }
    }
    assert nodes[..|nodes|] == nodes;
  }

  lemma DeclaredNone(nodes: seq<TaskNode>)
    ensures Declared(nodes[..0]) == {}
  {}

  /** The declaration loop and the edge loop of has_cycle. */
  method BuildMaps(nodes: seq<TaskNode>) returns (adj: map<Id, seq<Id>>, inDegree: map<Id, int>)
    ensures Maps(adj, inDegree, nodes, Edges(nodes))
  {
    hide Declared, Maps, Edges;
    adj, inDegree := Declare(nodes);
    assert Edges(nodes[..0]) == [] by { EdgesSteps(nodes); }
    for i := 0 to |nodes|
      invariant Maps(adj, inDegree, nodes, Edges(nodes[..i]))
    {
      var node := nodes[i];
      ghost var es := Edges(nodes[..i]);
      DeclaredPrefix(nodes, i);
      assert es + NodeEdges(node)[..0] == es;
      for j := 0 to |node.dependsOn|
        invariant Maps(adj, inDegree, nodes, es + NodeEdges(node)[..j])
      {
        var dep := node.dependsOn[j];
        AddEdge(adj, inDegree, nodes, es + NodeEdges(node)[..j], dep, node.taskId);
        assert es + NodeEdges(node)[..j + 1] == es + NodeEdges(node)[..j] + [(dep, node.taskId)];
        assert node.taskId in inDegree by { MapsKeys(adj, inDegree, nodes, es + NodeEdges(node)[..j]); }
        adj := adj[dep := (if dep in adj then adj[dep] else []) + [node.taskId]];
        inDegree := inDegree[node.taskId := inDegree[node.taskId] + 1];
      }
      EdgesSteps(nodes);
      assert NodeEdges(node)[..|node.dependsOn|] == NodeEdges(node);
    }
    assert nodes[..|nodes|] == nodes;
  }

  lemma MapsKeys(adj: map<Id, seq<Id>>, inDegree: map<Id, int>, nodes: seq<TaskNode>, es: seq<Edge>)
    requires Maps(adj, inDegree, nodes, es)
    ensures inDegree.Keys == Declared(nodes)
  {}

  lemma EdgesSteps(nodes: seq<TaskNode>)
    ensures Edges(nodes[..0]) == []
    ensures forall i :: 0 <= i < |nodes| ==> Edges(nodes[..i + 1]) == Edges(nodes[..i]) + NodeEdges(nodes[i])
  {
    forall i | 0 <= i < |nodes| ensures Edges(nodes[..i + 1]) == Edges(nodes[..i]) + NodeEdges(nodes[i]) {
      assert nodes[..i + 1][..i] == nodes[..i];
    }
  }

  // ---------- Kahn's algorithm

  ghost function Elements(s: seq<Id>): set<Id> { set v | v in s }

  /** `seen` lists, once each, exactly the declared ids whose count has reached zero. */
  ghost predicate Released(inDegree: map<Id, int>, seen: seq<Id>) {
    NoDuplicates(seen) && forall v :: v in seen <==> v in inDegree && inDegree[v] == 0
  }

  ghost predicate Settled(nodes: seq<TaskNode>, inDegree: map<Id, int>, order: seq<Id>, queue: seq<Id>) {
    && Degrees(inDegree, nodes, Edges(nodes), Elements(order))
    && Released(inDegree, order + queue)
    && Ordered(nodes, order)
  }

  /** While u is being finished, k of its targets have been decremented. */
  ghost predicate Draining(nodes: seq<TaskNode>, inDegree: map<Id, int>, done: set<Id>, u: Id, k: nat, seen: seq<Id>)
    requires k <= |Targets(Edges(nodes), u)|
  {
    && inDegree.Keys == Declared(nodes)
    && (forall v :: v in inDegree ==>
          inDegree[v] == Pending(Edges(nodes), v, done) - Count(Targets(Edges(nodes), u)[..k], v))
    && Released(inDegree, seen)
  }

  lemma DrainStep(nodes: seq<TaskNode>, inDegree: map<Id, int>, done: set<Id>, u: Id, k: nat, seen: seq<Id>)
    requires u !in done && k < |Targets(Edges(nodes), u)|
    requires Draining(nodes, inDegree, done, u, k, seen)
    ensures var v := Targets(Edges(nodes), u)[k];
            && v in inDegree
            && var inDegree' := inDegree[v := inDegree[v] - 1];
            && Draining(nodes, inDegree', done, u, k + 1, if inDegree'[v] == 0 then seen + [v] else seen)
  {
    hide Pending, Count, Edges, Targets, Declared, Arc;
    var es := Edges(nodes);
    var t := Targets(es, u);
    var v := t[k];
    TargetsAreArcs(es, u, v);
    EdgeIffArc(nodes, u, v);
    ArcEnds(nodes, u, v);
    PendingStep(es, v, done, u);
    forall w ensures Count(t[..k + 1], w) == Count(t[..k], w) + (if t[k] == w then 1 else 0)
             ensures Count(t[..k + 1], w) <= Count(t, w) { CountSnoc(t, k, w); }
    assert inDegree[v] >= 1;
    assert v !in seen;
  }

  lemma DrainStart(nodes: seq<TaskNode>, inDegree: map<Id, int>, order: seq<Id>, queue: seq<Id>)
    requires Settled(nodes, inDegree, order, queue) && queue != []
    ensures Draining(nodes, inDegree, Elements(order), queue[0], 0, order + [queue[0]] + queue[1..])
    ensures queue[0] !in order && Ordered(nodes, order + [queue[0]])
    ensures queue[0] in Declared(nodes)
  {
    hide Pending, Edges, Targets, Declared, Arc, Ordered;
    var u := queue[0];
    assert order + [u] + queue[1..] == order + queue;
    assert Count(Targets(Edges(nodes), u)[..0], u) == 0;
    assert (order + queue)[|order|] == u;
    assert u in order + queue;
    forall i | 0 <= i < |order| ensures order[i] != u {
      assert (order + queue)[i] == order[i];
    }
    PendingZero(Edges(nodes), u, Elements(order));
    forall w | Arc(nodes, w, u) ensures w in order { EdgeIffArc(nodes, w, u); }
    OrderedSnoc(nodes, order, u);
  }

  lemma DrainEnd(nodes: seq<TaskNode>, inDegree: map<Id, int>, order: seq<Id>, u: Id, queue: seq<Id>)
    requires u !in order && Ordered(nodes, order + [u])
    requires var t := Targets(Edges(nodes), u);
             Draining(nodes, inDegree, Elements(order), u, |t|, order + [u] + queue)
    ensures Settled(nodes, inDegree, order + [u], queue)
  {
    hide Pending, Count, Edges, Targets, Declared, Arc, Ordered, Released;
    var es := Edges(nodes);
    var t := Targets(es, u);
    assert t[..|t|] == t;
    assert Elements(order + [u]) == Elements(order) + {u};
    forall v | v in inDegree ensures inDegree[v] == Pending(es, v, Elements(order + [u])) {
      PendingStep(es, v, Elements(order), u);
    }
  }

  /** The queue starts with the ids of in-degree zero; std::map order does not matter. */
  method InitialQueue(inDegree: map<Id, int>) returns (queue: seq<Id>)
    ensures Released(inDegree, queue)
  {
    queue := [];
    var ids := inDegree.Keys;
    while ids != {}
      invariant ids <= inDegree.Keys && NoDuplicates(queue)
      invariant forall v :: v in queue <==> v in inDegree && v !in ids && inDegree[v] == 0
      decreases |ids|
    {
      var id :| id in ids;
      ids := ids - {id};
      if inDegree[id] == 0 {
        queue := queue + [id];
      }
    }
  }

  lemma DeclaredIff(nodes: seq<TaskNode>)
    ensures AllDeclared(nodes) <==>
      forall n, d :: n in nodes && d in n.dependsOn ==> exists m :: m in nodes && m.taskId == d
  {
    if AllDeclared(nodes) {
      forall n, d | n in nodes && d in n.dependsOn ensures exists m :: m in nodes && m.taskId == d {
        var i :| 0 <= i < |nodes| && nodes[i] == n;
        var j :| 0 <= j < |n.dependsOn| && n.dependsOn[j] == d;
        assert nodes[i].dependsOn[j] in Vertices(nodes);
        var k :| 0 <= k < |nodes| && nodes[k].taskId == d;
        assert nodes[k] in nodes;
      }
    }
    if forall n, d :: n in nodes && d in n.dependsOn ==> exists m :: m in nodes && m.taskId == d {
      forall i, j | 0 <= i < |nodes| && 0 <= j < |nodes[i].dependsOn|
        ensures nodes[i].dependsOn[j] in Declared(nodes)
      {
        var d := nodes[i].dependsOn[j];
        assert nodes[i] in nodes && d in nodes[i].dependsOn;
        var m :| m in nodes && m.taskId == d;
        var k :| 0 <= k < |nodes| && nodes[k] == m;
      }
    }
  }

  lemma AcyclicIff(nodes: seq<TaskNode>)
    ensures Acyclic(nodes) <==> forall p :: IsPath(nodes, p) && |p| >= 2 ==> p[0] != p[|p| - 1]
  {}

  method HasCycle(nodes: seq<TaskNode>) returns (r: bool)
    ensures r <==> !(AllDeclared(nodes) && Acyclic(nodes))
    ensures !r <==>
      && (forall n, d :: n in nodes && d in n.dependsOn ==> exists m :: m in nodes && m.taskId == d)
      && (forall p :: IsPath(nodes, p) && |p| >= 2 ==> p[0] != p[|p| - 1])
  {
    DeclaredIff(nodes);
    AcyclicIff(nodes);
    hide Declared, Edges, Targets, Pending, Arc, Vertices, Acyclic, AllDeclared, Draining, Settled, Maps;
    var adj, inDegree := BuildMaps(nodes);
    assert Represents(adj, nodes, Edges(nodes)) && Degrees(inDegree, nodes, Edges(nodes), {}) by {
      MapsParts(adj, inDegree, nodes, Edges(nodes));
    }
    ghost var adj0 := adj;
    var queue := InitialQueue(inDegree);
    ghost var order: seq<Id> := [];
    SettledStart(nodes, inDegree, queue);
    var visited := 0;
    while queue != []
      invariant Settled(nodes, inDegree, order, queue)
      invariant visited == |order|
      decreases |Declared(nodes)| - |order|
    {
      DrainStart(nodes, inDegree, order, queue);
      var u := queue[0];
      queue := queue[1..];
      visited := visited + 1;
      ghost var t := Targets(Edges(nodes), u);
      var targets := if u in adj then adj[u] else [];
      assert targets == t by { assert Lookup(adj, u) == t; }
      for k := 0 to |targets|
        invariant Draining(nodes, inDegree, Elements(order), u, k, order + [u] + queue)
      {
        DrainStep(nodes, inDegree, Elements(order), u, k, order + [u] + queue);
        var v := targets[k];
        inDegree := inDegree[v := inDegree[v] - 1];
        if inDegree[v] == 0 {
          assert order + [u] + queue + [v] == order + [u] + (queue + [v]);
          queue := queue + [v];
        }
      }
      DrainEnd(nodes, inDegree, order, u, queue);
      SettledBound(nodes, inDegree, order + [u], queue);
      order := order + [u];
    }
    Verdict(nodes, adj, inDegree, order);
    r := visited != |adj|;
  }

  lemma MapsParts(adj: map<Id, seq<Id>>, inDegree: map<Id, int>, nodes: seq<TaskNode>, es: seq<Edge>)
    requires Maps(adj, inDegree, nodes, es)
    ensures Represents(adj, nodes, es) && Degrees(inDegree, nodes, es, {})
  {}

  lemma SettledStart(nodes: seq<TaskNode>, inDegree: map<Id, int>, queue: seq<Id>)
    requires Degrees(inDegree, nodes, Edges(nodes), {}) && Released(inDegree, queue)
    ensures Settled(nodes, inDegree, [], queue)
  {
    assert [] + queue == queue;
    assert Elements([]) == {};
  }

  lemma SettledBound(nodes: seq<TaskNode>, inDegree: map<Id, int>, order: seq<Id>, queue: seq<Id>)
    requires Settled(nodes, inDegree, order, queue)
    ensures |order| <= |Declared(nodes)|
  {
    hide Declared, Edges, Arc, Pending;
    forall i | 0 <= i < |order| ensures order[i] in Declared(nodes) {
      assert order[i] in order + queue;
    }
    FitsInSet(order, Declared(nodes));
  }

  /** With the queue empty, everything was visited exactly when all is declared and acyclic. */
  lemma Verdict(nodes: seq<TaskNode>, adj: map<Id, seq<Id>>, inDegree: map<Id, int>, order: seq<Id>)
    requires Represents(adj, nodes, Edges(nodes)) && Settled(nodes, inDegree, order, [])
    ensures |order| == |adj| <==> AllDeclared(nodes) && Acyclic(nodes)
  {
    hide Edges, Targets, Pending, Arc, Declared, Acyclic, Ordered;
    assert order + [] == order;
    SourcesAreVertices(nodes);
    assert adj.Keys == Vertices(nodes);
    assert forall v :: v in order ==> v in Declared(nodes);
    DistinctSize(order);
    if |order| == |adj| {
      SubsetSize(Elements(order), adj.Keys);
      OrderedIsAcyclic(nodes, order);
    } else if AllDeclared(nodes) {
      var rest := Vertices(nodes) - Elements(order);
      assert rest != {};
      forall v | v in rest ensures HasPredecessorIn(nodes, rest, v) {
        PendingZero(Edges(nodes), v, Elements(order));
        var u :| (u, v) in Edges(nodes) && u !in Elements(order);
        EdgeIffArc(nodes, u, v);
        ArcEnds(nodes, u, v);
      }
      StuckSetHasCycle(nodes, rest);
    }
  }

  lemma SourcesAreVertices(nodes: seq<TaskNode>)
    ensures Declared(nodes) + Sources(Edges(nodes)) == Vertices(nodes)
  {
    hide Edges, Arc;
    var es := Edges(nodes);
    forall u | u in Sources(es) ensures u in Vertices(nodes) {
      var i :| 0 <= i < |es| && es[i].0 == u;
      EdgeIffArc(nodes, u, es[i].1);
      ArcEnds(nodes, u, es[i].1);
    }
    forall u | u in Vertices(nodes) ensures u in Declared(nodes) || u in Sources(es) {
      if u !in Declared(nodes) {
        var i, j :| 0 <= i < |nodes| && 0 <= j < |nodes[i].dependsOn| && nodes[i].dependsOn[j] == u;
        ArcOf(nodes, i, u);
        EdgeIffArc(nodes, u, nodes[i].taskId);
        var k :| 0 <= k < |es| && es[k] == (u, nodes[i].taskId);
        assert es[k].0 == u;
      }
    }
  }

  lemma ArcOf(nodes: seq<TaskNode>, i: nat, u: Id)
    requires i < |nodes| && u in nodes[i].dependsOn
    ensures Arc(nodes, u, nodes[i].taskId)
  {
    assert nodes[i] in nodes;
  }

  lemma {:induction false} DistinctSize(s: seq<Id>)
    requires NoDuplicates(s)
    ensures |Elements(s)| == |s|
    decreases |s|
  {
    if s != [] {
      var n := |s| - 1;
      DistinctSize(s[..n]);
      assert s == s[..n] + [s[n]];
      assert Elements(s) == Elements(s[..n]) + {s[n]};
    }
  }

  lemma SubsetSize(A: set<Id>, B: set<Id>)
    requires A <= B && |A| == |B|
    ensures A == B
  {
    assert B == A + (B - A);
    assert |B| == |A| + |B - A|;
  }
}
