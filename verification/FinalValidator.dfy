/** The compiler's final validation of an execution graph. */
module FinalValidator {
  import opened Results
  import opened TaskGraph
  import opened CycleCheck
  import opened DepthSearch

  datatype Config = Config(maxDepth: nat, maxNodes: nat, rejectCycles: bool)

  const DEFAULT_CONFIG := Config(64, 1024, true)

  /** Some path that starts at a declared task has more than the allowed number of arcs. */
  ghost predicate TooDeep(nodes: seq<TaskNode>, maxDepth: nat) {
    exists p :: IsPath(nodes, p) && p[0] in Declared(nodes) && |p| - 1 > maxDepth
  }

  ghost predicate DeepFrom(nodes: seq<TaskNode>, u: Id, maxDepth: nat) {
    exists p :: PathFrom(nodes, u, p) && |p| - 1 > maxDepth
  }

  ghost function ValidateSpec(nodes: seq<TaskNode>, cfg: Config): Result<seq<TaskNode>> {
    if nodes == [] then Err(10)
    else if |nodes| > cfg.maxNodes then Err(11)
    else if cfg.rejectCycles && !(AllDeclared(nodes) && Acyclic(nodes)) then Err(12)
    else if TooDeep(nodes, cfg.maxDepth) then Err(13)
    else Ok(nodes)
  }

  /** Before any listed task that reaches a cycle comes one that reaches none and is too deep. */
  ghost predicate StopsInTime(nodes: seq<TaskNode>, maxDepth: nat) {
    forall i :: 0 <= i < |nodes| && ReachesCycle(nodes, nodes[i].taskId) ==>
      exists j :: 0 <= j < i && !ReachesCycle(nodes, nodes[j].taskId) && DeepFrom(nodes, nodes[j].taskId, maxDepth)
  }

  /** Exactly the calls of validate that return. */
  ghost predicate Ends(nodes: seq<TaskNode>, cfg: Config) {
    nodes == [] || |nodes| > cfg.maxNodes || cfg.rejectCycles || StopsInTime(nodes, cfg.maxDepth)
  }

  /** The depth loop of validate from the i-th node on, with room for `fuel` nested calls of the search. */
  ghost function DepthLoop(nodes: seq<TaskNode>, adj: map<Id, seq<Id>>, memo: map<Id, nat>, i: nat, maxDepth: nat, fuel: nat)
    : Outcome<Result<seq<TaskNode>>>
    requires i <= |nodes|
    decreases |nodes| - i
  {
    if i == |nodes| then Done(Ok(nodes))
    else match Search(adj, memo, nodes[i].taskId, fuel)
      case Endless => Endless
      case Done(f) =>
        if f.depth > maxDepth then Done(Err(13)) else DepthLoop(nodes, adj, f.memo, i + 1, maxDepth, fuel)
  }

  /** validate with room for `fuel` nested calls of the search. */
  ghost function ValidateWithin(nodes: seq<TaskNode>, cfg: Config, adj: map<Id, seq<Id>>, fuel: nat)
    : Outcome<Result<seq<TaskNode>>>
  {
    if nodes == [] then Done(Err(10))
    else if |nodes| > cfg.maxNodes then Done(Err(11))
    else if cfg.rejectCycles && !(AllDeclared(nodes) && Acyclic(nodes)) then Done(Err(12))
    else DepthLoop(nodes, adj, map[], 0, cfg.maxDepth, fuel)
  }

  lemma LongestBounds(nodes: seq<TaskNode>, u: Id, d: nat, maxDepth: nat)
    requires IsLongest(nodes, u, d)
    ensures d > maxDepth <==> DeepFrom(nodes, u, maxDepth)
  {
    hide PathFrom;
    var p :| PathFrom(nodes, u, p) && |p| == d + 1;
  }

  lemma DeepIff(nodes: seq<TaskNode>, maxDepth: nat)
    ensures TooDeep(nodes, maxDepth) <==> exists i :: 0 <= i < |nodes| && DeepFrom(nodes, nodes[i].taskId, maxDepth)
  {
    hide Arc;
    if TooDeep(nodes, maxDepth) {
      var p :| IsPath(nodes, p) && p[0] in Declared(nodes) && |p| - 1 > maxDepth;
      var i :| 0 <= i < |nodes| && nodes[i].taskId == p[0];
      assert PathFrom(nodes, nodes[i].taskId, p);
      assert DeepFrom(nodes, nodes[i].taskId, maxDepth);
    }
    if i :| 0 <= i < |nodes| && DeepFrom(nodes, nodes[i].taskId, maxDepth) {
      var p :| PathFrom(nodes, nodes[i].taskId, p) && |p| - 1 > maxDepth;
      assert p[0] in Declared(nodes);
    }
  }

  /** No listed task before the i-th is too deep or reaches a cycle. */
  ghost predicate Shallow(nodes: seq<TaskNode>, i: nat, maxDepth: nat)
    requires i <= |nodes|
  {
    forall j :: 0 <= j < i ==>
      !ReachesCycle(nodes, nodes[j].taskId) && !DeepFrom(nodes, nodes[j].taskId, maxDepth)
  }

  /** When the loop ends it gives the verdict on all listed tasks, and the first that reaches a cycle came too late. */
  lemma {:induction false} LoopResult(nodes: seq<TaskNode>, adj: map<Id, seq<Id>>, memo: map<Id, nat>, i: nat,
                                      maxDepth: nat, fuel: nat)
    requires Represents(adj, nodes, Edges(nodes)) && MemoCorrect(nodes, memo)
    requires i <= |nodes| && Shallow(nodes, i, maxDepth)
    requires DepthLoop(nodes, adj, memo, i, maxDepth, fuel).Done?
    ensures StopsInTime(nodes, maxDepth)
    ensures DepthLoop(nodes, adj, memo, i, maxDepth, fuel).value ==
      if TooDeep(nodes, maxDepth) then Err(13) else Ok(nodes)
    decreases |nodes| - i
  {
    hide Represents, IsLongest, ReachesCycle, DeepFrom, TooDeep, MemoCorrect, Search;
    DeepIff(nodes, maxDepth);
    if i < |nodes| {
      var u := nodes[i].taskId;
      SearchFinds(nodes, adj, memo, u, fuel);
      var f := Search(adj, memo, u, fuel).value;
      LongestIff(nodes, u);
      LongestBounds(nodes, u, f.depth, maxDepth);
      if f.depth <= maxDepth {
        LoopResult(nodes, adj, f.memo, i + 1, maxDepth, fuel);
      }
    }
  }

  /** Room enough for every listed task that reaches no cycle. */
  ghost predicate Roomy(nodes: seq<TaskNode>, fuel: nat) {
    forall j :: 0 <= j < |nodes| && !ReachesCycle(nodes, nodes[j].taskId) ==> Longest(nodes, nodes[j].taskId) < fuel
  }

  lemma {:induction false} RoomyExists(nodes: seq<TaskNode>, n: nat) returns (fuel: nat)
    requires n <= |nodes|
    ensures forall j :: 0 <= j < n && !ReachesCycle(nodes, nodes[j].taskId) ==> Longest(nodes, nodes[j].taskId) < fuel
    decreases n
  {
    hide ReachesCycle, Longest;
    if n == 0 {
      fuel := 0;
    } else {
      var rest := RoomyExists(nodes, n - 1);
      fuel := Max(rest, Longest(nodes, nodes[n - 1].taskId) + 1);
    }
  }

  lemma {:induction false} LoopHasRoom(nodes: seq<TaskNode>, adj: map<Id, seq<Id>>, memo: map<Id, nat>, i: nat,
                                       maxDepth: nat, fuel: nat)
    requires Represents(adj, nodes, Edges(nodes)) && MemoCorrect(nodes, memo)
    requires i <= |nodes| && Shallow(nodes, i, maxDepth) && StopsInTime(nodes, maxDepth) && Roomy(nodes, fuel)
    ensures DepthLoop(nodes, adj, memo, i, maxDepth, fuel).Done?
    decreases |nodes| - i
  {
    hide Represents, IsLongest, ReachesCycle, Longest, DeepFrom, MemoCorrect, Search;
    if i < |nodes| {
      var u := nodes[i].taskId;
      assert !ReachesCycle(nodes, u);
      SearchHasRoom(nodes, adj, memo, u, fuel);
      SearchFinds(nodes, adj, memo, u, fuel);
      var f := Search(adj, memo, u, fuel).value;
      LongestBounds(nodes, u, f.depth, maxDepth);
      if f.depth <= maxDepth {
        LoopHasRoom(nodes, adj, f.memo, i + 1, maxDepth, fuel);
      }
    }
  }

  lemma AcyclicStops(nodes: seq<TaskNode>, maxDepth: nat)
    requires Acyclic(nodes)
    ensures StopsInTime(nodes, maxDepth)
  {
    hide ReachesCycle, Acyclic;
    forall i | 0 <= i < |nodes| ensures !ReachesCycle(nodes, nodes[i].taskId) {
      AcyclicReachesNone(nodes, nodes[i].taskId);
    }
  }

  /** The verdict on every graph, spelled out, with the code of each refusal. */
  lemma ValidateOutcome(nodes: seq<TaskNode>, cfg: Config)
    ensures var r := ValidateSpec(nodes, cfg);
      var sound :=
        && (forall n, d :: n in nodes && d in n.dependsOn ==> exists m :: m in nodes && m.taskId == d)
        && (forall p :: IsPath(nodes, p) && |p| >= 2 ==> p[0] != p[|p| - 1]);
      var deep := exists p, n :: IsPath(nodes, p) && n in nodes && n.taskId == p[0] && |p| - 1 > cfg.maxDepth;
      r == if |nodes| == 0 then Err(10)
           else if |nodes| > cfg.maxNodes then Err(11)
           else if cfg.rejectCycles && !sound then Err(12)
           else if deep then Err(13)
           else Ok(nodes)
  {
    DeclaredIff(nodes);
    AcyclicIff(nodes);
    hide AllDeclared, Acyclic;
    if TooDeep(nodes, cfg.maxDepth) {
      var p :| IsPath(nodes, p) && p[0] in Declared(nodes) && |p| - 1 > cfg.maxDepth;
      var i :| 0 <= i < |nodes| && nodes[i].taskId == p[0];
      assert IsPath(nodes, p) && nodes[i] in nodes && nodes[i].taskId == p[0] && |p| - 1 > cfg.maxDepth;
    }
    forall p, n | IsPath(nodes, p) && n in nodes && n.taskId == p[0] && |p| - 1 > cfg.maxDepth
      ensures TooDeep(nodes, cfg.maxDepth)
    {
      var i :| 0 <= i < |nodes| && nodes[i] == n;
      assert nodes[i].taskId in Declared(nodes);
    }
  }

  /** validate returns exactly when Ends says so, and then with the specified result. */
  lemma ValidateEnds(nodes: seq<TaskNode>, cfg: Config, adj: map<Id, seq<Id>>)
    requires Represents(adj, nodes, Edges(nodes))
    ensures (exists fuel :: ValidateWithin(nodes, cfg, adj, fuel).Done?) <==> Ends(nodes, cfg)
    ensures forall fuel :: ValidateWithin(nodes, cfg, adj, fuel).Done? ==>
      ValidateWithin(nodes, cfg, adj, fuel).value == ValidateSpec(nodes, cfg)
  {
    hide Represents, StopsInTime, DepthLoop, Acyclic, AllDeclared, TooDeep, ReachesCycle, DeepFrom, Longest;
    var none: map<Id, nat> := map[];
    forall fuel: nat | DepthLoop(nodes, adj, none, 0, cfg.maxDepth, fuel).Done?
      ensures StopsInTime(nodes, cfg.maxDepth)
      ensures DepthLoop(nodes, adj, none, 0, cfg.maxDepth, fuel).value ==
        if TooDeep(nodes, cfg.maxDepth) then Err(13) else Ok(nodes)
    {
      LoopResult(nodes, adj, none, 0, cfg.maxDepth, fuel);
    }
    if Acyclic(nodes) {
      AcyclicStops(nodes, cfg.maxDepth);
    }
    var fuel := RoomyExists(nodes, |nodes|);
    if StopsInTime(nodes, cfg.maxDepth) {
      LoopHasRoom(nodes, adj, none, 0, cfg.maxDepth, fuel);
    }
    assert Ends(nodes, cfg) ==> ValidateWithin(nodes, cfg, adj, fuel).Done?;
  }

  /** The second pass over the graph: declarations, then arcs, without the degrees. */
  method BuildAdjacency(nodes: seq<TaskNode>) returns (adj: map<Id, seq<Id>>)
    ensures Represents(adj, nodes, Edges(nodes))
  {
    hide Declared, Edges, Represents;
    adj := DeclareVertices(nodes);
    assert Edges(nodes[..0]) == [] by { EdgesSteps(nodes); }
    for i := 0 to |nodes|
      invariant Represents(adj, nodes, Edges(nodes[..i]))
    {
      var node := nodes[i];
      ghost var es := Edges(nodes[..i]);
      assert es + NodeEdges(node)[..0] == es;
      for j := 0 to |node.dependsOn|
        invariant Represents(adj, nodes, es + NodeEdges(node)[..j])
      {
        var dep := node.dependsOn[j];
        AddArc(adj, nodes, es + NodeEdges(node)[..j], dep, node.taskId);
        assert es + NodeEdges(node)[..j + 1] == es + NodeEdges(node)[..j] + [(dep, node.taskId)];
        adj := adj[dep := (if dep in adj then adj[dep] else []) + [node.taskId]];
      }
      EdgesSteps(nodes);
      assert NodeEdges(node)[..|node.dependsOn|] == NodeEdges(node);
    }
    assert nodes[..|nodes|] == nodes;
  }

  method DeclareVertices(nodes: seq<TaskNode>) returns (adj: map<Id, seq<Id>>)
    ensures Represents(adj, nodes, [])
  {
    hide Declared;
    adj := map[];
    assert Declared(nodes[..0]) == {} by { DeclaredNone(nodes); }
    for i := 0 to |nodes|
      invariant adj.Keys == Declared(nodes[..i]) && forall u :: u in adj ==> adj[u] == []
    {
      DeclaredPrefix(nodes, i);
      if nodes[i].taskId !in adj {
        adj := adj[nodes[i].taskId := []];
      }
    }
    assert nodes[..|nodes|] == nodes;
  }

  /** FinalValidator::validate, on every call that returns (ValidateEnds). */
  method Validate(nodes: seq<TaskNode>, cfg: Config) returns (r: Result<seq<TaskNode>>)
    requires Ends(nodes, cfg)
    ensures r == ValidateSpec(nodes, cfg)
  {
    hide Edges, AllDeclared, Acyclic, Represents, IsLongest, ReachesCycle, DeepFrom, TooDeep, MemoCorrect;
    if nodes == [] {
      return Err(10);
    }
    if |nodes| > cfg.maxNodes {
      return Err(11);
    }
    if cfg.rejectCycles {
      var cyclic := HasCycle(nodes);
      if cyclic {
        return Err(12);
      }
      AcyclicStops(nodes, cfg.maxDepth);
    }
    var adj := BuildAdjacency(nodes);
    var memo: map<Id, nat> := map[];
    assert MemoCorrect(nodes, memo) by { MemoStart(nodes); }
    DeepIff(nodes, cfg.maxDepth);
    for i := 0 to |nodes|
      invariant MemoCorrect(nodes, memo) && Shallow(nodes, i, cfg.maxDepth)
    {
      assert !ReachesCycle(nodes, nodes[i].taskId);
      var depth;
      depth, memo := MaxDepth(nodes[i].taskId, adj, memo, nodes);
      LongestBounds(nodes, nodes[i].taskId, depth, cfg.maxDepth);
      if depth > cfg.maxDepth {
        return Err(13);
      }
    }
    return Ok(nodes);
  }

  lemma MemoStart(nodes: seq<TaskNode>)
    ensures MemoCorrect(nodes, map[])
  {}

  // ---------- with the cycle check off, the order of the tasks decides

  /** Two tasks that wait for each other. */
  function Pair(): seq<TaskNode> { [TaskNode("a", ["b"], ""), TaskNode("b", ["a"], "")] }

  /** A node that is too deep for the limit 0, and the one behind it. */
  function Chain(): seq<TaskNode> { [TaskNode("s", [], ""), TaskNode("t", ["s"], "")] }

  lemma PairReachesCycle(nodes: seq<TaskNode>)
    requires TaskNode("a", ["b"], "") in nodes && TaskNode("b", ["a"], "") in nodes
    ensures ReachesCycle(nodes, "a") && !Acyclic(nodes)
  {
    var p := ["a", "b", "a"];
    assert "b" in TaskNode("a", ["b"], "").dependsOn && "a" in TaskNode("b", ["a"], "").dependsOn;
    assert PathFrom(nodes, "a", p) && p[0] == p[|p| - 1];
  }

  /** The pair first: the call never returns. The chain first: it returns 13 although the graph is cyclic. */
  lemma OrderDecides()
    ensures var cfg := Config(0, 1024, false);
      !Ends(Pair() + Chain(), cfg)
      && Ends(Chain() + Pair(), cfg) && !Acyclic(Chain() + Pair()) && ValidateSpec(Chain() + Pair(), cfg) == Err(13)
  {
    EndlessFirst();
    DeepFirst();
  }

  lemma EndlessFirst()
    ensures !Ends(Pair() + Chain(), Config(0, 1024, false))
  {
    var nodes := Pair() + Chain();
    assert nodes[0] == TaskNode("a", ["b"], "") && nodes[1] == TaskNode("b", ["a"], "");
    PairReachesCycle(nodes);
    hide ReachesCycle;
    assert nodes[0].taskId == "a";
  }

  lemma DeepFirst()
    ensures var nodes := Chain() + Pair();
      StopsInTime(nodes, 0) && !Acyclic(nodes) && TooDeep(nodes, 0)
  {
    var nodes := Chain() + Pair();
    assert nodes[0] == TaskNode("s", [], "") && nodes[1] == TaskNode("t", ["s"], "");
    assert nodes[2] == TaskNode("a", ["b"], "") && nodes[3] == TaskNode("b", ["a"], "");
    PairReachesCycle(nodes);
    ChainEnds(nodes);
    DeepIff(nodes, 0);
    hide ReachesCycle, DeepFrom;
    assert nodes[0].taskId == "s";
  }

  lemma ChainEnds(nodes: seq<TaskNode>)
    requires nodes == Chain() + Pair()
    ensures !ReachesCycle(nodes, "s") && DeepFrom(nodes, "s", 0)
  {
    assert nodes[1] == TaskNode("t", ["s"], "");
    assert "s" in nodes[1].dependsOn;
    assert PathFrom(nodes, "s", ["s", "t"]);
    forall v | Arc(nodes, "s", v) ensures v == "t" {}
    assert !HasNext(nodes, "t");
    PathsGoOn(nodes);
    hide Arc, HasNext;
    forall p, i | PathFrom(nodes, "s", p) && 0 <= i < |p| - 1 ensures p[i] != p[|p| - 1] {
      assert Arc(nodes, p[0], p[1]);
      assert p[1] == "t";
    }
  }

  ghost predicate HasNext(nodes: seq<TaskNode>, u: Id) { exists v :: Arc(nodes, u, v) }

  lemma PathsGoOn(nodes: seq<TaskNode>)
    ensures forall p, k :: IsPath(nodes, p) && 0 <= k < |p| - 1 ==> HasNext(nodes, p[k])
  {
    hide Arc;
    forall p, k | IsPath(nodes, p) && 0 <= k < |p| - 1 ensures HasNext(nodes, p[k]) {
      assert Arc(nodes, p[k], p[k + 1]);
    }
  }
}
