/** The memoised search for the longest dependency path, and where it ends. */
module DepthSearch {
  import opened Pigeonhole
  import opened TaskGraph
  import opened CycleCheck

  // ---------- longest paths

  ghost predicate PathFrom(nodes: seq<TaskNode>, u: Id, p: seq<Id>) { IsPath(nodes, p) && p[0] == u }

  /** d is the number of arcs on a longest path from u. */
  ghost predicate IsLongest(nodes: seq<TaskNode>, u: Id, d: nat) {
    && (exists p :: PathFrom(nodes, u, p) && |p| == d + 1)
    && (forall p :: PathFrom(nodes, u, p) ==> |p| <= d + 1)
  }

  ghost predicate MemoCorrect(nodes: seq<TaskNode>, memo: map<Id, nat>) {
    forall v :: v in memo ==> IsLongest(nodes, v, memo[v])
  }

  /** d is the longest path from u among those whose second vertex is one of the children. */
  ghost predicate LongestVia(nodes: seq<TaskNode>, u: Id, children: seq<Id>, d: nat) {
    && (exists p :: PathFrom(nodes, u, p) && |p| == d + 1)
    && (forall p :: PathFrom(nodes, u, p) && |p| >= 2 && p[1] in children ==> |p| <= d + 1)
  }

  lemma PathCons(nodes: seq<TaskNode>, u: Id, p: seq<Id>)
    requires IsPath(nodes, p) && Arc(nodes, u, p[0])
    ensures PathFrom(nodes, u, [u] + p)
  {
    hide Arc;
    var q := [u] + p;
    forall i | 0 <= i < |q| - 1 ensures Arc(nodes, q[i], q[i + 1]) {
      if i > 0 { assert Arc(nodes, p[i - 1], p[i]); }
    }
  }

  lemma PathTail(nodes: seq<TaskNode>, p: seq<Id>)
    requires IsPath(nodes, p) && |p| >= 2
    ensures PathFrom(nodes, p[1], p[1..]) && Arc(nodes, p[0], p[1])
  {
    hide Arc;
    var q := p[1..];
    forall i | 0 <= i < |q| - 1 ensures Arc(nodes, q[i], q[i + 1]) { assert Arc(nodes, p[i + 1], p[i + 2]); }
  }

  lemma ViaStep(nodes: seq<TaskNode>, u: Id, children: seq<Id>, d: nat, c: Id, dc: nat)
    requires LongestVia(nodes, u, children, d) && IsLongest(nodes, c, dc) && Arc(nodes, u, c)
    ensures LongestVia(nodes, u, children + [c], if d < 1 + dc then 1 + dc else d)
  {
    hide Arc, IsPath;
    var d' := if d < 1 + dc then 1 + dc else d;
    var q :| PathFrom(nodes, c, q) && |q| == dc + 1;
    PathCons(nodes, u, q);
    assert exists p :: PathFrom(nodes, u, p) && |p| == d' + 1;
    forall p | PathFrom(nodes, u, p) && |p| >= 2 && p[1] in children + [c] ensures |p| <= d' + 1 {
      PathTail(nodes, p);
    }
  }

  lemma ViaAll(nodes: seq<TaskNode>, u: Id, children: seq<Id>, d: nat)
    requires LongestVia(nodes, u, children, d)
    requires forall v :: Arc(nodes, u, v) ==> v in children
    ensures IsLongest(nodes, u, d)
  {
    hide Arc, IsPath;
    forall p | PathFrom(nodes, u, p) ensures |p| <= d + 1 {
      if |p| >= 2 { PathTail(nodes, p); }
    }
  }

  lemma ViaNone(nodes: seq<TaskNode>, u: Id)
    ensures LongestVia(nodes, u, [], 0)
  {
    assert PathFrom(nodes, u, [u]);
  }

  // ---------- where the search ends

  /** Some path from u comes back to a vertex it has passed. */
  ghost predicate ReachesCycle(nodes: seq<TaskNode>, u: Id) {
    exists p, i :: PathFrom(nodes, u, p) && 0 <= i < |p| - 1 && p[i] == p[|p| - 1]
  }

  /** Going round the cycle makes paths of any length. */
  lemma {:induction false} Pump(nodes: seq<TaskNode>, u: Id, p: seq<Id>, i: nat, n: nat) returns (q: seq<Id>)
    requires PathFrom(nodes, u, p) && i < |p| - 1 && p[i] == p[|p| - 1]
    ensures PathFrom(nodes, u, q) && |q| >= n && q[|q| - 1] == p[i]
    decreases n
  {
    if n == 0 {
      q := p;
    } else {
      var r := Pump(nodes, u, p, i, n - 1);
      q := r + p[i + 1..];
      hide Arc;
      forall k | 0 <= k < |q| - 1 ensures Arc(nodes, q[k], q[k + 1]) {
        if k < |r| - 1 {
          assert Arc(nodes, r[k], r[k + 1]);
        } else {
          assert Arc(nodes, p[i + (k - (|r| - 1))], p[i + (k - (|r| - 1)) + 1]);
        }
      }
    }
  }

  /** Without a reachable cycle no path from u repeats a vertex, so its length is bounded. */
  lemma PathsBounded(nodes: seq<TaskNode>, u: Id, p: seq<Id>)
    requires !ReachesCycle(nodes, u) && PathFrom(nodes, u, p)
    ensures |p| <= |Vertices(nodes)| + 1
  {
    hide Arc, Vertices;
    forall i, j | 0 <= i < j < |p| ensures p[i] != p[j] {
      var q := p[..j + 1];
      assert PathFrom(nodes, u, q) by {
        forall k | 0 <= k < |q| - 1 ensures Arc(nodes, q[k], q[k + 1]) { assert Arc(nodes, p[k], p[k + 1]); }
      }
      assert q[i] == p[i] && q[|q| - 1] == p[j];
    }
    if |p| >= 2 {
      forall i | 0 <= i < |p| ensures p[i] in Vertices(nodes) {
        if i == 0 {
          ArcEnds(nodes, p[0], p[1]);
        } else {
          assert Arc(nodes, p[i - 1], p[i]);
          ArcEnds(nodes, p[i - 1], p[i]);
          DeclaredAreVertices(nodes);
        }
      }
      FitsInSet(p, Vertices(nodes));
    }
  }

  lemma DeclaredAreVertices(nodes: seq<TaskNode>)
    ensures Declared(nodes) <= Vertices(nodes)
  {}

  lemma {:induction false} LongestExists(nodes: seq<TaskNode>, u: Id, bound: nat) returns (d: nat)
    requires forall p :: PathFrom(nodes, u, p) ==> |p| <= bound + 1
    ensures IsLongest(nodes, u, d)
    decreases bound
  {
    if p :| PathFrom(nodes, u, p) && |p| == bound + 1 {
      d := bound;
    } else {
      assert PathFrom(nodes, u, [u]);
      d := LongestExists(nodes, u, bound - 1);
    }
  }

  /** There is a longest path from u exactly when u reaches no cycle. */
  lemma LongestIff(nodes: seq<TaskNode>, u: Id)
    ensures (exists d :: IsLongest(nodes, u, d)) <==> !ReachesCycle(nodes, u)
  {
    hide IsPath, Vertices;
    if ReachesCycle(nodes, u) {
      var p, i :| PathFrom(nodes, u, p) && 0 <= i < |p| - 1 && p[i] == p[|p| - 1];
      forall d: nat ensures !IsLongest(nodes, u, d) {
        var q := Pump(nodes, u, p, i, d + 2);
      }
    } else {
      forall p | PathFrom(nodes, u, p) ensures |p| <= |Vertices(nodes)| + 1 { PathsBounded(nodes, u, p); }
      var d := LongestExists(nodes, u, |Vertices(nodes)|);
    }
  }

  /** The number of arcs on a longest path, when there is one. */
  ghost function Longest(nodes: seq<TaskNode>, u: Id): (d: nat)
    ensures !ReachesCycle(nodes, u) ==> IsLongest(nodes, u, d)
  {
    LongestIff(nodes, u);
    if d: nat :| IsLongest(nodes, u, d) then d else 0
  }

  lemma ChildReachesNone(nodes: seq<TaskNode>, u: Id, c: Id)
    requires Arc(nodes, u, c) && !ReachesCycle(nodes, u)
    ensures !ReachesCycle(nodes, c)
  {
    hide Arc;
    forall p, i | PathFrom(nodes, c, p) && 0 <= i < |p| - 1 ensures p[i] != p[|p| - 1] {
      PathCons(nodes, u, p);
      var q := [u] + p;
      assert q[i + 1] == p[i] && q[|q| - 1] == p[|p| - 1];
    }
  }

  /** The longest path from a child is shorter. */
  lemma ChildShorter(nodes: seq<TaskNode>, u: Id, c: Id)
    requires Arc(nodes, u, c) && !ReachesCycle(nodes, u)
    ensures !ReachesCycle(nodes, c) && Longest(nodes, c) < Longest(nodes, u)
  {
    hide Arc, Longest, IsPath, ReachesCycle;
    ChildReachesNone(nodes, u, c);
    assert IsLongest(nodes, c, Longest(nodes, c)) && IsLongest(nodes, u, Longest(nodes, u));
    var q :| PathFrom(nodes, c, q) && |q| == Longest(nodes, c) + 1;
    PathCons(nodes, u, q);
  }

  lemma AcyclicReachesNone(nodes: seq<TaskNode>, u: Id)
    requires Acyclic(nodes)
    ensures !ReachesCycle(nodes, u)
  {
    hide Arc;
    forall p, i | PathFrom(nodes, u, p) && 0 <= i < |p| - 1 ensures p[i] != p[|p| - 1] {
      var q := p[i..];
      assert IsPath(nodes, q) by {
        forall k | 0 <= k < |q| - 1 ensures Arc(nodes, q[k], q[k + 1]) { assert Arc(nodes, p[i + k], p[i + k + 1]); }
      }
    }
  }

  // ---------- the search, cut off at a recursion depth

  datatype Outcome<+T> = Endless | Done(value: T)

  datatype Found = Found(depth: nat, memo: map<Id, nat>)

  function Max(a: nat, b: nat): nat { if a < b then b else a }

  /** max_depth_dfs with room for `fuel` nested calls. */
  ghost function Search(adj: map<Id, seq<Id>>, memo: map<Id, nat>, u: Id, fuel: nat): Outcome<Found>
    decreases fuel, 0
  {
    if fuel == 0 then Endless
    else if u in memo then Done(Found(memo[u], memo))
    else match SearchAll(adj, memo, Lookup(adj, u), 0, fuel - 1)
      case Endless => Endless
      case Done(f) => Done(Found(f.depth, f.memo[u := f.depth]))
  }

  ghost function SearchAll(adj: map<Id, seq<Id>>, memo: map<Id, nat>, children: seq<Id>, depth: nat, fuel: nat)
    : Outcome<Found>
    decreases fuel, |children| + 1
  {
    if children == [] then Done(Found(depth, memo))
    else match Search(adj, memo, children[0], fuel)
      case Endless => Endless
      case Done(f) => SearchAll(adj, f.memo, children[1..], Max(depth, 1 + f.depth), fuel)
  }

  lemma ChildrenAreArcs(nodes: seq<TaskNode>, adj: map<Id, seq<Id>>, u: Id)
    requires Represents(adj, nodes, Edges(nodes))
    ensures forall v :: v in Lookup(adj, u) <==> Arc(nodes, u, v)
  {
    hide Edges, Arc, Targets;
    forall v ensures v in Lookup(adj, u) <==> Arc(nodes, u, v) {
      TargetsAreArcs(Edges(nodes), u, v);
      EdgeIffArc(nodes, u, v);
    }
  }

  /** A search that ends has found the longest path, and so has every memo entry it leaves. */
  lemma {:induction false} SearchFinds(nodes: seq<TaskNode>, adj: map<Id, seq<Id>>, memo: map<Id, nat>, u: Id, fuel: nat)
    requires Represents(adj, nodes, Edges(nodes)) && MemoCorrect(nodes, memo)
    requires Search(adj, memo, u, fuel).Done?
    ensures var f := Search(adj, memo, u, fuel).value; IsLongest(nodes, u, f.depth) && MemoCorrect(nodes, f.memo)
    decreases fuel, 0
  {
    hide Represents, IsLongest, LongestVia, Arc, SearchAll, MemoCorrect, Lookup;
    if u in memo {
      MemoHolds(nodes, memo, u);
    } else {
      var children := Lookup(adj, u);
      ChildrenAreArcs(nodes, adj, u);
      ViaNone(nodes, u);
      SearchAllFinds(nodes, adj, memo, u, [], children, 0, fuel - 1);
      assert [] + children == children;
      var f := SearchAll(adj, memo, children, 0, fuel - 1).value;
      ViaAll(nodes, u, children, f.depth);
      MemoExtends(nodes, f.memo, u, f.depth);
    }
  }

  lemma MemoHolds(nodes: seq<TaskNode>, memo: map<Id, nat>, u: Id)
    requires MemoCorrect(nodes, memo) && u in memo
    ensures IsLongest(nodes, u, memo[u])
  {}

  lemma MemoExtends(nodes: seq<TaskNode>, memo: map<Id, nat>, u: Id, d: nat)
    requires MemoCorrect(nodes, memo) && IsLongest(nodes, u, d)
    ensures MemoCorrect(nodes, memo[u := d])
  {
    hide IsLongest;
  }

  lemma {:induction false} SearchAllFinds(nodes: seq<TaskNode>, adj: map<Id, seq<Id>>, memo: map<Id, nat>, u: Id,
                                          before: seq<Id>, children: seq<Id>, depth: nat, fuel: nat)
    requires Represents(adj, nodes, Edges(nodes)) && MemoCorrect(nodes, memo)
    requires LongestVia(nodes, u, before, depth) && forall c :: c in children ==> Arc(nodes, u, c)
    requires SearchAll(adj, memo, children, depth, fuel).Done?
    ensures var f := SearchAll(adj, memo, children, depth, fuel).value;
      LongestVia(nodes, u, before + children, f.depth) && MemoCorrect(nodes, f.memo)
    decreases fuel, |children| + 1
  {
    hide Represents, IsLongest, LongestVia, Arc, Search;
    if children == [] {
      assert before + children == before;
    } else {
      var c := children[0];
      SearchFinds(nodes, adj, memo, c, fuel);
      var f := Search(adj, memo, c, fuel).value;
      ViaStep(nodes, u, before, depth, c, f.depth);
      assert before + children == before + [c] + children[1..];
      SearchAllFinds(nodes, adj, f.memo, u, before + [c], children[1..], Max(depth, 1 + f.depth), fuel);
    }
  }

  /** With more room than the longest path has arcs the search ends. */
  lemma {:induction false} SearchHasRoom(nodes: seq<TaskNode>, adj: map<Id, seq<Id>>, memo: map<Id, nat>, u: Id, fuel: nat)
    requires Represents(adj, nodes, Edges(nodes)) && MemoCorrect(nodes, memo)
    requires !ReachesCycle(nodes, u) && fuel > Longest(nodes, u)
    ensures Search(adj, memo, u, fuel).Done?
    decreases fuel, 0
  {
    hide Represents, IsLongest, Arc, ReachesCycle, Longest;
    if u !in memo {
      var children := Lookup(adj, u);
      ChildrenAreArcs(nodes, adj, u);
      forall c | c in children ensures !ReachesCycle(nodes, c) && fuel - 1 > Longest(nodes, c) {
        ChildShorter(nodes, u, c);
      }
      SearchAllHasRoom(nodes, adj, memo, children, 0, fuel - 1);
    }
  }

  lemma {:induction false} SearchAllHasRoom(nodes: seq<TaskNode>, adj: map<Id, seq<Id>>, memo: map<Id, nat>,
                                            children: seq<Id>, depth: nat, fuel: nat)
    requires Represents(adj, nodes, Edges(nodes)) && MemoCorrect(nodes, memo)
    requires forall c :: c in children ==> !ReachesCycle(nodes, c) && fuel > Longest(nodes, c)
    ensures SearchAll(adj, memo, children, depth, fuel).Done?
    decreases fuel, |children| + 1
  {
    hide Represents, IsLongest, Arc, ReachesCycle, Longest, Search;
    if children != [] {
      assert children[0] in children;
      SearchHasRoom(nodes, adj, memo, children[0], fuel);
      SearchFinds(nodes, adj, memo, children[0], fuel);
      var f := Search(adj, memo, children[0], fuel).value;
      SearchAllHasRoom(nodes, adj, f.memo, children[1..], Max(depth, 1 + f.depth), fuel);
    }
  }

  /** max_depth_dfs ends exactly when no cycle can be reached from where it starts. */
  lemma SearchEnds(nodes: seq<TaskNode>, adj: map<Id, seq<Id>>, memo: map<Id, nat>, u: Id)
    requires Represents(adj, nodes, Edges(nodes)) && MemoCorrect(nodes, memo)
    ensures (exists fuel :: Search(adj, memo, u, fuel).Done?) <==> !ReachesCycle(nodes, u)
  {
    hide Represents, IsLongest, ReachesCycle, Longest, Search;
    LongestIff(nodes, u);
    if !ReachesCycle(nodes, u) {
      SearchHasRoom(nodes, adj, memo, u, Longest(nodes, u) + 1);
    }
    forall fuel: nat | Search(adj, memo, u, fuel).Done? ensures !ReachesCycle(nodes, u) {
      SearchFinds(nodes, adj, memo, u, fuel);
    }
  }

  /** The procedure, where it ends: the longest path, the memo of the cut-off search at any sufficient depth. */
  method MaxDepth(u: Id, adj: map<Id, seq<Id>>, memo: map<Id, nat>, ghost nodes: seq<TaskNode>)
    returns (depth: nat, memo': map<Id, nat>)
    requires Represents(adj, nodes, Edges(nodes)) && MemoCorrect(nodes, memo)
    requires !ReachesCycle(nodes, u)
    ensures IsLongest(nodes, u, depth)
    ensures MemoCorrect(nodes, memo') && memo'.Keys >= memo.Keys
    ensures forall fuel :: Search(adj, memo, u, fuel).Done? ==> Search(adj, memo, u, fuel) == Done(Found(depth, memo'))
    decreases Longest(nodes, u)
  {
    hide Arc, Edges, Targets, Declared, IsLongest, LongestVia, Longest, ReachesCycle, Represents, MemoCorrect;
    if u in memo {
      MemoHolds(nodes, memo, u);
      return memo[u], memo;
    }
    depth := 0;
    memo' := memo;
    var children := if u in adj then adj[u] else [];
    ChildrenAreArcs(nodes, adj, u);
    ViaNone(nodes, u);
    for k := 0 to |children|
      invariant LongestVia(nodes, u, children[..k], depth)
      invariant MemoCorrect(nodes, memo') && memo'.Keys >= memo.Keys
      invariant forall fuel :: SearchAll(adj, memo, children, 0, fuel).Done? ==>
        SearchAll(adj, memo, children, 0, fuel) == SearchAll(adj, memo', children[k..], depth, fuel)
    {
      var c := children[k];
      assert c in children;
      ChildShorter(nodes, u, c);
      ghost var d0, m0 := depth, memo';
      var dc;
      dc, memo' := MaxDepth(c, adj, memo', nodes);
      ViaStep(nodes, u, children[..k], depth, c, dc);
      assert children[..k + 1] == children[..k] + [c];
      depth := if depth < 1 + dc then 1 + dc else depth;
      assert children[k..][1..] == children[k + 1..];
    }
    assert children[..|children|] == children;
    ViaAll(nodes, u, children, depth);
    MemoExtends(nodes, memo', u, depth);
    memo' := memo'[u := depth];
  }
}
