/** From SMIR instructions to an execution graph, and what the back end makes of the result. */
module GraphBuilder {
  import opened Results
  import opened Pigeonhole
  import opened Selections
  import opened TaskGraph
  import opened FinalValidator

  datatype SmirOpcode = Nop | Call | Load | Store | Cond | Seq | Parallel | BindInput | BindOutput
                      | Literal | Move | Assert | Debug

  datatype Instruction = Instruction(opcode: SmirOpcode, annotation: string)

  datatype Block = Block(name: string, instructions: seq<Instruction>)

  // ---------- decimal numerals

  function Digit(d: nat): char
    requires d < 10
  {
    '0' + d as char
  }

  function Decimal(n: nat): (s: string)
    ensures |s| > 0
  {
    if n < 10 then [Digit(n)] else Decimal(n / 10) + [Digit(n % 10)]
  }

  ghost function Value(s: string): int {
    if s == [] then 0 else 10 * Value(s[..|s| - 1]) + (s[|s| - 1] as int - '0' as int)
  }

  lemma {:induction false} DecimalValue(n: nat)
    ensures Value(Decimal(n)) == n
    decreases n
  {
    var s := Decimal(n);
    if n < 10 {
      assert s[..|s| - 1] == [];
      assert Value([]) == 0;
    } else {
      DecimalValue(n / 10);
      assert s[..|s| - 1] == Decimal(n / 10);
    }
  }

  function TaskId(n: nat): Id { "t" + Decimal(n) }

  lemma TaskIdInjective(m: nat, n: nat)
    ensures TaskId(m) == TaskId(n) ==> m == n
  {
    hide Decimal, Value;
    DecimalValue(m);
    DecimalValue(n);
    assert TaskId(m)[1..] == Decimal(m) && TaskId(n)[1..] == Decimal(n);
  }

  // ---------- the builder

  predicate IsTask(i: Instruction) { i.opcode == Call || i.opcode == Seq }

  /** The instructions that become tasks, in program order. */
  function TasksIn(instructions: seq<Instruction>): (ts: seq<Instruction>) {
    if instructions == [] then []
    else
      var last := instructions[|instructions| - 1];
      TasksIn(instructions[..|instructions| - 1]) + (if IsTask(last) then [last] else [])
  }

  function Tasks(blocks: seq<Block>): seq<Instruction> {
    if blocks == [] then []
    else Tasks(blocks[..|blocks| - 1]) + TasksIn(blocks[|blocks| - 1].instructions)
  }

  /** Task k, counting from 0: a Seq waits for its predecessor. */
  function NodeOf(tasks: seq<Instruction>, k: nat): TaskNode
    requires k < |tasks|
  {
    TaskNode(TaskId(k + 1),
             if tasks[k].opcode == Seq && k > 0 then [TaskId(k)] else [],
             if tasks[k].annotation == "" then "{}" else tasks[k].annotation)
  }

  function NodesOf(tasks: seq<Instruction>): (nodes: seq<TaskNode>)
    ensures |nodes| == |tasks|
  {
    seq(|tasks|, k requires 0 <= k < |tasks| => NodeOf(tasks, k))
  }

  lemma TasksInNone(instructions: seq<Instruction>)
    ensures TasksIn(instructions[..0]) == []
  {}

  lemma TasksInSnoc(instructions: seq<Instruction>, i: nat)
    requires i < |instructions|
    ensures TasksIn(instructions[..i + 1])
         == if IsTask(instructions[i]) then TasksIn(instructions[..i]) + [instructions[i]] else TasksIn(instructions[..i])
  {
    assert instructions[..i + 1][..i] == instructions[..i];
  }

  /** The inner loop: `done` are everything from the blocks before this one. */
  method AppendBlock(before: seq<TaskNode>, instructions: seq<Instruction>, ghost done: seq<Instruction>)
    returns (nodes: seq<TaskNode>)
    requires before == NodesOf(done)
    ensures nodes == NodesOf(done + TasksIn(instructions))
  {
    hide TaskId, NodesOf, TasksIn;
    nodes := before;
    var taskCounter := |before|;
    assert done + TasksIn(instructions[..0]) == done by { TasksInNone(instructions); }
    for i := 0 to |instructions|
      invariant nodes == NodesOf(done + TasksIn(instructions[..i])) && taskCounter == |nodes|
    {
      var inst := instructions[i];
      TasksInSnoc(instructions, i);
      ghost var tasks := done + TasksIn(instructions[..i]);
      if inst.opcode == Call || inst.opcode == Seq {
        taskCounter := taskCounter + 1;
        var dependsOn: seq<Id> := [];
        if inst.opcode == Seq && taskCounter > 1 {
          dependsOn := dependsOn + [TaskId(taskCounter - 1)];
        }
        var node := TaskNode(TaskId(taskCounter), dependsOn, if inst.annotation == "" then "{}" else inst.annotation);
        NodesSnoc(tasks, inst);
        assert done + TasksIn(instructions[..i + 1]) == tasks + [inst];
        assert node == NodeOf(tasks + [inst], |tasks|);
        nodes := nodes + [node];
      }
    }
    assert instructions[..|instructions|] == instructions;
  }

  method Build(blocks: seq<Block>) returns (nodes: seq<TaskNode>)
    ensures nodes == NodesOf(Tasks(blocks))
  {
    hide TasksIn, NodeOf;
    nodes := [];
    for b := 0 to |blocks|
      invariant nodes == NodesOf(Tasks(blocks[..b]))
    {
      assert blocks[..b + 1][..b] == blocks[..b];
      nodes := AppendBlock(nodes, blocks[b].instructions, Tasks(blocks[..b]));
    }
    assert blocks[..|blocks|] == blocks;
  }

  lemma NodesSnoc(tasks: seq<Instruction>, t: Instruction)
    ensures NodesOf(tasks + [t]) == NodesOf(tasks) + [NodeOf(tasks + [t], |tasks|)]
  {
    hide TaskId;
    var longer := tasks + [t];
    forall k | 0 <= k < |tasks| ensures NodeOf(longer, k) == NodeOf(tasks, k) {}
  }

  // ---------- what is built, in terms of the program alone

  /** The instructions of all blocks in a row. */
  function Program(blocks: seq<Block>): seq<Instruction> {
    if blocks == [] then [] else Program(blocks[..|blocks| - 1]) + blocks[|blocks| - 1].instructions
  }

  /** `at` are the positions of exactly the Call and Seq instructions. */
  ghost predicate TaskPositions(program: seq<Instruction>, at: seq<nat>) {
    forall i :: 0 <= i < |program| ==> (i in at <==> program[i].opcode == Call || program[i].opcode == Seq)
  }

  lemma {:induction false} TasksInPicks(before: seq<Instruction>, at: seq<nat>, ts: seq<Instruction>,
                                        instructions: seq<Instruction>) returns (all: seq<nat>)
    requires Picks(before, at, ts) && TaskPositions(before, at)
    ensures Picks(before + instructions, all, ts + TasksIn(instructions))
    ensures TaskPositions(before + instructions, all)
    decreases |instructions|
  {
    if instructions == [] {
      all := at;
      assert before + instructions == before && ts + TasksIn(instructions) == ts;
    } else {
      var n := |instructions| - 1;
      var init, last := instructions[..n], instructions[n];
      var part := TasksInPicks(before, at, ts, init);
      var xs, ys := before + init, ts + TasksIn(init);
      assert before + instructions == xs + [last];
      hide Picks, TasksIn;
      TasksInLast(instructions);
      if IsTask(last) {
        PickOne(xs, part, ys, last);
        all := part + [|xs|];
        assert ts + TasksIn(instructions) == ys + [last];
        PositionsWithin(xs, part, ys);
      } else {
        PickSkip(xs, part, ys, [last]);
        all := part;
        assert ts + TasksIn(instructions) == ys;
        PositionsWithin(xs, part, ys);
      }
    }
  }

  lemma TasksInLast(instructions: seq<Instruction>)
    requires instructions != []
    ensures var n := |instructions| - 1;
      TasksIn(instructions) == TasksIn(instructions[..n]) + (if IsTask(instructions[n]) then [instructions[n]] else [])
  {}

  lemma PositionsWithin(xs: seq<Instruction>, at: seq<nat>, ys: seq<Instruction>)
    requires Picks(xs, at, ys)
    ensures forall i :: i in at ==> 0 <= i < |xs|
  {}

  /** Exactly the Call and Seq instructions of the program become nodes, in order. */
  lemma {:induction false} TasksPicked(blocks: seq<Block>) returns (at: seq<nat>)
    ensures Picks(Program(blocks), at, Tasks(blocks)) && TaskPositions(Program(blocks), at)
    decreases |blocks|
  {
    if blocks == [] {
      at := [];
    } else {
      hide Picks, TaskPositions;
      var n := |blocks| - 1;
      var part := TasksPicked(blocks[..n]);
      at := TasksInPicks(Program(blocks[..n]), part, Tasks(blocks[..n]), blocks[n].instructions);
    }
  }

  /** 't' and the decimal digits of n, without leading zeros. */
  ghost predicate Names(id: Id, n: nat) {
    && |id| >= 2 && id[0] == 't' && (forall i :: 1 <= i < |id| ==> '0' <= id[i] <= '9')
    && Value(id[1..]) == n && (|id| > 2 ==> id[1] != '0')
  }

  lemma {:induction false} DecimalDigits(n: nat)
    ensures forall i :: 0 <= i < |Decimal(n)| ==> '0' <= Decimal(n)[i] <= '9'
    ensures n > 0 ==> Decimal(n)[0] != '0'
    decreases n
  {
    if n >= 10 { DecimalDigits(n / 10); }
  }

  lemma TaskIdNames(n: nat)
    requires n > 0
    ensures Names(TaskId(n), n)
  {
    hide Decimal, Value;
    DecimalDigits(n);
    DecimalValue(n);
    assert TaskId(n)[1..] == Decimal(n);
  }

  /**
   The built graph: node k stands for the k-th Call or Seq of the program. It is named by the number k + 1,
   carries the instruction's annotation or "{}" where that is empty, and depends on the node before it
   exactly when it is a Seq and not the first.
   */
  lemma BuiltFrom(blocks: seq<Block>) returns (at: seq<nat>)
    ensures var program, nodes := Program(blocks), NodesOf(Tasks(blocks));
      && Increasing(at) && TaskPositions(program, at) && |nodes| == |at|
      && (forall k :: 0 <= k < |at| ==> at[k] < |program|)
      && (forall k :: 0 <= k < |nodes| ==> Names(nodes[k].taskId, k + 1))
      && (forall k :: 0 <= k < |nodes| && program[at[k]].annotation != "" ==>
            nodes[k].parameters == program[at[k]].annotation)
      && (forall k :: 0 <= k < |nodes| && program[at[k]].annotation == "" ==> nodes[k].parameters == "{}")
      && (forall k :: 0 <= k < |nodes| && k > 0 && program[at[k]].opcode == Seq ==>
            nodes[k].dependsOn == [nodes[k - 1].taskId])
      && (forall k :: 0 <= k < |nodes| && (k == 0 || program[at[k]].opcode != Seq) ==> nodes[k].dependsOn == [])
  {
    hide TaskId, Names, Program, Tasks;
    at := TasksPicked(blocks);
    var nodes := NodesOf(Tasks(blocks));
    forall k | 0 <= k < |nodes| ensures Names(nodes[k].taskId, k + 1) { TaskIdNames(k + 1); }
  }

  // ---------- the optimizer

  function Prune(nodes: seq<TaskNode>): seq<TaskNode> {
    if nodes == [] then []
    else
      var last := nodes[|nodes| - 1];
      Prune(nodes[..|nodes| - 1]) + (if last.taskId == "" then [] else [last])
  }

  /** Optimizer::optimize; the set of referenced ids is gathered and never consulted. */
  method Optimize(nodes: seq<TaskNode>) returns (pruned: seq<TaskNode>)
    ensures pruned == Prune(nodes)
  {
    var referenced: set<Id> := {};
    for i := 0 to |nodes| {
      for j := 0 to |nodes[i].dependsOn| {
        referenced := referenced + {nodes[i].dependsOn[j]};
      }
    }
    pruned := [];
    for i := 0 to |nodes|
      invariant pruned == Prune(nodes[..i])
    {
      assert nodes[..i + 1][..i] == nodes[..i];
      if nodes[i].taskId != "" {
        pruned := pruned + [nodes[i]];
      }
    }
    assert nodes[..|nodes|] == nodes;
  }

  /** Pruning drops exactly the nodes without an id, so what has ids passes unchanged. */
  lemma {:induction false} PruneIdentity(nodes: seq<TaskNode>)
    ensures Prune(nodes) == nodes <==> forall n :: n in nodes ==> n.taskId != ""
    ensures forall n :: n in Prune(nodes) <==> n in nodes && n.taskId != ""
    ensures |Prune(nodes)| <= |nodes|
    decreases |nodes|
  {
    if nodes != [] {
      var init, last := nodes[..|nodes| - 1], nodes[|nodes| - 1];
      assert nodes == init + [last];
      PruneIdentity(init);
      if last.taskId == "" {
        assert last in nodes;
      } else {
        var p := Prune(nodes);
        assert p == nodes ==> p[..|p| - 1] == init;
      }
    }
  }

  /** Pruning keeps exactly the nodes with an id, each as often as it occurs and in order. */
  lemma {:induction false} PrunePicks(nodes: seq<TaskNode>) returns (at: seq<nat>)
    ensures Picks(nodes, at, Prune(nodes))
    ensures forall i :: 0 <= i < |nodes| ==> (i in at <==> nodes[i].taskId != "")
    decreases |nodes|
  {
    if nodes == [] {
      at := [];
    } else {
      var n := |nodes| - 1;
      var init, last := nodes[..n], nodes[n];
      assert nodes == init + [last];
      at := PrunePicks(init);
      assert forall i :: i in at ==> 0 <= i < n;
      if last.taskId == "" {
        PickSkip(init, at, Prune(init), [last]);
        assert Prune(nodes) == Prune(init);
      } else {
        PickOne(init, at, Prune(init), last);
        at := at + [n];
      }
    }
  }

  // ---------- what a built graph looks like

  lemma BuiltArcs(tasks: seq<Instruction>, u: Id, v: Id)
    ensures Arc(NodesOf(tasks), u, v)
       <==> exists k :: 0 < k < |tasks| && tasks[k].opcode == Seq && u == TaskId(k) && v == TaskId(k + 1)
  {
    hide TaskId;
    var nodes := NodesOf(tasks);
    if Arc(nodes, u, v) {
      var n :| n in nodes && n.taskId == v && u in n.dependsOn;
      var k :| 0 <= k < |nodes| && nodes[k] == n;
      assert 0 < k < |tasks| && tasks[k].opcode == Seq && u == TaskId(k) && v == TaskId(k + 1);
    }
    if k :| 0 < k < |tasks| && tasks[k].opcode == Seq && u == TaskId(k) && v == TaskId(k + 1) {
      assert nodes[k] in nodes && nodes[k].dependsOn == [u];
      assert u in nodes[k].dependsOn;
    }
  }

  /** Ids are distinct and a node depends at most on the node before it. */
  lemma BuiltShape(tasks: seq<Instruction>)
    ensures forall i, j :: 0 <= i < j < |tasks| ==> NodesOf(tasks)[i].taskId != NodesOf(tasks)[j].taskId
    ensures forall k, d :: 0 <= k < |tasks| && d in NodesOf(tasks)[k].dependsOn ==>
              k > 0 && d == NodesOf(tasks)[k - 1].taskId
  {
    hide TaskId;
    var nodes := NodesOf(tasks);
    forall i, j | 0 <= i < j < |tasks| ensures nodes[i].taskId != nodes[j].taskId { TaskIdInjective(i + 1, j + 1); }
  }

  lemma BuiltSurvivesPruning(tasks: seq<Instruction>)
    ensures Prune(NodesOf(tasks)) == NodesOf(tasks)
  {
    hide Prune, Decimal;
    var nodes := NodesOf(tasks);
    forall n | n in nodes ensures n.taskId != "" {
      var k :| 0 <= k < |nodes| && nodes[k] == n;
      assert |TaskId(k + 1)| > 0;
    }
    PruneIdentity(nodes);
  }

  ghost function Ids(n: nat): (ids: seq<Id>)
    ensures |ids| == n
  {
    seq(n, k requires 0 <= k => TaskId(k + 1))
  }

  lemma BuiltOrder(tasks: seq<Instruction>)
    ensures AllDeclared(NodesOf(tasks)) && Acyclic(NodesOf(tasks))
  {
    hide TaskId, Arc;
    var nodes, order := NodesOf(tasks), Ids(|tasks|);
    forall i, j | 0 <= i < j < |order| ensures order[i] != order[j] { TaskIdInjective(i + 1, j + 1); }
    forall u, i | 0 <= i < |order| && Arc(nodes, u, order[i]) ensures u in order[..i] {
      BuiltArcs(tasks, u, order[i]);
      var k :| 0 < k < |tasks| && tasks[k].opcode == Seq && u == TaskId(k) && order[i] == TaskId(k + 1);
      TaskIdInjective(i + 1, k + 1);
      assert order[..i][k - 1] == u;
    }
    BuiltVertices(tasks);
    OrderedIsAcyclic(nodes, order);
  }

  lemma BuiltVertices(tasks: seq<Instruction>)
    ensures forall v :: v in Ids(|tasks|) <==> v in Vertices(NodesOf(tasks))
    ensures Vertices(NodesOf(tasks)) == Declared(NodesOf(tasks))
  {
    hide TaskId;
    var nodes, ids := NodesOf(tasks), Ids(|tasks|);
    forall v | v in ids ensures v in Declared(nodes) {
      var k :| 0 <= k < |ids| && ids[k] == v;
      assert nodes[k].taskId == v;
    }
    forall v | v in Declared(nodes) ensures v in ids {
      var k :| 0 <= k < |nodes| && nodes[k].taskId == v;
      assert ids[k] == v;
    }
    forall i, j | 0 <= i < |nodes| && 0 <= j < |nodes[i].dependsOn| ensures nodes[i].dependsOn[j] in Declared(nodes) {
      assert nodes[i - 1].taskId == nodes[i].dependsOn[j];
    }
  }

  // ---------- depth is the longest run of Seq

  /** `length` consecutive Seq tasks, the first of them not the very first task. */
  ghost predicate SeqRun(tasks: seq<Instruction>, start: nat, length: nat) {
    1 <= start && start + length <= |tasks| && forall j :: start <= j < start + length ==> tasks[j].opcode == Seq
  }

  ghost function RunIds(start: nat, length: nat): (p: seq<Id>)
    ensures |p| == length + 1
  {
    seq(length + 1, i requires 0 <= i => TaskId(start + i))
  }

  lemma RunPath(tasks: seq<Instruction>, start: nat, length: nat)
    requires SeqRun(tasks, start, length) && length > 0
    ensures IsPath(NodesOf(tasks), RunIds(start, length)) && RunIds(start, length)[0] in Declared(NodesOf(tasks))
  {
    hide TaskId, Arc;
    var p := RunIds(start, length);
    forall i | 0 <= i < |p| - 1 ensures Arc(NodesOf(tasks), p[i], p[i + 1]) {
      assert tasks[start + i].opcode == Seq;
      BuiltArcs(tasks, p[i], p[i + 1]);
    }
    assert NodesOf(tasks)[start - 1].taskId == p[0];
  }

  lemma {:induction false} PathRun(tasks: seq<Instruction>, p: seq<Id>) returns (start: nat)
    requires IsPath(NodesOf(tasks), p) && |p| >= 2
    ensures SeqRun(tasks, start, |p| - 1) && p[|p| - 1] == TaskId(start + |p| - 1)
    decreases |p|
  {
    hide TaskId, Arc;
    var n := |p| - 1;
    assert Arc(NodesOf(tasks), p[n - 1], p[n]);
    BuiltArcs(tasks, p[n - 1], p[n]);
    var k :| 0 < k < |tasks| && tasks[k].opcode == Seq && p[n - 1] == TaskId(k) && p[n] == TaskId(k + 1);
    if n == 1 {
      start := k;
    } else {
      assert IsPath(NodesOf(tasks), p[..n]) by {
        forall i | 0 <= i < n - 1 ensures Arc(NodesOf(tasks), p[..n][i], p[..n][i + 1]) {
          assert Arc(NodesOf(tasks), p[i], p[i + 1]);
        }
      }
      start := PathRun(tasks, p[..n]);
      TaskIdInjective(k, start + n - 1);
    }
  }

  ghost predicate HasRun(tasks: seq<Instruction>, length: nat) { exists start: nat :: SeqRun(tasks, start, length) }

  lemma DepthIsRun(tasks: seq<Instruction>, maxDepth: nat)
    ensures TooDeep(NodesOf(tasks), maxDepth) <==> HasRun(tasks, maxDepth + 1)
  {
    hide Arc, Declared, NodesOf, RunIds;
    var nodes := NodesOf(tasks);
    if TooDeep(nodes, maxDepth) {
      var p :| IsPath(nodes, p) && p[0] in Declared(nodes) && |p| - 1 > maxDepth;
      var start := PathRun(tasks, p);
      assert SeqRun(tasks, start, maxDepth + 1);
    }
    if HasRun(tasks, maxDepth + 1) {
      var start: nat :| SeqRun(tasks, start, maxDepth + 1);
      RunPath(tasks, start, maxDepth + 1);
      assert |RunIds(start, maxDepth + 1)| - 1 > maxDepth;
    }
  }

  /**
   The back end on every module: build, optimize and validate accepts exactly when there are 1 to 1024
   tasks and no 65 Seq in a row (not counting a Seq that is the very first task), and it returns the
   graph the builder made. The three refusals have the codes 10, 11 and 13.
   */
  lemma BackEndAccepts(blocks: seq<Block>)
    ensures var tasks := Tasks(blocks);
            var r := ValidateSpec(Prune(NodesOf(tasks)), DEFAULT_CONFIG);
            r == if tasks == [] then Err(10) else if |tasks| > 1024 then Err(11)
                 else if HasRun(tasks, 65) then Err(13) else Ok(NodesOf(tasks))
  {
    hide TaskId, TooDeep, HasRun, Acyclic, AllDeclared;
    var tasks := Tasks(blocks);
    BuiltSurvivesPruning(tasks);
    BuiltOrder(tasks);
    DepthIsRun(tasks, 64);
  }

  method Compile(blocks: seq<Block>) returns (r: Result<seq<TaskNode>>)
    ensures var tasks := Tasks(blocks);
            r == if tasks == [] then Err(10) else if |tasks| > 1024 then Err(11)
                 else if HasRun(tasks, 65) then Err(13) else Ok(NodesOf(tasks))
  {
    hide NodesOf, HasRun, Tasks, Prune, Acyclic, ValidateSpec;
    var built := Build(blocks);
    var optimized := Optimize(built);
    r := Validate(optimized, DEFAULT_CONFIG);
    BackEndAccepts(blocks);
  }
}
