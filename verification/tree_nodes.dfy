/** The objects `recursive_loop` works on: `TreeNode`, whose `add_child` appends to its list
 *  of children, and the Python list of tasks that every recursive call shares and shortens
 *  with `pop(0)`. */
module TreeNodes {
  import opened Outline
  import opened Results

  /** A node of the mindmap tree. `Value` is the tree the node and its descendants stand
   *  for; `Repr` is the set of nodes reachable from it. */
  class TreeNode {
    const name: string
    const outlineNumber: string
    const outlineLevel: int
    var children: seq<TreeNode>
    ghost var Value: Tree
    ghost var Repr: set<object>

    ghost predicate Valid()
      reads this, Repr
      decreases Repr
    {
      this in Repr &&
      Value.name == name && Value.outlineNumber == outlineNumber && Value.outlineLevel == outlineLevel &&
      |Value.children| == |children| &&
      forall i :: 0 <= i < |children| ==>
        children[i] in Repr && children[i].Repr <= Repr && this !in children[i].Repr &&
        children[i].Valid() && children[i].Value == Value.children[i]
    }

    /** `TreeNode(name, outline_number, outline_level)`: a node with no children yet. */
    constructor (name: string, outlineNumber: string, outlineLevel: int)
      ensures Valid() && fresh(Repr)
      ensures Value == Node(name, outlineNumber, outlineLevel, [])
    {
      this.name := name;
      this.outlineNumber := outlineNumber;
      this.outlineLevel := outlineLevel;
      children := [];
      Value := Node(name, outlineNumber, outlineLevel, []);
      Repr := {this};
    }

    /** `add_child`: appends `child` after the existing children. */
    method AddChild(child: TreeNode)
      requires Valid() && child.Valid() && this !in child.Repr
      modifies this
      ensures Valid()
      ensures children == old(children) + [child]
      ensures Value == old(Value).(children := old(Value).children + [child.Value])
      ensures Repr == old(Repr) + child.Repr
    {
      children := children + [child];
      Value := Value.(children := Value.children + [child.Value]);
      Repr := Repr + child.Repr;
    }
  }

  /** The Python list of task dictionaries that `recursive_loop` consumes from the front. */
  class TaskQueue {
    var items: seq<Task>

    constructor (tasks: seq<Task>)
      ensures items == tasks
    {
      items := tasks;
    }

    /** `pop(0)`: removes and returns the first task; on an empty list Python raises. */
    method PopFront() returns (task: Task)
      requires items != []
      modifies this
      ensures task == old(items)[0] && items == old(items)[1..]
    {
      task := items[0];
      items := items[1..];
    }
  }

  /** `recursive_loop`: pops the head task into a new node, then, while the next task's
   *  outline number is longer than the node's, builds a child from the same list. The new
   *  subtree and the tasks left in the list are exactly what `Build` gives. */
  method RecursiveLoop(queue: TaskQueue) returns (node: TreeNode)
    requires queue.items != []
    modifies queue
    ensures node.Valid() && fresh(node.Repr)
    ensures (node.Value, queue.items) == Build(old(queue.items))
    decreases |queue.items|
  {
    ghost var tasks := queue.items;
    var current := queue.PopFront();
    node := new TreeNode(current.name, current.outlineNumber, current.outlineLevel);
    if |queue.items| == 0 {
      assert BuildChildren(current.outlineNumber, tasks[1..]) == ([], []);
      return;
    }
    var currentNumber := current.outlineNumber;
    var nextNumber := queue.items[0].outlineNumber;
    assert queue.items == tasks[1..];
    assert [] + BuildChildren(currentNumber, queue.items).0 == BuildChildren(currentNumber, queue.items).0;
    while |nextNumber| > |currentNumber|
      invariant node.Valid() && fresh(node.Repr)
      invariant queue.items != [] && nextNumber == queue.items[0].outlineNumber
      invariant |queue.items| < |tasks|
      invariant TaskOf(node.Value) == tasks[0]
      invariant BuildChildren(currentNumber, tasks[1..]) ==
        (node.Value.children + BuildChildren(currentNumber, queue.items).0, BuildChildren(currentNumber, queue.items).1)
      decreases |queue.items|
    {
      ghost var before := queue.items;
      var child := RecursiveLoop(queue);
      LoopStep(currentNumber, tasks[1..], node.Value.children, before, child.Value, queue.items);
      node.AddChild(child);
      if |queue.items| == 0 {
        break;
      }
      nextNumber := queue.items[0].outlineNumber;
    }
    assert BuildChildren(currentNumber, queue.items) == ([], queue.items);
    assert node.Value.children + [] == node.Value.children;
  }

  /** One turn of the loop in `recursive_loop` keeps its invariant: the child built from
   *  `before` joins the children built so far, and the siblings still to come are those
   *  built from what the child left. */
  lemma LoopStep(parent: string, tasks: seq<Task>, built: seq<Tree>, before: seq<Task>, child: Tree, after: seq<Task>)
    requires before != [] && Deeper(before[0], parent) && Build(before) == (child, after)
    requires BuildChildren(parent, tasks) == (built + BuildChildren(parent, before).0, BuildChildren(parent, before).1)
    ensures BuildChildren(parent, tasks) == ((built + [child]) + BuildChildren(parent, after).0, BuildChildren(parent, after).1)
  {
    var siblings := BuildChildren(parent, after).0;
    assert BuildChildren(parent, before).0 == [child] + siblings;
    assert built + ([child] + siblings) == (built + [child]) + siblings;
  }

  /** Why `process_tasks` builds no tree: the task collection was empty, so the first
   *  `pop(0)` raises. */
  datatype ProcessError = NoTasks

  /** The last step of `process_tasks`: hands the task list to `recursive_loop` and returns
   *  the root. Tasks the root's loop leaves in the list are dropped. */
  method ProcessTasks(tasks: seq<Task>) returns (r: Result<TreeNode, ProcessError>)
    ensures r.Err? <==> tasks == []
    ensures r.Ok? ==> r.value.Valid() && fresh(r.value.Repr) && r.value.Value == Build(tasks).0
  {
    if tasks == [] {
      return Err(NoTasks);
    }
    var queue := new TaskQueue(tasks);
    var root := RecursiveLoop(queue);
    return Ok(root);
  }
}
