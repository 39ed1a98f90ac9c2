/** The outline records read from the mindmap export and the pure specification of how the
 *  script rebuilds a tree from them (`recursive_loop` in `mindmap_script.py`). */
module Outline {

  /** One task of the export: its display name, its dotted outline number (kept as text)
   *  and its integer outline level. */
  datatype Task = Task(name: string, outlineNumber: string, outlineLevel: int)

  /** A rebuilt node; the children keep the order of the document. */
  datatype Tree = Node(name: string, outlineNumber: string, outlineLevel: int, children: seq<Tree>)

  /** The task a node was made from. */
  function TaskOf(t: Tree): Task
  {
    Task(t.name, t.outlineNumber, t.outlineLevel)
  }

  /** The builder's nesting test: the next task goes below the current node when its outline
   *  number is a strictly longer string. The outline level is never consulted. */
  predicate Deeper(next: Task, current: string)
  {
    |next.outlineNumber| > |current|
  }

  /** `recursive_loop` on a list of tasks: the node made from the head with the subtrees built
   *  from the tasks that follow it, and the tasks it leaves in the list. */
  function Build(tasks: seq<Task>): (r: (Tree, seq<Task>))
    requires tasks != []
    ensures TaskOf(r.0) == tasks[0]
    ensures |r.1| < |tasks|
    ensures r.1 == [] || !Deeper(r.1[0], tasks[0].outlineNumber)
    decreases |tasks|, 0
  {
    var (children, rest) := BuildChildren(tasks[0].outlineNumber, tasks[1..]);
    (Node(tasks[0].name, tasks[0].outlineNumber, tasks[0].outlineLevel, children), rest)
  }

  /** The `while` loop of `recursive_loop` for a node numbered `parent`: subtrees are built
   *  while the next task is deeper than the node. */
  function BuildChildren(parent: string, tasks: seq<Task>): (r: (seq<Tree>, seq<Task>))
    ensures |r.1| <= |tasks|
    ensures r.1 == [] || !Deeper(r.1[0], parent)
    ensures forall i :: 0 <= i < |r.0| ==> |r.0[i].outlineNumber| > |parent|
    decreases |tasks|, 1
  {
    if tasks == [] || !Deeper(tasks[0], parent) then ([], tasks)
    else
      var (child, rest) := Build(tasks);
      var (siblings, rest') := BuildChildren(parent, rest);
      ([child] + siblings, rest')
  }

  /** The pre-order listing of a tree: the node, then each child's listing in turn. */
  function Nodes(t: Tree): (ns: seq<Tree>)
    ensures |ns| >= 1 && ns[0] == t
    decreases t, 1
  {
    [t] + NodesOf(t.children)
  }

  /** The pre-order listings of a sequence of siblings, one after the other. */
  function NodesOf(ts: seq<Tree>): seq<Tree>
    decreases ts, 0
  {
    if ts == [] then [] else Nodes(ts[0]) + NodesOf(ts[1..])
  }

  /** The tasks the listed nodes were made from. */
  function Tasks(ns: seq<Tree>): (tasks: seq<Task>)
    ensures |tasks| == |ns|
    ensures forall i :: 0 <= i < |ns| ==> tasks[i] == TaskOf(ns[i])
  {
    seq(|ns|, i requires 0 <= i < |ns| => TaskOf(ns[i]))
  }

  lemma TasksAppend(a: seq<Tree>, b: seq<Tree>)
    ensures Tasks(a + b) == Tasks(a) + Tasks(b)
  {
  }

  /** Each task is used exactly once and in order: the pre-order listing of the built tree
   *  followed by the tasks left over is the input. */
  lemma {:induction false} BuildRoundTrip(tasks: seq<Task>)
    requires tasks != []
    ensures Tasks(Nodes(Build(tasks).0)) + Build(tasks).1 == tasks
    decreases |tasks|, 0
  {
    BuildChildrenRoundTrip(tasks[0].outlineNumber, tasks[1..]);
    ListingOfNode(Build(tasks).0, Build(tasks).1, tasks[1..]);
    assert tasks == [tasks[0]] + tasks[1..];
  }

  /** A node's listing followed by what is left is its own task, then its children's
   *  listings followed by what is left. */
  lemma ListingOfNode(t: Tree, rest: seq<Task>, tail: seq<Task>)
    requires Tasks(NodesOf(t.children)) + rest == tail
    ensures Tasks(Nodes(t)) + rest == [TaskOf(t)] + tail
  {
    TasksAppend([t], NodesOf(t.children));
  }

  /** The loop's part of the round trip: the listings of the children it builds followed by
   *  the tasks it leaves are the tasks it started from. */
  lemma {:induction false} BuildChildrenRoundTrip(parent: string, tasks: seq<Task>)
    ensures Tasks(NodesOf(BuildChildren(parent, tasks).0)) + BuildChildren(parent, tasks).1 == tasks
    decreases |tasks|, 1
  {
    if tasks != [] && Deeper(tasks[0], parent) {
      var (child, rest) := Build(tasks);
      var (siblings, rest') := BuildChildren(parent, rest);
      BuildRoundTrip(tasks);
      BuildChildrenRoundTrip(parent, rest);
      assert ([child] + siblings)[1..] == siblings;
      TasksAppend(Nodes(child), NodesOf(siblings));
    }
  }

  /** Every child carries a strictly longer outline number than its parent, all the way down. */
  ghost predicate NumbersLengthen(t: Tree)
    decreases t
  {
    forall i :: 0 <= i < |t.children| ==>
      |t.children[i].outlineNumber| > |t.outlineNumber| && NumbersLengthen(t.children[i])
  }

  /** The built tree lengthens outline numbers from parent to child at every level. */
  lemma {:induction false} BuildLengthens(tasks: seq<Task>)
    requires tasks != []
    ensures NumbersLengthen(Build(tasks).0)
    decreases |tasks|, 0
  {
    BuildChildrenLengthen(tasks[0].outlineNumber, tasks[1..]);
  }

  lemma {:induction false} BuildChildrenLengthen(parent: string, tasks: seq<Task>)
    ensures forall i :: 0 <= i < |BuildChildren(parent, tasks).0| ==> NumbersLengthen(BuildChildren(parent, tasks).0[i])
    decreases |tasks|, 1
  {
    if tasks != [] && Deeper(tasks[0], parent) {
      var (child, rest) := Build(tasks);
      BuildLengthens(tasks);
      BuildChildrenLengthen(parent, rest);
    }
  }

  /** In a tree whose numbers lengthen, every node strictly below the root has a longer
   *  outline number than the root. */
  lemma {:induction false} DescendantsLonger(t: Tree)
    requires NumbersLengthen(t)
    ensures forall i :: 1 <= i < |Nodes(t)| ==> |Nodes(t)[i].outlineNumber| > |t.outlineNumber|
    decreases t, 1
  {
    SiblingsLonger(t.children, t.outlineNumber);
  }

  lemma {:induction false} SiblingsLonger(ts: seq<Tree>, parent: string)
    requires forall i :: 0 <= i < |ts| ==> |ts[i].outlineNumber| > |parent| && NumbersLengthen(ts[i])
    ensures forall i :: 0 <= i < |NodesOf(ts)| ==> |NodesOf(ts)[i].outlineNumber| > |parent|
    decreases ts, 0
  {
    if ts != [] {
      DescendantsLonger(ts[0]);
      SiblingsLonger(ts[1..], parent);
    }
  }

  /** Node `i` of a listing has children exactly when task `i + 1` exists and is deeper
   *  than task `i`. */
  ghost predicate ChildrenIffNextDeeper(ns: seq<Tree>, tasks: seq<Task>)
  {
    |ns| <= |tasks| &&
    forall i :: 0 <= i < |ns| ==> (ns[i].children != [] <==> NextDeeper(tasks, i))
  }

  /** Task `i + 1` exists and is deeper than task `i`. */
  ghost predicate NextDeeper(tasks: seq<Task>, i: nat)
    requires i < |tasks|
  {
    i + 1 < |tasks| && Deeper(tasks[i + 1], tasks[i].outlineNumber)
  }

  lemma ChildrenIffNextDeeperAppend(a: seq<Tree>, b: seq<Tree>, tasks: seq<Task>)
    requires ChildrenIffNextDeeper(a, tasks)
    requires ChildrenIffNextDeeper(b, tasks[|a|..])
    ensures ChildrenIffNextDeeper(a + b, tasks)
  {
    forall i | 0 <= i < |a + b|
      ensures (a + b)[i].children != [] <==> NextDeeper(tasks, i)
    {
      if i < |a| {
        NextDeeperAt(a, tasks, i);
      } else {
        NextDeeperAt(b, tasks[|a|..], i - |a|);
        var later, j := tasks[|a|..], i - |a|;
        assert later[j] == tasks[i];
        assert j + 1 < |later| ==> later[j + 1] == tasks[i + 1];
        assert NextDeeper(later, j) == NextDeeper(tasks, i);
      }
    }
  }

  lemma NextDeeperAt(ns: seq<Tree>, tasks: seq<Task>, i: int)
    requires ChildrenIffNextDeeper(ns, tasks)
    requires 0 <= i < |ns|
    ensures ns[i].children != [] <==> NextDeeper(tasks, i)
  {
  }

  /** Leaves of the built tree: listed against the input, a node is childless exactly when
   *  the task after it is missing or is not deeper than it. */
  lemma {:induction false} BuildLeaves(tasks: seq<Task>)
    requires tasks != []
    ensures ChildrenIffNextDeeper(Nodes(Build(tasks).0), tasks)
    decreases |tasks|, 0
  {
    var (t, rest) := Build(tasks);
    BuildChildrenLeaves(tasks[0].outlineNumber, tasks[1..]);
    BuildRoundTrip(tasks);
    assert ChildrenIffNextDeeper([t], tasks);
    assert tasks[1..] == tasks[|[t]|..];
    ChildrenIffNextDeeperAppend([t], NodesOf(t.children), tasks);
  }

  lemma {:induction false} BuildChildrenLeaves(parent: string, tasks: seq<Task>)
    ensures ChildrenIffNextDeeper(NodesOf(BuildChildren(parent, tasks).0), tasks)
    decreases |tasks|, 1
  {
    if tasks != [] && Deeper(tasks[0], parent) {
      var (child, rest) := Build(tasks);
      var (siblings, rest') := BuildChildren(parent, rest);
      BuildLeaves(tasks);
      BuildRoundTrip(tasks);
      BuildChildrenLeaves(parent, rest);
      assert |Tasks(Nodes(child))| == |Nodes(child)|;
      assert rest == tasks[|Nodes(child)|..];
      assert ([child] + siblings)[1..] == siblings;
      ChildrenIffNextDeeperAppend(Nodes(child), NodesOf(siblings), tasks);
    }
  }

  /** One turn of the loop: the next task is deeper, so a subtree is built from it and the
   *  loop goes on with what that leaves. */
  lemma BuildChildrenStep(parent: string, tasks: seq<Task>)
    requires tasks != [] && Deeper(tasks[0], parent)
    ensures var (child, rest) := Build(tasks);
            BuildChildren(parent, tasks) == ([child] + BuildChildren(parent, rest).0, BuildChildren(parent, rest).1)
  {
  }

  /** A one-task list gives a childless node and leaves nothing behind. */
  lemma SingleTask(task: Task)
    ensures Build([task]).0 == Node(task.name, task.outlineNumber, task.outlineLevel, [])
    ensures Build([task]).1 == []
  {
    assert [task][1..] == [];
  }

  /** Because lengths rather than segments are compared, `1.10` following `1.9` becomes a
   *  child of `1.9` even though both carry outline level 2. */
  lemma TwoDigitSegmentNests()
    ensures var tasks := [Task("Acme", "1", 1), Task("Nine", "1.9", 2), Task("Ten", "1.10", 2)];
            Build(tasks) == (Node("Acme", "1", 1, [Node("Nine", "1.9", 2, [Node("Ten", "1.10", 2, [])])]), [])
  {
    var ten := [Task("Ten", "1.10", 2)];
    var tasks := [Task("Acme", "1", 1), Task("Nine", "1.9", 2)] + ten;
    assert tasks[1..][1..] == ten && ten[1..] == [];
    assert BuildChildren("1.10", []) == ([], []) && BuildChildren("1.9", []) == ([], []);
    assert BuildChildren("1", []) == ([], []);
    assert Build(ten) == (Node("Ten", "1.10", 2, []), []);
    assert Deeper(ten[0], "1.9");
    var (c, r) := Build(ten);
    assert BuildChildren("1.9", r) == ([], []);
    assert [c] + [] == [c];
    assert BuildChildren("1.9", ten) == ([Node("Ten", "1.10", 2, [])], []);
    var nine := tasks[1..];
    assert Build(nine) == (Node("Nine", "1.9", 2, [Node("Ten", "1.10", 2, [])]), []);
    assert Deeper(nine[0], "1");
    var (c2, r2) := Build(nine);
    assert [c2] + [] == [c2];
    assert BuildChildren("1", nine) == ([Node("Nine", "1.9", 2, [Node("Ten", "1.10", 2, [])])], []);
  }

  /** A four-level outline: company, product, variant sets, variants. */
  const AcmeTasks: seq<Task> := [
    Task("Acme", "1", 1), Task("Widget", "1.1", 2),
    Task("Color", "1.1.1", 3), Task("Red", "1.1.1.1", 4), Task("Blue", "1.1.1.2", 4),
    Task("Finish", "1.1.2", 3), Task("Matte", "1.1.2.1", 4)]

  const AcmeTree: Tree :=
    Node("Acme", "1", 1, [
      Node("Widget", "1.1", 2, [
        Node("Color", "1.1.1", 3, [Node("Red", "1.1.1.1", 4, []), Node("Blue", "1.1.1.2", 4, [])]),
        Node("Finish", "1.1.2", 3, [Node("Matte", "1.1.2.1", 4, [])])])])

  /** Finish takes Matte and nothing is left. */
  lemma AcmeFinish()
    ensures Build(AcmeTasks[5..]) == (AcmeTree.children[0].children[1], [])
  {
    var t := AcmeTasks;
    var matte := Node("Matte", "1.1.2.1", 4, []);
    assert t[6..][1..] == [] && t[5..][1..] == t[6..];
    assert BuildChildren("1.1.2.1", []) == ([], []);
    assert Build(t[6..]) == (matte, []);
    assert BuildChildren("1.1.2", []) == ([], []);
    assert [matte] + [] == [matte];
    BuildChildrenStep("1.1.2", t[6..]);
    assert BuildChildren("1.1.2", t[6..]) == ([matte], []);
  }

  /** Color takes Red and Blue and stops at Finish. */
  lemma AcmeColor()
    ensures Build(AcmeTasks[2..]) == (AcmeTree.children[0].children[0], AcmeTasks[5..])
  {
    var t := AcmeTasks;
    var red, blue := Node("Red", "1.1.1.1", 4, []), Node("Blue", "1.1.1.2", 4, []);
    assert t[4..][1..] == t[5..] && t[3..][1..] == t[4..] && t[2..][1..] == t[3..];
    // Blue stops at Finish, Red stops at Blue
    assert BuildChildren("1.1.1.2", t[5..]) == ([], t[5..]);
    assert Build(t[4..]) == (blue, t[5..]);
    assert BuildChildren("1.1.1.1", t[4..]) == ([], t[4..]);
    assert Build(t[3..]) == (red, t[4..]);
    assert BuildChildren("1.1.1", t[5..]) == ([], t[5..]);
    assert [blue] + [] == [blue] && [red] + [blue] == [red, blue];
    BuildChildrenStep("1.1.1", t[4..]);
    assert BuildChildren("1.1.1", t[4..]) == ([blue], t[5..]);
    BuildChildrenStep("1.1.1", t[3..]);
    assert BuildChildren("1.1.1", t[3..]) == ([red, blue], t[5..]);
  }

  /** The outline above builds Acme → Widget → {Color → [Red, Blue], Finish → [Matte]} and
   *  uses every task. */
  lemma AcmeOutline()
    ensures Build(AcmeTasks) == (AcmeTree, [])
  {
    var t := AcmeTasks;
    var widget := AcmeTree.children[0];
    var color, finish := widget.children[0], widget.children[1];
    AcmeColor();
    AcmeFinish();
    assert t[1..][1..] == t[2..];
    // Widget collects Color and Finish
    assert BuildChildren("1.1", []) == ([], []);
    assert [finish] + [] == [finish] && [color] + [finish] == [color, finish];
    BuildChildrenStep("1.1", t[5..]);
    assert BuildChildren("1.1", t[5..]) == ([finish], []);
    BuildChildrenStep("1.1", t[2..]);
    assert BuildChildren("1.1", t[2..]) == ([color, finish], []);
    assert Build(t[1..]) == (widget, []);
    assert BuildChildren("1", []) == ([], []);
    assert [widget] + [] == [widget];
    BuildChildrenStep("1", t[1..]);
    assert BuildChildren("1", t[1..]) == ([widget], []);
  }
}
