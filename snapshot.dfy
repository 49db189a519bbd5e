/**
  Physical snapshots of a file tree and the events a hierarchical visitor
  sees when a snapshot accepts it.

  A directory snapshot first asks the visitor whether to descend
  (`preVisitDirectory(path, name)`). On a refusal it returns at once: no
  child is visited and `postVisitDirectory()` is NOT called. Otherwise it
  lets every child accept the visitor, in stored order, and then calls
  `postVisitDirectory()`. A leaf snapshot (regular file or missing file)
  produces a single event.

  `Trace(n, descend)` is the sequence of visitor calls made while `n`
  accepts a visitor whose answer to `preVisitDirectory` is `descend`.
 */
module Snapshot {

  datatype FileType = RegularFile | Directory | Missing

  /** The kinds of leaf snapshot: a regular file or a file that is missing. */
  datatype LeafKind = FileLeaf | MissingLeaf

  /** A file-system path as its sequence of segments. */
  type Path = seq<string>

  /** A snapshot node: a directory owning its children in traversal order, or a leaf. */
  datatype Node =
    | DirectorySnapshot(path: Path, name: string, children: seq<Node>)
    | LeafSnapshot(path: Path, name: string, kind: LeafKind)

  /**
    The directory snapshot constructor: `getPath()`, `getName()` and the
    stored children are exactly the arguments, and `getType()` is
    `Directory` whatever they are.
   */
  function NewDirectorySnapshot(path: Path, name: string, children: seq<Node>): (n: Node)
    ensures n.DirectorySnapshot?
    ensures n.path == path && n.name == name && n.children == children
    ensures GetType(n) == Directory
  {
    DirectorySnapshot(path, name, children)
  }

  /** `getType()`: a directory snapshot is always a `Directory`, a leaf never is. */
  function GetType(n: Node): (t: FileType)
    ensures t == Directory <==> n.DirectorySnapshot?
  {
    match n
    case DirectorySnapshot(_, _, _) => Directory
    case LeafSnapshot(_, _, FileLeaf) => RegularFile
    case LeafSnapshot(_, _, MissingLeaf) => Missing
  }

  /** One call on the visitor. */
  datatype Event = Enter(path: Path, name: string) | Leave | Leaf(node: Node)

  /** The visitor's answer to `preVisitDirectory(path, name)`. */
  type Decision = (Path, string) -> bool

  function Trace(n: Node, descend: Decision): (t: seq<Event>)
    ensures |t| >= 1 && t[0] == Announce(n)
    decreases n
  {
    match n
    case LeafSnapshot(_, _, _) => [Leaf(n)]
    case DirectorySnapshot(path, name, children) =>
      if !descend(path, name) then [Enter(path, name)]
      else [Enter(path, name)] + ChildrenTrace(children, descend) + [Leave]
  }

  /** The traces of `cs`, one after the other, in order. */
  function ChildrenTrace(cs: seq<Node>, descend: Decision): seq<Event>
    decreases cs
  {
    if cs == [] then [] else ChildrenTrace(cs[..|cs| - 1], descend) + Trace(cs[|cs| - 1], descend)
  }

  /** Every event of the children's trace comes from the trace of one of the children. */
  lemma {:induction false} ChildrenTraceMember(cs: seq<Node>, descend: Decision, ev: Event)
    requires ev in ChildrenTrace(cs, descend)
    ensures exists i :: 0 <= i < |cs| && ev in Trace(cs[i], descend)
  {
    var init := cs[..|cs| - 1];
    if ev in ChildrenTrace(init, descend) {
      ChildrenTraceMember(init, descend, ev);
      var i :| 0 <= i < |init| && ev in Trace(init[i], descend);
      assert cs[i] == init[i];
    }
  }

  // ----- the first and the last event of a directory -----

  /** A directory's first event is the `preVisitDirectory` call with its own path and name. */
  lemma DirectoryStartsWithEnter(n: Node, descend: Decision)
    requires n.DirectorySnapshot?
    ensures |Trace(n, descend)| >= 1 && Trace(n, descend)[0] == Enter(n.path, n.name)
  {
  }

  /** On a refusal the directory's whole trace is that one call: no child and no `postVisitDirectory`. */
  lemma RefusalEndsTraversal(n: Node, descend: Decision)
    requires n.DirectorySnapshot? && !descend(n.path, n.name)
    ensures Trace(n, descend) == [Enter(n.path, n.name)]
    ensures Leave !in Trace(n, descend)
  {
  }

  /** When the directory descends, its children's traces follow in stored order, then one `postVisitDirectory`. */
  lemma DescentVisitsChildrenInOrder(n: Node, descend: Decision)
    requires n.DirectorySnapshot? && descend(n.path, n.name)
    ensures Trace(n, descend) == [Enter(n.path, n.name)] + ChildrenTrace(n.children, descend) + [Leave]
    ensures Trace(n, descend)[|Trace(n, descend)| - 1] == Leave
  {
  }

  // ----- balance -----

  /** Number of `postVisitDirectory` calls in `t`. */
  function Leaves(t: seq<Event>): nat {
    if t == [] then 0 else Leaves(t[..|t| - 1]) + (if t[|t| - 1].Leave? then 1 else 0)
  }

  /** Number of `preVisitDirectory` calls in `t` that answered true. */
  function Opens(t: seq<Event>, descend: Decision): nat {
    if t == [] then 0
    else Opens(t[..|t| - 1], descend) + (if t[|t| - 1].Enter? && descend(t[|t| - 1].path, t[|t| - 1].name) then 1 else 0)
  }

  /**
    Every `postVisitDirectory` closes an earlier accepted `preVisitDirectory`,
    and by the end each accepted one has been closed.
   */
  predicate WellNested(t: seq<Event>, descend: Decision) {
    && Leaves(t) == Opens(t, descend)
    && forall k :: 0 <= k <= |t| ==> Leaves(t[..k]) <= Opens(t[..k], descend)
  }

  lemma {:induction false} CountsAppend(a: seq<Event>, b: seq<Event>, descend: Decision)
    ensures Leaves(a + b) == Leaves(a) + Leaves(b)
    ensures Opens(a + b, descend) == Opens(a, descend) + Opens(b, descend)
  {
    if b == [] {
      assert a + b == a;
    } else {
      assert (a + b)[..|a + b| - 1] == a + b[..|b| - 1];
      CountsAppend(a, b[..|b| - 1], descend);
    }
  }

  lemma WellNestedAppend(a: seq<Event>, b: seq<Event>, descend: Decision)
    requires WellNested(a, descend) && WellNested(b, descend)
    ensures WellNested(a + b, descend)
  {
    CountsAppend(a, b, descend);
    forall k | 0 <= k <= |a + b|
      ensures Leaves((a + b)[..k]) <= Opens((a + b)[..k], descend)
    {
      if k <= |a| {
        assert (a + b)[..k] == a[..k];
      } else {
        assert (a + b)[..k] == a + b[..k - |a|];
        CountsAppend(a, b[..k - |a|], descend);
      }
    }
  }

  lemma {:induction false} ChildrenWellNested(cs: seq<Node>, descend: Decision)
    requires forall i :: 0 <= i < |cs| ==> WellNested(Trace(cs[i], descend), descend)
    ensures WellNested(ChildrenTrace(cs, descend), descend)
  {
    if cs != [] {
      ChildrenWellNested(cs[..|cs| - 1], descend);
      WellNestedAppend(ChildrenTrace(cs[..|cs| - 1], descend), Trace(cs[|cs| - 1], descend), descend);
    }
  }

  /**
    A traversal is balanced: it calls `postVisitDirectory` exactly as often
    as `preVisitDirectory` answered true, never closes a directory that is
    not open, and a descended directory stays open from its first event
    until its own final `postVisitDirectory`.
   */
  lemma {:induction false} TraceWellNested(n: Node, descend: Decision)
    ensures WellNested(Trace(n, descend), descend)
    ensures n.DirectorySnapshot? && descend(n.path, n.name) ==>
      forall k :: 0 < k < |Trace(n, descend)| ==> Leaves(Trace(n, descend)[..k]) < Opens(Trace(n, descend)[..k], descend)
    decreases n
  {
    var t := Trace(n, descend);
    if n.DirectorySnapshot? && descend(n.path, n.name) {
      forall i | 0 <= i < |n.children| ensures WellNested(Trace(n.children[i], descend), descend) {
        TraceWellNested(n.children[i], descend);
      }
      DescentWellNested(n, descend);
    } else {
      assert t[..0] == [] && t[..1] == t;
    }
  }

  /** The step of `TraceWellNested` for a directory that descends. */
  lemma DescentWellNested(n: Node, descend: Decision)
    requires n.DirectorySnapshot? && descend(n.path, n.name)
    requires forall i :: 0 <= i < |n.children| ==> WellNested(Trace(n.children[i], descend), descend)
    ensures WellNested(Trace(n, descend), descend)
    ensures forall k :: 0 < k < |Trace(n, descend)| ==> Leaves(Trace(n, descend)[..k]) < Opens(Trace(n, descend)[..k], descend)
  {
    var t := Trace(n, descend);
    ChildrenWellNested(n.children, descend);
    var body := ChildrenTrace(n.children, descend);
    var enter: seq<Event> := [Enter(n.path, n.name)];
    assert enter[..0] == [] && enter[..1] == enter;
    var open := enter + body;
    assert Leaves(enter) == 0 && Opens(enter, descend) == 1;
    CountsAppend(enter, body, descend);
    forall k | 0 < k <= |open|
      ensures Leaves(open[..k]) < Opens(open[..k], descend)
    {
      assert open[..k] == enter + body[..k - 1];
      CountsAppend(enter, body[..k - 1], descend);
    }
    assert t == open + [Leave];
    CountsAppend(open, [Leave], descend);
    assert [Leave][..|[Leave]| - 1] == [];
    forall k | 0 < k <= |t|
      ensures Leaves(t[..k]) <= Opens(t[..k], descend)
      ensures k < |t| ==> Leaves(t[..k]) < Opens(t[..k], descend)
    {
      if k < |t| {
        assert t[..k] == open[..k];
      } else {
        assert t[..k] == t;
      }
    }
    assert t[..0] == [];
  }

  // ----- which nodes are reached -----

  /** The nodes whose `accept` is called, in call order. */
  function Reached(n: Node, descend: Decision): (r: seq<Node>)
    ensures |r| >= 1 && r[0] == n
    decreases n
  {
    match n
    case LeafSnapshot(_, _, _) => [n]
    case DirectorySnapshot(path, name, children) =>
      if !descend(path, name) then [n] else [n] + ReachedChildren(children, descend)
  }

  function ReachedChildren(cs: seq<Node>, descend: Decision): seq<Node>
    decreases cs
  {
    if cs == [] then [] else ReachedChildren(cs[..|cs| - 1], descend) + Reached(cs[|cs| - 1], descend)
  }

  /** The call by which node `x` makes itself known to the visitor. */
  function Announce(x: Node): Event {
    match x
    case DirectorySnapshot(path, name, _) => Enter(path, name)
    case LeafSnapshot(_, _, _) => Leaf(x)
  }

  function Announcements(xs: seq<Node>): (t: seq<Event>)
    ensures |t| == |xs| && forall i :: 0 <= i < |xs| ==> t[i] == Announce(xs[i])
  {
    seq(|xs|, i requires 0 <= i < |xs| => Announce(xs[i]))
  }

  lemma AnnouncementsAppend(a: seq<Node>, b: seq<Node>)
    ensures Announcements(a + b) == Announcements(a) + Announcements(b)
  {
  }

  /** The events of `t` other than `postVisitDirectory`. */
  function Calls(t: seq<Event>): seq<Event> {
    if t == [] then [] else Calls(t[..|t| - 1]) + (if t[|t| - 1].Leave? then [] else [t[|t| - 1]])
  }

  lemma {:induction false} CallsAppend(a: seq<Event>, b: seq<Event>)
    ensures Calls(a + b) == Calls(a) + Calls(b)
  {
    if b == [] {
      assert a + b == a;
    } else {
      assert (a + b)[..|a + b| - 1] == a + b[..|b| - 1];
      CallsAppend(a, b[..|b| - 1]);
    }
  }

  /** Without its `postVisitDirectory` calls, the traversal of `x` announces the nodes it reaches. */
  predicate AnnouncesReached(x: Node, descend: Decision) {
    Calls(Trace(x, descend)) == Announcements(Reached(x, descend))
  }

  lemma {:induction false} ChildrenCalls(cs: seq<Node>, descend: Decision)
    requires forall i :: 0 <= i < |cs| ==> AnnouncesReached(cs[i], descend)
    ensures Calls(ChildrenTrace(cs, descend)) == Announcements(ReachedChildren(cs, descend))
  {
    if cs != [] {
      var init, last := cs[..|cs| - 1], cs[|cs| - 1];
      var before, after := ChildrenTrace(init, descend), Trace(last, descend);
      var reachedBefore, reachedAfter := ReachedChildren(init, descend), Reached(last, descend);
      assert ChildrenTrace(cs, descend) == before + after;
      assert ReachedChildren(cs, descend) == reachedBefore + reachedAfter;
      assert forall i :: 0 <= i < |init| ==> init[i] == cs[i];
      ChildrenCalls(init, descend);
      assert AnnouncesReached(last, descend);
      CallsAppend(before, after);
      AnnouncementsAppend(reachedBefore, reachedAfter);
    }
  }

  /**
    Apart from `postVisitDirectory`, the traversal announces exactly the
    reached nodes, each once, in depth-first order.
   */
  lemma {:induction false} TraceAnnouncesReachedNodes(n: Node, descend: Decision)
    ensures Calls(Trace(n, descend)) == Announcements(Reached(n, descend))
    decreases n
  {
    match n
    case LeafSnapshot(_, _, _) =>
      assert Calls([Leaf(n)]) == Calls([]) + [Leaf(n)];
    case DirectorySnapshot(path, name, cs) =>
      if descend(path, name) {
        forall i | 0 <= i < |cs| ensures AnnouncesReached(cs[i], descend) {
          TraceAnnouncesReachedNodes(cs[i], descend);
        }
        DescentAnnouncesReachedNodes(n, descend);
      } else {
        assert Calls([Enter(path, name)]) == Calls([]) + [Enter(path, name)];
      }
  }

  /** The step of `TraceAnnouncesReachedNodes` for a directory that descends. */
  lemma DescentAnnouncesReachedNodes(n: Node, descend: Decision)
    requires n.DirectorySnapshot? && descend(n.path, n.name)
    requires forall i :: 0 <= i < |n.children| ==> AnnouncesReached(n.children[i], descend)
    ensures AnnouncesReached(n, descend)
  {
    var enter: seq<Event> := [Enter(n.path, n.name)];
    var body, reached := ChildrenTrace(n.children, descend), ReachedChildren(n.children, descend);
    ChildrenCalls(n.children, descend);
    assert Trace(n, descend) == enter + body + [Leave];
    CallsAppend(enter + body, [Leave]);
    assert Calls([Leave]) == Calls([]);
    CallsAppend(enter, body);
    assert Calls(enter) == Calls([]) + enter;
    AnnouncementsAppend([n], reached);
  }

  /** Number of nodes in the tree. */
  function Size(n: Node): nat
    decreases n
  {
    match n
    case LeafSnapshot(_, _, _) => 1
    case DirectorySnapshot(_, _, children) => 1 + ChildrenSize(children)
  }

  function ChildrenSize(cs: seq<Node>): nat
    decreases cs
  {
    if cs == [] then 0 else ChildrenSize(cs[..|cs| - 1]) + Size(cs[|cs| - 1])
  }

  /** `x` is `n` or a node in the subtree of one of `n`'s children. */
  predicate InTree(x: Node, n: Node)
    decreases n
  {
    x == n || (n.DirectorySnapshot? && exists i :: 0 <= i < |n.children| && InTree(x, n.children[i]))
  }

  lemma {:induction false} ReachedChildrenContains(cs: seq<Node>, descend: Decision, i: nat, x: Node)
    requires i < |cs| && x in Reached(cs[i], descend)
    ensures x in ReachedChildren(cs, descend)
  {
    if i < |cs| - 1 {
      ReachedChildrenContains(cs[..|cs| - 1], descend, i, x);
    }
  }

  /** A visitor that never refuses reaches every node of the tree, and reaches no more nodes than the tree has. */
  lemma {:induction false} AlwaysDescendingReachesEveryNode(n: Node, descend: Decision)
    requires forall path, name :: descend(path, name)
    ensures forall x :: InTree(x, n) ==> x in Reached(n, descend)
    ensures |Reached(n, descend)| == Size(n)
    decreases n
  {
    match n
    case LeafSnapshot(_, _, _) =>
    case DirectorySnapshot(_, _, cs) =>
      forall i | 0 <= i < |cs|
        ensures |Reached(cs[i], descend)| == Size(cs[i])
        ensures forall x :: InTree(x, cs[i]) ==> x in Reached(cs[i], descend)
      {
        AlwaysDescendingReachesEveryNode(cs[i], descend);
      }
      ChildrenReachEveryNode(cs, descend);
      forall x | InTree(x, n) ensures x in Reached(n, descend) {
        if x != n {
          var i :| 0 <= i < |cs| && InTree(x, cs[i]);
          ReachedChildrenContains(cs, descend, i, x);
        }
      }
  }

  lemma {:induction false} ChildrenReachEveryNode(cs: seq<Node>, descend: Decision)
    requires forall i :: 0 <= i < |cs| ==> |Reached(cs[i], descend)| == Size(cs[i])
    ensures |ReachedChildren(cs, descend)| == ChildrenSize(cs)
  {
    if cs != [] {
      ChildrenReachEveryNode(cs[..|cs| - 1], descend);
    }
  }

  // ----- paths -----

  predicate Prefix(p: Path, q: Path) {
    |p| <= |q| && q[..|p|] == p
  }

  /**
    The walker's invariant on a snapshot tree: a node's name is the last
    segment of its path, and a child's path is its parent's path extended
    by the child's name.
   */
  predicate WellPathed(n: Node)
    decreases n
  {
    && |n.path| >= 1
    && n.name == n.path[|n.path| - 1]
    && (n.DirectorySnapshot? ==>
          forall i :: 0 <= i < |n.children| ==>
            n.children[i].path == n.path + [n.children[i].name] && WellPathed(n.children[i]))
  }

  /** `ev` concerns the node at `p` or a node below it. */
  predicate Under(ev: Event, p: Path) {
    match ev
    case Enter(q, _) => Prefix(p, q)
    case Leaf(x) => Prefix(p, x.path)
    case Leave => true
  }

  /** `ev` concerns a node strictly below `p`. */
  predicate StrictlyBelow(ev: Event, p: Path) {
    match ev
    case Enter(q, _) => Prefix(p, q) && |q| > |p|
    case Leaf(x) => Prefix(p, x.path) && |x.path| > |p|
    case Leave => false
  }

  /** The traversal of a node never leaves its subtree. */
  lemma {:induction false} EventsStayUnder(n: Node, descend: Decision)
    requires WellPathed(n)
    ensures forall ev :: ev in Trace(n, descend) ==> Under(ev, n.path)
    decreases n
  {
    match n
    case LeafSnapshot(_, _, _) =>
    case DirectorySnapshot(path, name, cs) =>
      forall ev | ev in Trace(n, descend) ensures Under(ev, path) {
        if ev in ChildrenTrace(cs, descend) {
          ChildrenTraceMember(cs, descend, ev);
          var i :| 0 <= i < |cs| && ev in Trace(cs[i], descend);
          EventsStayUnder(cs[i], descend);
          assert Under(ev, cs[i].path);
          assert cs[i].path[..|path|] == path;
        }
      }
  }

  /** `preVisitDirectory` is called once with the directory's own path: first, and never again. */
  lemma PreVisitCalledOnce(n: Node, descend: Decision)
    requires WellPathed(n) && n.DirectorySnapshot?
    ensures Trace(n, descend)[0] == Enter(n.path, n.name)
    ensures forall i :: 0 < i < |Trace(n, descend)| ==> !(Trace(n, descend)[i].Enter? && Trace(n, descend)[i].path == n.path)
  {
    var t := Trace(n, descend);
    forall i | 0 < i < |t| ensures !(t[i].Enter? && t[i].path == n.path) {
      if descend(n.path, n.name) && i < |t| - 1 {
        var ev := t[i];
        assert ev in ChildrenTrace(n.children, descend);
        ChildrenTraceMember(n.children, descend, ev);
        var j :| 0 <= j < |n.children| && ev in Trace(n.children[j], descend);
        EventsStayUnder(n.children[j], descend);
      }
    }
  }

  /**
    Pruning: once `preVisitDirectory(p, name)` answers false, nothing
    strictly below `p` appears anywhere in the traversal.
   */
  lemma {:induction false} NothingBelowRefused(n: Node, descend: Decision, p: Path)
    requires WellPathed(n)
    requires Prefix(n.path, p) && |p| >= 1 && !descend(p, p[|p| - 1])
    ensures forall ev :: ev in Trace(n, descend) ==> !StrictlyBelow(ev, p)
    decreases n
  {
    match n
    case LeafSnapshot(_, _, _) =>
    case DirectorySnapshot(path, name, cs) =>
      if path == p || !descend(path, name) {
        assert Trace(n, descend) == [Enter(path, name)];
      } else {
        forall ev | ev in Trace(n, descend) ensures !StrictlyBelow(ev, p) {
          if ev in ChildrenTrace(cs, descend) {
            ChildrenTraceMember(cs, descend, ev);
            var i :| 0 <= i < |cs| && ev in Trace(cs[i], descend);
            var c := cs[i];
            assert |c.path| <= |p|;
            if Prefix(c.path, p) {
              NothingBelowRefused(c, descend, p);
            } else {
              EventsStayUnder(c, descend);
            }
          }
        }
      }
  }

  // ----- the tree root{a.txt, sub{b.txt}} -----

  const ExampleA: Node := LeafSnapshot(["root", "a.txt"], "a.txt", FileLeaf)
  const ExampleB: Node := LeafSnapshot(["root", "sub", "b.txt"], "b.txt", FileLeaf)
  const ExampleSub: Node := DirectorySnapshot(["root", "sub"], "sub", [ExampleB])
  const ExampleRoot: Node := DirectorySnapshot(["root"], "root", [ExampleA, ExampleSub])

  /** A visitor that always descends sees every node, then closes `sub` and `root`. */
  lemma ExampleAlwaysDescending(descend: Decision)
    requires forall path, name :: descend(path, name)
    ensures Trace(ExampleRoot, descend)
         == [Enter(["root"], "root"), Leaf(ExampleA), Enter(["root", "sub"], "sub"), Leaf(ExampleB), Leave, Leave]
  {
    assert ChildrenTrace([ExampleA, ExampleSub], descend)
        == ChildrenTrace([ExampleA], descend) + Trace(ExampleSub, descend);
    assert ChildrenTrace([ExampleA], descend) == ChildrenTrace([], descend) + Trace(ExampleA, descend);
    assert ChildrenTrace([ExampleB], descend) == ChildrenTrace([], descend) + Trace(ExampleB, descend);
  }

  /** A visitor that refuses `sub` never sees `b.txt`, and only `root` is closed. */
  lemma ExampleRefusingSub(descend: Decision)
    requires descend(["root"], "root") && !descend(["root", "sub"], "sub")
    ensures Trace(ExampleRoot, descend)
         == [Enter(["root"], "root"), Leaf(ExampleA), Enter(["root", "sub"], "sub"), Leave]
  {
    assert ChildrenTrace([ExampleA, ExampleSub], descend)
        == ChildrenTrace([ExampleA], descend) + Trace(ExampleSub, descend);
    assert ChildrenTrace([ExampleA], descend) == ChildrenTrace([], descend) + Trace(ExampleA, descend);
  }
}
