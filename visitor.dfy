/**
  The imperative side of the traversal: a visitor object that records the
  calls it receives, and `Accept`, which walks a snapshot and calls the
  visitor exactly as a directory snapshot's `accept` does.
 */
module Visitor {
  import opened Snapshot

  /** A visitor whose `preVisitDirectory` answers with `descend` and that records every call. */
  class RecordingVisitor {
    const descend: Decision
    var events: seq<Event>

    constructor (descend: Decision)
      ensures this.descend == descend && events == []
    {
      this.descend := descend;
      events := [];
    }

    method PreVisitDirectory(path: Path, name: string) returns (descendInto: bool)
      modifies this
      ensures descendInto == descend(path, name)
      ensures events == old(events) + [Enter(path, name)]
    {
      events := events + [Enter(path, name)];
      descendInto := descend(path, name);
    }

    method PostVisitDirectory()
      modifies this
      ensures events == old(events) + [Leave]
    {
      events := events + [Leave];
    }

    method VisitLeaf(leaf: Node)
      modifies this
      ensures events == old(events) + [Leaf(leaf)]
    {
      events := events + [Leaf(leaf)];
    }
  }

  /**
    `accept(visitor)`: a refused directory returns straight after
    `preVisitDirectory`; otherwise each child accepts the visitor in stored
    order and `postVisitDirectory` follows. The calls made are exactly
    `Trace(n, v.descend)`.
   */
  method Accept(n: Node, v: RecordingVisitor)
    modifies v
    ensures v.events == old(v.events) + Trace(n, v.descend)
    decreases n
  {
    match n
    case LeafSnapshot(_, _, _) =>
      v.VisitLeaf(n);
    case DirectorySnapshot(path, name, children) =>
      var descendInto := v.PreVisitDirectory(path, name);
      if !descendInto {
        return;
      }
      AcceptChildren(children, v);
      v.PostVisitDirectory();
      assert Trace(n, v.descend) == [Enter(path, name)] + ChildrenTrace(children, v.descend) + [Leave];
  }

  /** The loop of `accept` over a descended directory's children: each accepts the visitor in stored order. */
  method AcceptChildren(children: seq<Node>, v: RecordingVisitor)
    modifies v
    ensures v.events == old(v.events) + ChildrenTrace(children, v.descend)
    decreases children
  {
    for i := 0 to |children|
      invariant v.events == old(v.events) + ChildrenTrace(children[..i], v.descend)
    {
      assert children[..i + 1][..i] == children[..i];
      Accept(children[i], v);
    }
    assert children[..|children|] == children;
  }
}
