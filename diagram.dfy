/**
 * The mutable side of a sequence diagram: the Diagram object whose root list, node arena
 * and edge list are changed in place, and the operation processor that executes
 * operations on it and keeps the undo and redo histories.
 */
module Diagrams {
  import opened Wrappers
  import opened Graphs
  import opened Operations

  class Diagram {
    var rootNodes: seq<NodeId>
    var nodes: map<NodeId, Node>
    var edges: seq<Edge>

    /** The diagram's current contents as a value. */
    function State(): Graph
      reads this
    {
      Graph(rootNodes, nodes, edges)
    }

    /** A new diagram holds nothing. */
    constructor ()
      ensures State() == Empty
    {
      rootNodes, nodes, edges := [], map[], [];
    }

    /**
     * addRootNode: a new node without parent or children becomes the last root. A node the
     * diagram already holds is refused and nothing changes.
     */
    method AddRootNode(n: NodeId, kind: NodeKind) returns (ok: bool)
      modifies this
      ensures ok <==> n !in old(nodes)
      ensures ok ==> rootNodes == old(rootNodes) + [n] && nodes == old(nodes)[n := Node(kind, None, [])]
      ensures !ok ==> rootNodes == old(rootNodes) && nodes == old(nodes)
      ensures edges == old(edges)
    {
      ok := n !in nodes;
      if ok {
        rootNodes := rootNodes + [n];
        nodes := nodes[n := Node(kind, None, [])];
      }
    }

    /**
     * addChild on a parameter node: a new call node becomes the last child of `p`, with `p`
     * as its parent. Refused, with nothing changed, when `p` is not a parameter node of the
     * diagram's arena or `c` is already held.
     */
    method AddChild(p: NodeId, c: NodeId, kind: NodeKind) returns (ok: bool)
      modifies this
      ensures ok <==> p in old(nodes) && old(nodes)[p].kind == ImplicitParameterNode && c !in old(nodes)
      ensures ok ==> State() == WithChild(old(State()), p, c, kind)
      ensures !ok ==> State() == old(State())
    {
      ok := p in nodes && nodes[p].kind == ImplicitParameterNode && c !in nodes;
      if ok {
        nodes := nodes[p := nodes[p].(children := nodes[p].children + [c])][c := Node(kind, Some(p), [])];
      }
    }

    /**
     * connect followed by addEdge: the edge, fixed from `start` to `end`, becomes the last
     * edge. The endpoints are not checked: a note edge may end at a note that is not in the
     * diagram.
     */
    method AddEdge(id: EdgeId, kind: EdgeKind, start: NodeId, end: NodeId) returns (e: Edge)
      modifies this
      ensures e.id == id && e.kind == kind && e.start == start && e.end == end
      ensures edges == old(edges) + [e]
      ensures rootNodes == old(rootNodes) && nodes == old(nodes)
    {
      e := Edge(id, kind, start, end);
      edges := edges + [e];
    }

    /** One primitive step, changed in place. */
    method PerformStep(s: Step)
      requires CanApplyStep(State(), s)
      modifies this
      ensures State() == ApplyStep(old(State()), s)
    {
      match s
      case InsertRoot(n, i) =>
        rootNodes := InsertAt(rootNodes, i, n);
      case RemoveRoot(n, i) =>
        rootNodes := RemoveAt(rootNodes, i);
      case InsertChild(p, c, i) =>
        var pn := nodes[p];
        nodes := nodes[p := pn.(children := InsertAt(pn.children, i, c))][c := nodes[c].(parent := Some(p))];
      case RemoveChild(p, c, i) =>
        var pn := nodes[p];
        nodes := nodes[p := pn.(children := RemoveAt(pn.children, i))][c := nodes[c].(parent := None)];
      case InsertEdge(e, i) =>
        edges := InsertAt(edges, i, e);
      case RemoveEdge(e, i) =>
        edges := RemoveAt(edges, i);
    }

    /** DiagramOperation.execute: the steps of the operation, one after the other. */
    method Perform(op: Operation)
      requires CanApply(State(), op)
      modifies this
      ensures State() == Apply(old(State()), op)
    {
      var steps := Steps(op);
      var i := 0;
      while i < |steps|
        invariant 0 <= i <= |steps|
        invariant CanApplyAll(State(), steps[i..])
        invariant ApplyAll(State(), steps[i..]) == Apply(old(State()), op)
      {
        assert steps[i..][1..] == steps[i + 1..];
        PerformStep(steps[i]);
        i := i + 1;
      }
    }
  }

  /** The arena after `c` is appended to the children of `p`, with `p` as its parent. */
  function WithChild(g: Graph, p: NodeId, c: NodeId, kind: NodeKind): Graph
    requires p in g.nodes
  {
    g.(nodes := g.nodes[p := g.nodes[p].(children := g.nodes[p].children + [c])]
                       [c := Node(kind, Some(p), [])])
  }

  /** Adding a new root keeps the structural invariant. */
  lemma {:induction false} AddRootKeepsWellFormed(g: Graph, n: NodeId, kind: NodeKind)
    requires WellFormed(g) && n !in g.nodes
    ensures WellFormed(g.(roots := g.roots + [n], nodes := g.nodes[n := Node(kind, None, [])]))
  {
    var h := g.(roots := g.roots + [n], nodes := g.nodes[n := Node(kind, None, [])]);
    assert n !in g.roots;
    assert RootsDetached(h) by {
      forall i, j | 0 <= i < j < |h.roots| ensures h.roots[i] != h.roots[j] {
        if j == |g.roots| {
          assert h.roots[i] in g.roots;
        }
      }
    }
    assert ChildrenPointBack(h) by {
      forall q, d | q in h.nodes && d in h.nodes[q].children
        ensures d in h.nodes && h.nodes[d].parent == Some(q)
      {
        assert q != n && d in g.nodes[q].children;
      }
    }
    assert ParentsList(h) by {
      forall d | d in h.nodes && h.nodes[d].parent.Some?
        ensures h.nodes[d].parent.value in h.nodes
        ensures d in h.nodes[h.nodes[d].parent.value].children
      {
        var q := g.nodes[d].parent.value;
        assert d in g.nodes[q].children;
      }
    }
    assert EdgesConnectNodes(h);
  }

  /** Adding an edge between two arena nodes keeps the structural invariant. */
  lemma AddEdgeKeepsWellFormed(g: Graph, e: Edge)
    requires WellFormed(g) && e.start in g.nodes && e.end in g.nodes
    ensures WellFormed(g.(edges := g.edges + [e]))
  {
  }

  /** Adding a new child to an arena node keeps the structural invariant. */
  lemma AddChildKeepsWellFormed(g: Graph, p: NodeId, c: NodeId, kind: NodeKind)
    requires WellFormed(g) && p in g.nodes && c !in g.nodes
    ensures WellFormed(WithChild(g, p, c, kind))
  {
    AddChildKeepsChildren(g, p, c, kind);
    AddChildKeepsParents(g, p, c, kind);
  }

  lemma AddChildKeepsChildren(g: Graph, p: NodeId, c: NodeId, kind: NodeKind)
    requires ChildrenPointBack(g) && p in g.nodes && c !in g.nodes
    ensures ChildrenPointBack(WithChild(g, p, c, kind))
  {
    var h := WithChild(g, p, c, kind);
    assert c !in g.nodes[p].children;
    forall q, d | q in h.nodes && d in h.nodes[q].children
      ensures d in h.nodes && h.nodes[d].parent == Some(q)
    {
      if q == p && d != c {
        assert d in g.nodes[p].children;
      }
    }
  }

  lemma AddChildKeepsParents(g: Graph, p: NodeId, c: NodeId, kind: NodeKind)
    requires ParentsList(g) && p in g.nodes && c !in g.nodes
    ensures ParentsList(WithChild(g, p, c, kind))
  {
    var h := WithChild(g, p, c, kind);
    forall d | d in h.nodes && h.nodes[d].parent.Some?
      ensures h.nodes[d].parent.value in h.nodes
      ensures d in h.nodes[h.nodes[d].parent.value].children
    {
      if d != c {
        var q := g.nodes[d].parent.value;
        assert d in g.nodes[q].children;
      }
    }
  }

  /** Every recorded operation can be undone, most recent first, from the diagram `g`. */
  ghost predicate CanUndoAll(g: Graph, history: seq<Operation>)
    decreases |history|
  {
    |history| == 0 ||
    (var op := history[|history| - 1];
     CanApply(g, Inverse(op)) && CanUndoAll(Apply(g, Inverse(op)), history[..|history| - 1]))
  }

  /** Every undone operation can be redone, most recently undone first, from the diagram `g`. */
  ghost predicate CanRedoAll(g: Graph, undone: seq<Operation>)
    decreases |undone|
  {
    |undone| == 0 ||
    (var op := undone[|undone| - 1];
     CanApply(g, op) && CanRedoAll(Apply(g, op), undone[..|undone| - 1]))
  }

  /** Executing a new operation leaves a history that can be undone back to where it started. */
  lemma ExecuteKeepsHistory(g: Graph, history: seq<Operation>, op: Operation)
    requires CanUndoAll(g, history) && CanApply(g, op)
    ensures CanUndoAll(Apply(g, op), history + [op])
  {
    UndoRestores(g, op);
    assert (history + [op])[..|history|] == history;
  }

  /** After an undo, the shorter history can still be undone and the undone operation redone. */
  lemma UndoKeepsHistories(g: Graph, history: seq<Operation>, undone: seq<Operation>)
    requires history != [] && CanUndoAll(g, history) && CanRedoAll(g, undone)
    ensures var op := history[|history| - 1];
      && CanApply(g, Inverse(op))
      && CanUndoAll(Apply(g, Inverse(op)), history[..|history| - 1])
      && CanRedoAll(Apply(g, Inverse(op)), undone + [op])
  {
    var op := history[|history| - 1];
    UndoRestores(g, Inverse(op));
    InverseInvolutive(op);
    assert (undone + [op])[..|undone|] == undone;
  }

  /** After a redo, the longer history can still be undone and the rest redone. */
  lemma RedoKeepsHistories(g: Graph, history: seq<Operation>, undone: seq<Operation>)
    requires undone != [] && CanUndoAll(g, history) && CanRedoAll(g, undone)
    ensures var op := undone[|undone| - 1];
      && CanApply(g, op)
      && CanRedoAll(Apply(g, op), undone[..|undone| - 1])
      && CanUndoAll(Apply(g, op), history + [op])
  {
    var op := undone[|undone| - 1];
    ExecuteKeepsHistory(g, history, op);
  }

  /**
   * DiagramOperationProcessor: a stack of executed operations and a stack of undone ones.
   */
  class OperationProcessor {
    var undoStack: seq<Operation>
    var redoStack: seq<Operation>

    /** The histories fit the diagram: every entry can still be undone or redone in turn. */
    ghost predicate Tracks(d: Diagram)
      reads this, d
    {
      CanUndoAll(d.State(), undoStack) && CanRedoAll(d.State(), redoStack)
    }

    constructor ()
      ensures undoStack == [] && redoStack == []
    {
      undoStack, redoStack := [], [];
    }

    /**
     * executeNewOperation: runs the operation, records it for undo and forgets every
     * undone operation (there is no branching history).
     */
    method ExecuteNewOperation(d: Diagram, op: Operation)
      requires Tracks(d) && CanApply(d.State(), op)
      modifies this, d
      ensures Tracks(d)
      ensures d.State() == Apply(old(d.State()), op)
      ensures undoStack == old(undoStack) + [op] && redoStack == []
    {
      ExecuteKeepsHistory(d.State(), undoStack, op);
      d.Perform(op);
      undoStack := undoStack + [op];
      redoStack := [];
    }

    /**
     * undo: nothing happens when there is nothing to undo; otherwise the most recent
     * operation is undone and moves to the redo stack.
     */
    method Undo(d: Diagram)
      requires Tracks(d)
      modifies this, d
      ensures Tracks(d)
      ensures old(undoStack) == [] ==>
        d.State() == old(d.State()) && undoStack == [] && redoStack == old(redoStack)
      ensures old(undoStack) != [] ==>
        var op := old(undoStack)[|old(undoStack)| - 1];
        && d.State() == Apply(old(d.State()), Inverse(op))
        && undoStack == old(undoStack)[..|old(undoStack)| - 1]
        && redoStack == old(redoStack) + [op]
    {
      if |undoStack| > 0 {
        var op := undoStack[|undoStack| - 1];
        UndoKeepsHistories(d.State(), undoStack, redoStack);
        d.Perform(Inverse(op));
        undoStack := undoStack[..|undoStack| - 1];
        redoStack := redoStack + [op];
      }
    }

    /**
     * redo: nothing happens when there is nothing to redo; otherwise the most recently
     * undone operation runs again and moves back to the undo stack.
     */
    method Redo(d: Diagram)
      requires Tracks(d)
      modifies this, d
      ensures Tracks(d)
      ensures old(redoStack) == [] ==>
        d.State() == old(d.State()) && redoStack == [] && undoStack == old(undoStack)
      ensures old(redoStack) != [] ==>
        var op := old(redoStack)[|old(redoStack)| - 1];
        && d.State() == Apply(old(d.State()), op)
        && redoStack == old(redoStack)[..|old(redoStack)| - 1]
        && undoStack == old(undoStack) + [op]
    {
      if |redoStack| > 0 {
        var op := redoStack[|redoStack| - 1];
        RedoKeepsHistories(d.State(), undoStack, redoStack);
        d.Perform(op);
        redoStack := redoStack[..|redoStack| - 1];
        undoStack := undoStack + [op];
      }
    }
  }
}
