/**
 * Reversible changes to a diagram. Each primitive operation stores exactly what is needed
 * to undo it (the node or edge and the index it had); a compound operation runs its steps
 * in order and is undone by running the inverses of its steps in reverse order.
 */
module Operations {
  import opened Wrappers
  import opened Graphs

  /** `s` with `x` inserted so that it ends up at index `i`. */
  function InsertAt<T>(s: seq<T>, i: nat, x: T): (r: seq<T>)
    requires i <= |s|
    ensures |r| == |s| + 1 && r[i] == x
    ensures forall j :: 0 <= j < i ==> r[j] == s[j]
    ensures forall j :: i < j < |r| ==> r[j] == s[j - 1]
  {
    s[..i] + [x] + s[i..]
  }

  /** `s` without the element at index `i`. */
  function RemoveAt<T>(s: seq<T>, i: nat): (r: seq<T>)
    requires i < |s|
    ensures |r| == |s| - 1
    ensures forall j :: 0 <= j < i ==> r[j] == s[j]
    ensures forall j :: i <= j < |r| ==> r[j] == s[j + 1]
  {
    s[..i] + s[i + 1..]
  }

  lemma RemoveInsertedAt<T>(s: seq<T>, i: nat, x: T)
    requires i <= |s|
    ensures RemoveAt(InsertAt(s, i, x), i) == s
  {
    assert s[..i] + [x] + s[i..] == s[..i] + ([x] + s[i..]);
  }

  lemma InsertRemovedAt<T>(s: seq<T>, i: nat)
    requires i < |s|
    ensures InsertAt(RemoveAt(s, i), i, s[i]) == s
  {
    var r := RemoveAt(s, i);
    assert r[..i] == s[..i];
    assert r[i..] == s[i + 1..];
    assert s == s[..i] + [s[i]] + s[i + 1..];
  }

  lemma InsertAtMembers<T>(s: seq<T>, i: nat, x: T)
    requires i <= |s|
    ensures forall y :: y in InsertAt(s, i, x) <==> y in s || y == x
  {
    assert InsertAt(s, i, x) == s[..i] + [x] + s[i..];
    assert s == s[..i] + s[i..];
  }

  lemma RemoveAtMembers<T>(s: seq<T>, i: nat)
    requires i < |s|
    ensures forall y :: y in RemoveAt(s, i) ==> y in s
    ensures forall y :: y in s && y != s[i] ==> y in RemoveAt(s, i)
  {
    assert RemoveAt(s, i) == s[..i] + s[i + 1..];
    assert s == s[..i] + [s[i]] + s[i + 1..];
  }

  lemma DistinctInsertAt(s: seq<NodeId>, i: nat, x: NodeId)
    requires i <= |s| && Distinct(s) && x !in s
    ensures Distinct(InsertAt(s, i, x))
  {
    var r := InsertAt(s, i, x);
    forall a, b | 0 <= a < b < |r| ensures r[a] != r[b] {
      if a == i {
        assert r[b] == s[b - 1];
      } else if b == i {
        assert r[a] == s[a];
      }
    }
  }

  lemma DistinctRemoveAt(s: seq<NodeId>, i: nat)
    requires i < |s| && Distinct(s)
    ensures Distinct(RemoveAt(s, i))
    ensures s[i] !in RemoveAt(s, i)
  {
    var r := RemoveAt(s, i);
    forall j | 0 <= j < |r| ensures r[j] != s[i] {
      if j >= i {
        assert r[j] == s[j + 1];
      }
    }
  }

  /** One primitive, reversible change to the diagram. */
  datatype Step =
    | InsertRoot(node: NodeId, index: nat)
    | RemoveRoot(node: NodeId, index: nat)
    | InsertChild(parent: NodeId, child: NodeId, index: nat)
    | RemoveChild(parent: NodeId, child: NodeId, index: nat)
    | InsertEdge(edge: Edge, index: nat)
    | RemoveEdge(edge: Edge, index: nat)

  /** A single step, or an atomic group of steps executed and undone as one unit. */
  datatype Operation = Simple(step: Step) | Compound(steps: seq<Step>)

  /**
   * The situation a step is recorded for: a removal names the element found at its index
   * (a root without parent, a child of that parent, an edge between arena nodes, listed
   * once); an insertion puts a detached element back at an index within bounds.
   */
  predicate CanApplyStep(g: Graph, s: Step) {
    match s
    case InsertRoot(n, i) =>
      i <= |g.roots| && n in g.nodes && g.nodes[n].parent == None && n !in g.roots
    case RemoveRoot(n, i) =>
      i < |g.roots| && g.roots[i] == n && n in g.nodes && g.nodes[n].parent == None
      && n !in RemoveAt(g.roots, i)
    case InsertChild(p, c, i) =>
      p != c && p in g.nodes && c in g.nodes && g.nodes[c].parent == None && c !in g.roots
      && i <= |g.nodes[p].children| && c !in g.nodes[p].children
    case RemoveChild(p, c, i) =>
      p != c && p in g.nodes && c in g.nodes && g.nodes[c].parent == Some(p) && c !in g.roots
      && i < |g.nodes[p].children| && g.nodes[p].children[i] == c
      && c !in RemoveAt(g.nodes[p].children, i)
    case InsertEdge(e, i) =>
      i <= |g.edges| && e.start in g.nodes && e.end in g.nodes
    case RemoveEdge(e, i) =>
      i < |g.edges| && g.edges[i] == e && e.start in g.nodes && e.end in g.nodes
  }

  /** The diagram after one step. */
  function ApplyStep(g: Graph, s: Step): (r: Graph)
    requires CanApplyStep(g, s)
    ensures s.InsertRoot? ==> r.roots == InsertAt(g.roots, s.index, s.node)
    ensures s.RemoveRoot? ==> r.roots == RemoveAt(g.roots, s.index)
    ensures s.InsertRoot? || s.RemoveRoot? ==> r.nodes == g.nodes && r.edges == g.edges
    ensures s.InsertChild? || s.RemoveChild? ==>
      && r.roots == g.roots && r.edges == g.edges && r.nodes.Keys == g.nodes.Keys
      && (forall q :: q in g.nodes && q != s.parent && q != s.child ==> r.nodes[q] == g.nodes[q])
    ensures s.InsertChild? ==>
      && r.nodes[s.parent] == g.nodes[s.parent].(children := InsertAt(g.nodes[s.parent].children, s.index, s.child))
      && r.nodes[s.child] == g.nodes[s.child].(parent := Some(s.parent))
    ensures s.RemoveChild? ==>
      && r.nodes[s.parent] == g.nodes[s.parent].(children := RemoveAt(g.nodes[s.parent].children, s.index))
      && r.nodes[s.child] == g.nodes[s.child].(parent := None)
    ensures s.InsertEdge? ==> r.edges == InsertAt(g.edges, s.index, s.edge)
    ensures s.RemoveEdge? ==> r.edges == RemoveAt(g.edges, s.index)
    ensures s.InsertEdge? || s.RemoveEdge? ==> r.roots == g.roots && r.nodes == g.nodes
  {
    match s
    case InsertRoot(n, i) => g.(roots := InsertAt(g.roots, i, n))
    case RemoveRoot(n, i) => g.(roots := RemoveAt(g.roots, i))
    case InsertChild(p, c, i) =>
      var pn := g.nodes[p];
      g.(nodes := g.nodes[p := pn.(children := InsertAt(pn.children, i, c))]
                         [c := g.nodes[c].(parent := Some(p))])
    case RemoveChild(p, c, i) =>
      var pn := g.nodes[p];
      g.(nodes := g.nodes[p := pn.(children := RemoveAt(pn.children, i))]
                         [c := g.nodes[c].(parent := None)])
    case InsertEdge(e, i) => g.(edges := InsertAt(g.edges, i, e))
    case RemoveEdge(e, i) => g.(edges := RemoveAt(g.edges, i))
  }

  /** The step that undoes `s`. */
  function InverseStep(s: Step): (r: Step)
    ensures s.InsertRoot? <==> r.RemoveRoot?
    ensures s.RemoveRoot? <==> r.InsertRoot?
    ensures s.InsertChild? <==> r.RemoveChild?
    ensures s.RemoveChild? <==> r.InsertChild?
    ensures s.InsertEdge? <==> r.RemoveEdge?
    ensures s.RemoveEdge? <==> r.InsertEdge?
    ensures r.index == s.index
    ensures s.InsertRoot? || s.RemoveRoot? ==> r.node == s.node
    ensures s.InsertChild? || s.RemoveChild? ==> r.parent == s.parent && r.child == s.child
    ensures s.InsertEdge? || s.RemoveEdge? ==> r.edge == s.edge
  {
    match s
    case InsertRoot(n, i) => RemoveRoot(n, i)
    case RemoveRoot(n, i) => InsertRoot(n, i)
    case InsertChild(p, c, i) => RemoveChild(p, c, i)
    case RemoveChild(p, c, i) => InsertChild(p, c, i)
    case InsertEdge(e, i) => RemoveEdge(e, i)
    case RemoveEdge(e, i) => InsertEdge(e, i)
  }

  /** Undoing a step is possible right after it, and restores the diagram exactly. */
  lemma {:induction false} StepUndo(g: Graph, s: Step)
    requires CanApplyStep(g, s)
    ensures CanApplyStep(ApplyStep(g, s), InverseStep(s))
    ensures ApplyStep(ApplyStep(g, s), InverseStep(s)) == g
  {
    var h := ApplyStep(g, s);
    match s
    case InsertRoot(n, i) =>
      RemoveInsertedAt(g.roots, i, n);
    case RemoveRoot(n, i) =>
      InsertRemovedAt(g.roots, i);
    case InsertChild(p, c, i) =>
      RemoveInsertedAt(g.nodes[p].children, i, c);
      assert ApplyStep(h, InverseStep(s)).nodes == g.nodes;
    case RemoveChild(p, c, i) =>
      InsertRemovedAt(g.nodes[p].children, i);
      assert ApplyStep(h, InverseStep(s)).nodes == g.nodes;
    case InsertEdge(e, i) =>
      RemoveInsertedAt(g.edges, i, e);
    case RemoveEdge(e, i) =>
      InsertRemovedAt(g.edges, i);
  }

  /** Undoing the undo of a step is the step itself. */
  lemma InverseStepInvolutive(s: Step)
    ensures InverseStep(InverseStep(s)) == s
  {
  }

  /** The steps can be applied one after the other, each to the result of those before it. */
  predicate CanApplyAll(g: Graph, steps: seq<Step>)
    decreases |steps|
  {
    |steps| == 0 || (CanApplyStep(g, steps[0]) && CanApplyAll(ApplyStep(g, steps[0]), steps[1..]))
  }

  /** The diagram after the steps, executed in order. */
  function ApplyAll(g: Graph, steps: seq<Step>): (r: Graph)
    requires CanApplyAll(g, steps)
    ensures r.nodes.Keys == g.nodes.Keys
    decreases |steps|
  {
    if |steps| == 0 then g else ApplyAll(ApplyStep(g, steps[0]), steps[1..])
  }

  /** The undo of a sequence of steps: the inverses of the steps, last step first. */
  function InverseAll(steps: seq<Step>): (r: seq<Step>)
    ensures |r| == |steps|
    ensures forall i :: 0 <= i < |steps| ==> r[i] == InverseStep(steps[|steps| - 1 - i])
  {
    if |steps| == 0 then [] else InverseAll(steps[1..]) + [InverseStep(steps[0])]
  }

  /** Running `a` then `b` is running `a + b`. */
  lemma {:induction false} ApplyAllAppend(g: Graph, a: seq<Step>, b: seq<Step>)
    ensures CanApplyAll(g, a + b) <==> CanApplyAll(g, a) && CanApplyAll(ApplyAll(g, a), b)
    ensures CanApplyAll(g, a + b) ==> ApplyAll(g, a + b) == ApplyAll(ApplyAll(g, a), b)
    decreases |a|
  {
    if |a| == 0 {
      assert a + b == b;
    } else {
      assert (a + b)[0] == a[0];
      assert (a + b)[1..] == a[1..] + b;
      if CanApplyStep(g, a[0]) {
        ApplyAllAppend(ApplyStep(g, a[0]), a[1..], b);
      }
    }
  }

  /** Undoing a sequence of steps right after it is possible and restores the diagram. */
  lemma {:induction false} ApplyAllUndo(g: Graph, steps: seq<Step>)
    requires CanApplyAll(g, steps)
    ensures CanApplyAll(ApplyAll(g, steps), InverseAll(steps))
    ensures ApplyAll(ApplyAll(g, steps), InverseAll(steps)) == g
    decreases |steps|
  {
    if |steps| > 0 {
      var h := ApplyStep(g, steps[0]);
      var k := ApplyAll(h, steps[1..]);
      var inv := InverseStep(steps[0]);
      ApplyAllUndo(h, steps[1..]);
      StepUndo(g, steps[0]);
      assert ApplyAll(k, InverseAll(steps[1..])) == h;
      assert CanApplyAll(h, [inv]) && ApplyAll(h, [inv]) == g by {
        assert [inv][1..] == [];
      }
      ApplyAllAppend(k, InverseAll(steps[1..]), [inv]);
      assert InverseAll(steps) == InverseAll(steps[1..]) + [inv];
    }
  }

  /** Inverting twice gives back the original steps. */
  lemma {:induction false} InverseAllInvolutive(steps: seq<Step>)
    ensures InverseAll(InverseAll(steps)) == steps
  {
    var r := InverseAll(InverseAll(steps));
    assert |r| == |steps|;
    forall i | 0 <= i < |steps| ensures r[i] == steps[i] {
      InverseStepInvolutive(steps[i]);
    }
  }

  /** The steps an operation consists of. */
  function Steps(op: Operation): seq<Step> {
    match op
    case Simple(s) => [s]
    case Compound(ss) => ss
  }

  predicate CanApply(g: Graph, op: Operation) {
    CanApplyAll(g, Steps(op))
  }

  /**
   * DiagramOperation.execute: the diagram after the operation. No node is created or
   * destroyed: a removed node is only detached, so that undo can put it back.
   */
  function Apply(g: Graph, op: Operation): (r: Graph)
    requires CanApply(g, op)
    ensures r.nodes.Keys == g.nodes.Keys
  {
    ApplyAll(g, Steps(op))
  }

  /** DiagramOperation.undo, as an operation: the inverse steps, last step first. */
  function Inverse(op: Operation): (r: Operation)
    ensures Steps(r) == InverseAll(Steps(op))
  {
    match op
    case Simple(s) => Simple(InverseStep(s))
    case Compound(ss) => Compound(InverseAll(ss))
  }

  /**
   * The undo law: right after any operation, its undo can run and leaves the diagram
   * identical to what it was before (same roots, nodes, children in the same order, edges).
   */
  lemma UndoRestores(g: Graph, op: Operation)
    requires CanApply(g, op)
    ensures CanApply(Apply(g, op), Inverse(op))
    ensures Apply(Apply(g, op), Inverse(op)) == g
  {
    ApplyAllUndo(g, Steps(op));
  }

  /** Undoing the undo is redoing: the inverse of the inverse is the operation itself. */
  lemma InverseInvolutive(op: Operation)
    ensures Inverse(Inverse(op)) == op
  {
    InverseAllInvolutive(Steps(op));
  }

  /**
   * In a well-formed diagram, removing the root, child or edge found at an index is always
   * possible: the recorded removal satisfies CanApplyStep.
   */
  lemma {:induction false} RemovalApplicable(g: Graph, s: Step)
    requires WellFormed(g)
    requires s.RemoveRoot? ==> s.index < |g.roots| && g.roots[s.index] == s.node
    requires s.RemoveChild? ==>
      s.parent in g.nodes && s.index < |g.nodes[s.parent].children|
      && g.nodes[s.parent].children[s.index] == s.child
    requires s.RemoveEdge? ==> s.index < |g.edges| && g.edges[s.index] == s.edge
    requires s.RemoveRoot? || s.RemoveChild? || s.RemoveEdge?
    ensures CanApplyStep(g, s)
  {
    match s
    case RemoveRoot(n, i) =>
      DistinctRemoveAt(g.roots, i);
    case RemoveChild(p, c, i) =>
      DistinctRemoveAt(g.nodes[p].children, i);
      assert c in g.nodes[p].children;
      assert c in g.nodes && g.nodes[c].parent == Some(p);
      assert c !in g.roots;
    case RemoveEdge(e, i) =>
      assert e in g.edges;
  }

  /** Every step keeps the diagram's structural invariant. */
  lemma {:induction false} StepPreservesWellFormed(g: Graph, s: Step)
    requires WellFormed(g) && CanApplyStep(g, s)
    ensures WellFormed(ApplyStep(g, s))
  {
    var h := ApplyStep(g, s);
    match s
    case InsertRoot(n, i) =>
      DistinctInsertAt(g.roots, i, n);
      InsertAtMembers(g.roots, i, n);
    case RemoveRoot(n, i) =>
      DistinctRemoveAt(g.roots, i);
      RemoveAtMembers(g.roots, i);
    case InsertChild(p, c, i) =>
      InsertChildPreservesWellFormed(g, p, c, i);
    case RemoveChild(p, c, i) =>
      RemoveChildPreservesWellFormed(g, p, c, i);
    case InsertEdge(e, i) =>
      InsertAtMembers(g.edges, i, e);
    case RemoveEdge(e, i) =>
      RemoveAtMembers(g.edges, i);
  }

  lemma {:induction false} InsertChildPreservesWellFormed(g: Graph, p: NodeId, c: NodeId, i: nat)
    requires WellFormed(g) && CanApplyStep(g, InsertChild(p, c, i))
    ensures WellFormed(ApplyStep(g, InsertChild(p, c, i)))
  {
    var h := ApplyStep(g, InsertChild(p, c, i));
    var kids := g.nodes[p].children;
    DistinctInsertAt(kids, i, c);
    InsertAtMembers(kids, i, c);
    assert h.nodes[p].children == InsertAt(kids, i, c);
    forall q, d | q in h.nodes && d in h.nodes[q].children
      ensures d in h.nodes && h.nodes[d].parent == Some(q)
    {
      if q != p {
        assert d in g.nodes[q].children;
        assert d != c;
      } else if d != c {
        assert d in kids;
      }
    }
    forall d | d in h.nodes && h.nodes[d].parent.Some?
      ensures h.nodes[d].parent.value in h.nodes
      ensures d in h.nodes[h.nodes[d].parent.value].children
    {
      if d != c {
        var q := g.nodes[d].parent.value;
        assert d in g.nodes[q].children;
      }
    }
  }

  lemma {:induction false} RemoveChildPreservesWellFormed(g: Graph, p: NodeId, c: NodeId, i: nat)
    requires WellFormed(g) && CanApplyStep(g, RemoveChild(p, c, i))
    ensures WellFormed(ApplyStep(g, RemoveChild(p, c, i)))
  {
    var h := ApplyStep(g, RemoveChild(p, c, i));
    RemoveChildKeepsChildren(g, p, c, i);
    RemoveChildKeepsParents(g, p, c, i);
    assert RootsDetached(h);
    assert EdgesConnectNodes(h);
  }

  lemma {:induction false} RemoveChildKeepsChildren(g: Graph, p: NodeId, c: NodeId, i: nat)
    requires ChildrenPointBack(g) && CanApplyStep(g, RemoveChild(p, c, i))
    ensures ChildrenPointBack(ApplyStep(g, RemoveChild(p, c, i)))
  {
    var h := ApplyStep(g, RemoveChild(p, c, i));
    var kids := g.nodes[p].children;
    DistinctRemoveAt(kids, i);
    RemoveAtMembers(kids, i);
    assert h.nodes[p].children == RemoveAt(kids, i);
    forall q, d | q in h.nodes && d in h.nodes[q].children
      ensures d in h.nodes && h.nodes[d].parent == Some(q)
    {
      if q != p {
        assert d in g.nodes[q].children;
      } else {
        assert d in kids && d != c;
      }
    }
  }

  lemma {:induction false} RemoveChildKeepsParents(g: Graph, p: NodeId, c: NodeId, i: nat)
    requires ParentsList(g) && CanApplyStep(g, RemoveChild(p, c, i)) && Distinct(g.nodes[p].children)
    ensures ParentsList(ApplyStep(g, RemoveChild(p, c, i)))
  {
    var h := ApplyStep(g, RemoveChild(p, c, i));
    var kids := g.nodes[p].children;
    RemoveAtMembers(kids, i);
    assert h.nodes[p].children == RemoveAt(kids, i);
    forall d | d in h.nodes && h.nodes[d].parent.Some?
      ensures h.nodes[d].parent.value in h.nodes
      ensures d in h.nodes[h.nodes[d].parent.value].children
    {
      var q := g.nodes[d].parent.value;
      assert d in g.nodes[q].children;
      if q == p {
        assert d != c;
        assert d != kids[i];
      }
    }
  }

  /** Every operation keeps the diagram's structural invariant. */
  lemma {:induction false} ApplyAllPreservesWellFormed(g: Graph, steps: seq<Step>)
    requires WellFormed(g) && CanApplyAll(g, steps)
    ensures WellFormed(ApplyAll(g, steps))
    decreases |steps|
  {
    if |steps| > 0 {
      StepPreservesWellFormed(g, steps[0]);
      ApplyAllPreservesWellFormed(ApplyStep(g, steps[0]), steps[1..]);
    }
  }

  /** Executing an operation, or undoing one, keeps the diagram's structural invariant. */
  lemma ApplyPreservesWellFormed(g: Graph, op: Operation)
    requires WellFormed(g) && CanApply(g, op)
    ensures WellFormed(Apply(g, op))
  {
    ApplyAllPreservesWellFormed(g, Steps(op));
  }
}
