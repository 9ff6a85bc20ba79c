/**
 * The sample sequence diagram of the usage-scenario tests and the results those tests
 * assert about it: callers, nesting depths, the entry point, exclusive start nodes, edge
 * endpoints, and the element counts after deleting and undoing.
 */
module Scenarios {
  import opened Wrappers
  import opened Graphs
  import opened SequenceInference
  import opened Operations
  import opened Diagrams

  // Three lifelines (implicit parameter nodes) and their call nodes.
  const P1: NodeId := 1
  const P2: NodeId := 2
  const P3: NodeId := 3
  const C1: NodeId := 11
  const C2: NodeId := 12
  const C3: NodeId := 13
  const C4: NodeId := 14
  const C5: NodeId := 15

  const ConstructorE: Edge := Edge(1, ConstructorEdge, C1, C2)
  const ReturnE: Edge := Edge(2, ReturnEdge, C2, C1)
  const CallE1: Edge := Edge(3, CallEdge, C2, C3)
  const CallE2: Edge := Edge(4, CallEdge, C3, C4)
  const CallE3: Edge := Edge(5, CallEdge, C2, C5)

  /**
   * createSampleDiagram: P1 owns C1, P2 owns C2 then C3, P3 owns C4 then C5; C1 constructs
   * C2, which returns to C1; C2 self-calls C3, C3 calls C4 and C2 calls C5.
   */
  function Sample(): Graph {
    Graph([P1, P2, P3],
          map[P1 := Node(ImplicitParameterNode, None, [C1]),
              P2 := Node(ImplicitParameterNode, None, [C2, C3]),
              P3 := Node(ImplicitParameterNode, None, [C4, C5]),
              C1 := Node(CallNode, Some(P1), []),
              C2 := Node(CallNode, Some(P2), []),
              C3 := Node(CallNode, Some(P2), []),
              C4 := Node(CallNode, Some(P3), []),
              C5 := Node(CallNode, Some(P3), [])],
          [ConstructorE, ReturnE, CallE1, CallE2, CallE3])
  }

  /** The sample diagram satisfies the structural invariant. */
  lemma SampleIsWellFormed()
    ensures WellFormed(Sample())
  {
    var g := Sample();
    assert RootsDetached(g);
    assert EdgesConnectNodes(g);
    SampleChildrenPointBack();
    SampleParentsList();
  }

  lemma SampleChildrenPointBack()
    ensures ChildrenPointBack(Sample())
  {
    var g := Sample();
    forall p, c | p in g.nodes && c in g.nodes[p].children
      ensures c in g.nodes && g.nodes[c].parent == Some(p)
    {
      if p == P1 {
        assert c == C1;
      } else if p == P2 {
        assert c == C2 || c == C3;
      } else if p == P3 {
        assert c == C4 || c == C5;
      }
    }
  }

  lemma SampleParentsList()
    ensures ParentsList(Sample())
  {
    var g := Sample();
    forall c | c in g.nodes && g.nodes[c].parent.Some?
      ensures g.nodes[c].parent.value in g.nodes
      ensures c in g.nodes[g.nodes[c].parent.value].children
    {
      assert c in {C1, C2, C3, C4, C5};
      if c == C1 {
      } else if c == C2 {
        assert g.nodes[P2].children[0] == c;
      } else if c == C3 {
        assert g.nodes[P2].children[1] == c;
      } else if c == C4 {
        assert g.nodes[P3].children[0] == c;
      } else {
        assert g.nodes[P3].children[1] == c;
      }
    }
  }

  /** The entry call node C1 has no caller. */
  lemma SampleEntryHasNoCaller()
    ensures Caller(Sample(), C1) == None
  {
  }

  /**
   * Every other call node's caller is the start of the call or constructor edge ending at
   * it, on the same lifeline (C2 for C3) or on another one (C1 for C2, C3 for C4, C2 for C5).
   */
  lemma SampleCallers()
    ensures Caller(Sample(), C2) == Some(C1)
    ensures Caller(Sample(), C3) == Some(C2)
    ensures Caller(Sample(), C4) == Some(C3)
    ensures Caller(Sample(), C5) == Some(C2)
  {
  }

  /** The lifelines of the sample's call nodes. */
  lemma SampleLifelines()
    ensures Lifeline(Sample(), C1) == Some(P1)
    ensures Lifeline(Sample(), C2) == Some(P2) && Lifeline(Sample(), C3) == Some(P2)
    ensures Lifeline(Sample(), C4) == Some(P3) && Lifeline(Sample(), C5) == Some(P3)
  {
  }

  /** Of the sample's call nodes only C3 is self-called. */
  lemma SampleSelfCalls()
    ensures IsSelfCalled(Sample(), C3)
    ensures !IsSelfCalled(Sample(), C1) && !IsSelfCalled(Sample(), C2)
    ensures !IsSelfCalled(Sample(), C4) && !IsSelfCalled(Sample(), C5)
  {
    SampleCallers();
    SampleEntryHasNoCaller();
    SampleLifelines();
  }

  /** C3, called from C2 on its own lifeline, is nested once; C1, C2, C4 and C5 are not nested. */
  lemma SampleNestingDepths()
    ensures HasSelfCallChain(Sample(), C1) && NestingDepth(Sample(), C1) == 0
    ensures HasSelfCallChain(Sample(), C2) && NestingDepth(Sample(), C2) == 0
    ensures HasSelfCallChain(Sample(), C3) && NestingDepth(Sample(), C3) == 1
    ensures HasSelfCallChain(Sample(), C4) && NestingDepth(Sample(), C4) == 0
    ensures HasSelfCallChain(Sample(), C5) && NestingDepth(Sample(), C5) == 0
  {
    var g := Sample();
    SampleSelfCalls();
    SampleCallers();
    NestingDepthCountsSelfCalls(g, [C1]);
    NestingDepthCountsSelfCalls(g, [C2]);
    assert [C3, C2][1..] == [C2];
    NestingDepthCountsSelfCalls(g, [C3, C2]);
    NestingDepthCountsSelfCalls(g, [C4]);
    NestingDepthCountsSelfCalls(g, [C5]);
  }

  /** The sample diagram has an entry point: C1 is its only uncalled call node. */
  lemma SampleHasEntryPoint()
    ensures EntryPoints(Sample()) == {C1}
    ensures HasEntryPoint(Sample())
  {
    var g := Sample();
    SampleEntryHasNoCaller();
    SampleLifelines();
    assert C1 in EntryPoints(g);
    forall n | n in EntryPoints(g) ensures n == C1 {
      OnlyC1IsUncalled(n);
    }
  }

  lemma OnlyC1IsUncalled(n: NodeId)
    requires n in EntryPoints(Sample())
    ensures n == C1
  {
    var g := Sample();
    assert n in g.nodes && g.nodes[n].kind == CallNode && Caller(g, n).None?;
    assert n == P1 || n == P2 || n == P3 || n == C1 || n == C2 || n == C3 || n == C4 || n == C5;
    if n == C2 || n == C3 || n == C4 || n == C5 {
      SampleCallers();
      assert false;
    }
  }

  /** A new, empty sequence diagram has no entry point. */
  lemma EmptyHasNoEntryPoint()
    ensures !HasEntryPoint(Empty)
  {
    NoCallNodeNoEntryPoint(Empty);
  }

  /** A note node outside the diagram and the note edge from C1 to it. */
  const N: NodeId := 20
  const NoteE: Edge := Edge(6, NoteEdge, C1, N)

  /** A note edge never has an exclusive start node. */
  lemma NoteEdgeStartNotExclusive()
    ensures StartNodeIfExclusive(Sample().(edges := Sample().edges + [NoteE]), NoteE) == None
  {
  }

  /** C1 starts no flow besides the constructor edge, so that edge's start C1 is exclusive. */
  lemma ConstructorEdgeStartIsExclusive()
    ensures StartNodeIfExclusive(Sample(), ConstructorE) == Some(C1)
  {
    assert forall f :: f in Sample().edges ==> !IsOtherFlow(ConstructorE, f);
  }

  // A further call node and a call from C1 to it.
  const C6: NodeId := 16
  const CallE4: Edge := Edge(7, CallEdge, C1, C6)

  /** The sample with C6 added as the last activation of lifeline `p` and C1 calling C6. */
  function SampleWithCallFromC1(p: NodeId): Graph
    requires p in Sample().nodes
  {
    var g := WithChild(Sample(), p, C6, CallNode);
    g.(edges := g.edges + [CallE4])
  }

  /** A second call from C1 into the lifeline C1 constructs (P2) keeps C1 exclusive. */
  lemma OtherCallIntoConstructedLifelineKeepsExclusive()
    ensures StartNodeIfExclusive(SampleWithCallFromC1(P2), ConstructorE) == Some(C1)
  {
    var g := SampleWithCallFromC1(P2);
    assert Lifeline(g, C6) == Some(P2) && Lifeline(g, C2) == Some(P2);
    forall f | f in g.edges && IsOtherFlow(ConstructorE, f) ensures SameLifeline(g, f.end, C2) {
      assert f == CallE4;
    }
  }

  /** A second call from C1 into another lifeline (P3) makes C1 no longer exclusive. */
  lemma OtherCallElsewhereEndsExclusive()
    ensures StartNodeIfExclusive(SampleWithCallFromC1(P3), ConstructorE) == None
  {
    var g := SampleWithCallFromC1(P3);
    assert Lifeline(g, C6) == Some(P3) && Lifeline(g, C2) == Some(P2);
    assert CallE4 in g.edges && IsOtherFlow(ConstructorE, CallE4);
  }

  // A fourth lifeline, its call node, and a constructor edge from C2 to it.
  const P4: NodeId := 4
  const C7: NodeId := 17
  const ConstructorE2: Edge := Edge(8, ConstructorEdge, C2, C7)

  /** The sample with lifeline P4 owning C7, constructed from C2. */
  function SampleWithNestedConstructor(): Graph {
    var g := Sample();
    var h := g.(roots := g.roots + [P4], nodes := g.nodes[P4 := Node(ImplicitParameterNode, None, [])]);
    var k := WithChild(h, P4, C7, CallNode);
    k.(edges := k.edges + [ConstructorE2])
  }

  /** A constructor call from C2, which also calls C3 and C5, does not have an exclusive start. */
  lemma NestedConstructorStartNotExclusive()
    ensures StartNodeIfExclusive(SampleWithNestedConstructor(), ConstructorE2) == None
  {
    var g := SampleWithNestedConstructor();
    assert Lifeline(g, C7) == Some(P4) && Lifeline(g, C3) == Some(P2);
    assert CallE1 in g.edges && IsOtherFlow(ConstructorE2, CallE1);
  }

  /** The three lifelines of the sample, without activations or edges. */
  function SampleLifelinesOnly(): Graph {
    Graph([P1, P2, P3],
          map[P1 := Node(ImplicitParameterNode, None, []),
              P2 := Node(ImplicitParameterNode, None, []),
              P3 := Node(ImplicitParameterNode, None, [])],
          [])
  }

  /** The sample's nodes, before any edge is added. */
  function SampleNodesOnly(): Graph {
    Sample().(edges := [])
  }

  /** createSampleDiagram, run on a new Diagram object: lifelines, then activations, then edges. */
  method CreateSampleDiagram() returns (d: Diagram)
    ensures fresh(d) && d.State() == Sample()
  {
    d := new Diagram();
    AddSampleLifelines(d);
    AddSampleActivations(d);
    AddSampleEdges(d);
  }

  method AddSampleLifelines(d: Diagram)
    requires d.State() == Empty
    modifies d
    ensures d.State() == SampleLifelinesOnly()
  {
    var ok := d.AddRootNode(P1, ImplicitParameterNode);
    ok := d.AddRootNode(P2, ImplicitParameterNode);
    ok := d.AddRootNode(P3, ImplicitParameterNode);
  }

  method AddSampleActivations(d: Diagram)
    requires d.State() == SampleLifelinesOnly()
    modifies d
    ensures d.State() == SampleNodesOnly()
  {
    var ok := d.AddChild(P1, C1, CallNode);
    assert ok;
    ok := d.AddChild(P2, C2, CallNode);
    assert ok;
    ok := d.AddChild(P2, C3, CallNode);
    assert ok;
    assert d.nodes[P2].children == [C2, C3];
    ok := d.AddChild(P3, C4, CallNode);
    assert ok;
    ok := d.AddChild(P3, C5, CallNode);
    assert ok;
    assert d.nodes[P3].children == [C4, C5];
    assert d.nodes.Keys == Sample().nodes.Keys;
    forall k | k in d.nodes ensures d.nodes[k] == Sample().nodes[k] {
      assert k in {P1, P2, P3, C1, C2, C3, C4, C5};
    }
    assert d.nodes == Sample().nodes;
  }

  method AddSampleEdges(d: Diagram)
    requires d.State() == SampleNodesOnly()
    modifies d
    ensures d.State() == Sample()
  {
    var e := d.AddEdge(1, ConstructorEdge, C1, C2);
    e := d.AddEdge(2, ReturnEdge, C2, C1);
    e := d.AddEdge(3, CallEdge, C2, C3);
    e := d.AddEdge(4, CallEdge, C3, C4);
    e := d.AddEdge(5, CallEdge, C2, C5);
  }

  /**
   * testDeleteSingleParameterNode: deleting the only lifeline (which owns one activation)
   * leaves no root; undo brings the root back.
   */
  method DeleteSingleParameterNode() returns (rootsAfterDelete: nat, rootsAfterUndo: nat)
    ensures rootsAfterDelete == 0 && rootsAfterUndo == 1
  {
    var d := new Diagram();
    var ok := d.AddRootNode(P1, ImplicitParameterNode);
    ok := d.AddChild(P1, C1, CallNode);
    var processor := new OperationProcessor();
    processor.ExecuteNewOperation(d, Simple(RemoveRoot(P1, 0)));
    rootsAfterDelete := RootCount(d.State());
    processor.Undo(d);
    rootsAfterUndo := RootCount(d.State());
  }

  /**
   * testDeleteSingleCallNode: deleting the only activation keeps the lifeline and empties
   * its children; undo brings the activation back.
   */
  method DeleteSingleCallNode() returns (rootsAfterDelete: nat, childrenAfterDelete: nat, childrenAfterUndo: nat)
    ensures rootsAfterDelete == 1 && childrenAfterDelete == 0 && childrenAfterUndo == 1
  {
    var d := new Diagram();
    var ok := d.AddRootNode(P1, ImplicitParameterNode);
    ok := d.AddChild(P1, C1, CallNode);
    var processor := new OperationProcessor();
    processor.ExecuteNewOperation(d, Simple(RemoveChild(P1, C1, 0)));
    rootsAfterDelete := RootCount(d.State());
    childrenAfterDelete := ChildCount(d.State(), P1);
    processor.Undo(d);
    childrenAfterUndo := ChildCount(d.State(), P1);
  }

  /**
   * testDeleteReturnEdge: C1 on P1 calls C2 on P2, which returns to C1. Deleting the return
   * edge removes only that edge (both lifelines keep their activation); undo restores it.
   */
  method DeleteReturnEdge() returns (children1: nat, children2: nat, edgesAfterDelete: nat, edgesAfterUndo: nat)
    ensures children1 == 1 && children2 == 1
    ensures edgesAfterDelete == 1 && edgesAfterUndo == 2
  {
    var d := new Diagram();
    var ok := d.AddRootNode(P1, ImplicitParameterNode);
    ok := d.AddRootNode(P2, ImplicitParameterNode);
    ok := d.AddChild(P1, C1, CallNode);
    ok := d.AddChild(P2, C2, CallNode);
    var call := d.AddEdge(1, CallEdge, C1, C2);
    var ret := d.AddEdge(2, ReturnEdge, C2, C1);
    ghost var built := d.State();
    assert built.edges == [call, ret];
    assert built.nodes[P1].children == [C1] && built.nodes[P2].children == [C2];
    var processor := new OperationProcessor();
    processor.ExecuteNewOperation(d, Simple(RemoveEdge(ret, 1)));
    assert d.State() == built.(edges := [call]);
    children1 := ChildCount(d.State(), P1);
    children2 := ChildCount(d.State(), P2);
    edgesAfterDelete := EdgeCount(d.State());
    processor.Undo(d);
    edgesAfterUndo := EdgeCount(d.State());
  }

  /** The call edge connected from C1 to C2 and added to the diagram starts at C1 and ends at C2. */
  method ConnectedEdgeEndpoints() returns (start: NodeId, end: NodeId)
    ensures start == C1 && end == C2
  {
    var d := new Diagram();
    var ok := d.AddRootNode(P1, ImplicitParameterNode);
    ok := d.AddRootNode(P2, ImplicitParameterNode);
    ok := d.AddChild(P1, C1, CallNode);
    ok := d.AddChild(P2, C2, CallNode);
    var e := d.AddEdge(1, CallEdge, C1, C2);
    start, end := d.edges[0].start, d.edges[0].end;
  }

  /**
   * Executing any operation through the processor and then undoing it leaves the diagram as
   * it was, the undo history as it was, and the operation ready to be redone.
   */
  method ExecuteThenUndo(d: Diagram, processor: OperationProcessor, op: Operation)
    requires processor.Tracks(d) && CanApply(d.State(), op)
    modifies d, processor
    ensures processor.Tracks(d)
    ensures d.State() == old(d.State())
    ensures processor.undoStack == old(processor.undoStack) && processor.redoStack == [op]
  {
    processor.ExecuteNewOperation(d, op);
    processor.Undo(d);
    UndoRestores(old(d.State()), op);
  }
}
