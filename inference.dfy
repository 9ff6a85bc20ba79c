/**
 * The structural queries of a sequence diagram: which activation called a call node, how
 * deeply a call node is nested in self-calls on its own lifeline, whether the diagram has
 * an entry point, and whether an edge's start node is dedicated to that edge's flow.
 * None of them changes the diagram.
 */
module SequenceInference {
  import opened Wrappers
  import opened Graphs

  /** `e` is a call or constructor edge that ends at `n`. */
  predicate IsIncomingCall(e: Edge, n: NodeId) {
    IsCallKind(e.kind) && e.end == n
  }

  /** The index of the first call or constructor edge ending at `n`, in edge order. */
  function FirstIncomingCall(edges: seq<Edge>, n: NodeId): (r: Option<nat>)
    ensures r.Some? ==> r.value < |edges| && IsIncomingCall(edges[r.value], n)
    ensures r.Some? ==> forall j :: 0 <= j < r.value ==> !IsIncomingCall(edges[j], n)
    ensures r.None? ==> forall j :: 0 <= j < |edges| ==> !IsIncomingCall(edges[j], n)
  {
    if |edges| == 0 then None
    else if IsIncomingCall(edges[0], n) then Some(0)
    else match FirstIncomingCall(edges[1..], n)
      case None => None
      case Some(i) => Some(i + 1)
  }

  /**
   * getCaller: the start node of the call or constructor edge ending at `n`, whether that
   * start node is on the same lifeline as `n` or on another one; none for an entry point.
   */
  function Caller(g: Graph, n: NodeId): (r: Option<NodeId>)
    ensures r.Some? ==> exists e :: e in g.edges && IsIncomingCall(e, n) && e.start == r.value
    ensures r.None? <==> forall e :: e in g.edges ==> !IsIncomingCall(e, n)
  {
    match FirstIncomingCall(g.edges, n)
    case None => None
    case Some(i) => Some(g.edges[i].start)
  }

  /** `n` was called from an activation on its own lifeline (a self-call). */
  predicate IsSelfCalled(g: Graph, n: NodeId) {
    Caller(g, n).Some? && SameLifeline(g, Caller(g, n).value, n)
  }

  /**
   * `chain` lists a call node followed by its callers, each hop a self-call on one
   * lifeline, and stops at the first node that was not self-called.
   */
  ghost predicate IsSelfCallChain(g: Graph, chain: seq<NodeId>)
    decreases |chain|
  {
    && |chain| >= 1
    && if |chain| == 1 then !IsSelfCalled(g, chain[0])
       else IsSelfCalled(g, chain[0]) && Caller(g, chain[0]) == Some(chain[1])
            && IsSelfCallChain(g, chain[1..])
  }

  /** Walking up the self-calls stacked above `n` stops: `n` has a finite self-call chain. */
  ghost predicate HasSelfCallChain(g: Graph, n: NodeId) {
    exists chain :: IsSelfCallChain(g, chain) && chain[0] == n
  }

  /** Each hop of a self-call chain follows the one caller of its node, so a node has one chain. */
  lemma {:induction false} SelfCallChainUnique(g: Graph, c1: seq<NodeId>, c2: seq<NodeId>)
    requires IsSelfCallChain(g, c1) && IsSelfCallChain(g, c2) && c1[0] == c2[0]
    ensures c1 == c2
    decreases |c1|
  {
    if |c1| > 1 {
      assert |c2| > 1;
      SelfCallChainUnique(g, c1[1..], c2[1..]);
      assert c1 == [c1[0]] + c1[1..] && c2 == [c2[0]] + c2[1..];
    }
  }

  /** The number of nodes on `n`'s self-call chain, `n` included. */
  ghost function SelfCallChainLength(g: Graph, n: NodeId): nat
    requires HasSelfCallChain(g, n)
  {
    var chain :| IsSelfCallChain(g, chain) && chain[0] == n; |chain|
  }

  /** The length of a node's chain is the length of any chain starting at it. */
  lemma SelfCallChainLengthIs(g: Graph, chain: seq<NodeId>)
    requires IsSelfCallChain(g, chain)
    ensures HasSelfCallChain(g, chain[0]) && SelfCallChainLength(g, chain[0]) == |chain|
  {
    forall c | IsSelfCallChain(g, c) && c[0] == chain[0] ensures c == chain {
      SelfCallChainUnique(g, c, chain);
    }
  }

  /** The caller of a self-called node has a chain, one hop shorter. */
  lemma CallerChainShorter(g: Graph, n: NodeId)
    requires HasSelfCallChain(g, n) && IsSelfCalled(g, n)
    ensures HasSelfCallChain(g, Caller(g, n).value)
    ensures SelfCallChainLength(g, Caller(g, n).value) < SelfCallChainLength(g, n)
  {
    var c :| IsSelfCallChain(g, c) && c[0] == n;
    assert |c| > 1;
    SelfCallChainLengthIs(g, c);
    SelfCallChainLengthIs(g, c[1..]);
  }

  /**
   * getNestingDepth: 0 for a call node without caller or called from another lifeline,
   * otherwise one more than the depth of its caller. It is defined wherever the walk up
   * the caller chain stops.
   */
  function NestingDepth(g: Graph, n: NodeId): (d: nat)
    requires HasSelfCallChain(g, n)
    ensures d > 0 <==> IsSelfCalled(g, n)
    decreases SelfCallChainLength(g, n)
  {
    if IsSelfCalled(g, n) then
      CallerChainShorter(g, n);
      1 + NestingDepth(g, Caller(g, n).value)
    else 0
  }

  /** The nesting depth counts the self-calls stacked above the node: one per hop of its chain. */
  lemma {:induction false} NestingDepthCountsSelfCalls(g: Graph, chain: seq<NodeId>)
    requires IsSelfCallChain(g, chain)
    ensures HasSelfCallChain(g, chain[0])
    ensures NestingDepth(g, chain[0]) == |chain| - 1
    decreases |chain|
  {
    SelfCallChainLengthIs(g, chain);
    if |chain| > 1 {
      NestingDepthCountsSelfCalls(g, chain[1..]);
    }
  }

  /** A self-call's caller comes before its callee on their common lifeline. */
  predicate SelfCallForward(g: Graph, n: NodeId) {
    IsSelfCalled(g, n) ==> Position(g, Caller(g, n).value) < Position(g, n)
  }

  /** Every self-call of the diagram goes down its lifeline, from an earlier activation. */
  ghost predicate SelfCallsForward(g: Graph) {
    forall n: NodeId :: SelfCallForward(g, n)
  }

  /**
   * When every self-call goes down its lifeline, every call node has a nesting depth, and
   * that depth never exceeds the number of activations above the node on its lifeline.
   */
  lemma {:induction false} ForwardSelfCallsBoundDepth(g: Graph, n: NodeId)
    requires SelfCallsForward(g)
    ensures HasSelfCallChain(g, n)
    ensures NestingDepth(g, n) <= Position(g, n)
    decreases Position(g, n)
  {
    assert SelfCallForward(g, n);
    if IsSelfCalled(g, n) {
      var m := Caller(g, n).value;
      ForwardSelfCallsBoundDepth(g, m);
      var c :| IsSelfCallChain(g, c) && c[0] == m;
      assert ([n] + c)[1..] == c;
      assert IsSelfCallChain(g, [n] + c);
    } else {
      assert IsSelfCallChain(g, [n]);
    }
  }

  /** `n` is a call node of the diagram (a root, or an activation on a root lifeline). */
  predicate IsDiagramCallNode(g: Graph, n: NodeId) {
    n in g.nodes && Contains(g, n) && g.nodes[n].kind == CallNode
  }

  /** The call nodes of the diagram that nobody calls. */
  function EntryPoints(g: Graph): (s: set<NodeId>)
    ensures forall n :: n in s <==>
      IsDiagramCallNode(g, n) && forall e :: e in g.edges ==> !IsIncomingCall(e, n)
  {
    set n | n in g.nodes && IsDiagramCallNode(g, n) && Caller(g, n).None?
  }

  /** hasEntryPoint: exactly one call node of the diagram has no caller. */
  predicate HasEntryPoint(g: Graph) {
    |EntryPoints(g)| == 1
  }

  /**
   * The diagram has an entry point exactly when some call node of the diagram has no
   * incoming call or constructor edge while every other call node of the diagram has one.
   */
  lemma {:induction false} HasEntryPointIff(g: Graph)
    ensures HasEntryPoint(g) <==>
      exists n: NodeId :: IsDiagramCallNode(g, n) && (forall e :: e in g.edges ==> !IsIncomingCall(e, n))
        && forall m: NodeId :: IsDiagramCallNode(g, m) && m != n ==> exists e :: e in g.edges && IsIncomingCall(e, m)
  {
    var s := EntryPoints(g);
    if HasEntryPoint(g) {
      var n: NodeId :| n in s;
      assert s - {n} == {} by {
        assert |s - {n}| == 0;
      }
      forall m | IsDiagramCallNode(g, m) && m != n
        ensures exists e :: e in g.edges && IsIncomingCall(e, m)
      {
        assert m !in s;
      }
    }
    if exists n: NodeId :: IsDiagramCallNode(g, n) && (forall e :: e in g.edges ==> !IsIncomingCall(e, n))
        && forall m: NodeId :: IsDiagramCallNode(g, m) && m != n ==> exists e :: e in g.edges && IsIncomingCall(e, m)
    {
      var n: NodeId :| IsDiagramCallNode(g, n) && (forall e :: e in g.edges ==> !IsIncomingCall(e, n))
        && forall m: NodeId :: IsDiagramCallNode(g, m) && m != n ==> exists e :: e in g.edges && IsIncomingCall(e, m);
      assert s == {n};
    }
  }

  /** A diagram without call nodes has no entry point; in particular a new diagram has none. */
  lemma NoCallNodeNoEntryPoint(g: Graph)
    requires forall n :: n in g.nodes && Contains(g, n) ==> g.nodes[n].kind != CallNode
    ensures !HasEntryPoint(g)
  {
    assert EntryPoints(g) == {};
  }

  /** `f` is an outgoing call or constructor flow of `e`'s start node other than `e` itself. */
  predicate IsOtherFlow(e: Edge, f: Edge) {
    IsCallKind(f.kind) && f.start == e.start && f != e
  }

  /**
   * getStartNodeIfExclusive: for a call or constructor edge, its start node when every
   * other call leaving that start node goes to the lifeline the edge goes to (so the start
   * node serves only this flow); nothing for any other edge, in particular a note edge.
   */
  function StartNodeIfExclusive(g: Graph, e: Edge): (r: Option<NodeId>)
    ensures r.Some? ==> r.value == e.start && IsCallKind(e.kind)
    ensures e.kind == NoteEdge || e.kind == ReturnEdge ==> r.None?
    ensures IsCallKind(e.kind) ==>
      (r.None? <==> exists f :: f in g.edges && IsOtherFlow(e, f) && !SameLifeline(g, f.end, e.end))
  {
    if IsCallKind(e.kind) && forall f :: f in g.edges && IsOtherFlow(e, f) ==> SameLifeline(g, f.end, e.end)
    then Some(e.start)
    else None
  }

  /**
   * A second outgoing call from the start node to another lifeline makes the start node
   * no longer exclusive to the edge.
   */
  lemma AnotherFlowEndsExclusivity(g: Graph, e: Edge, f: Edge)
    requires IsOtherFlow(e, f) && !SameLifeline(g, f.end, e.end)
    ensures StartNodeIfExclusive(g.(edges := g.edges + [f]), e) == None
  {
    assert f in g.(edges := g.edges + [f]).edges;
  }
}
