/**
 * The element graph of a sequence diagram. Nodes are kept in an arena addressed by
 * stable identifiers: each node records its kind, its parent (if any) and its ordered
 * children. The diagram itself lists its root nodes, in insertion order, and its edges,
 * each a directed connection from a start node to an end node.
 */
module Graphs {
  import opened Wrappers

  type NodeId = nat
  type EdgeId = nat

  datatype NodeKind = ImplicitParameterNode | CallNode | NoteNode

  datatype EdgeKind = CallEdge | ConstructorEdge | ReturnEdge | NoteEdge

  datatype Node = Node(kind: NodeKind, parent: Option<NodeId>, children: seq<NodeId>)

  /** An edge is fixed at connection time: its start and end never change afterwards. */
  datatype Edge = Edge(id: EdgeId, kind: EdgeKind, start: NodeId, end: NodeId)

  datatype Graph = Graph(roots: seq<NodeId>, nodes: map<NodeId, Node>, edges: seq<Edge>)

  /** A newly created diagram. */
  const Empty: Graph := Graph([], map[], [])

  /** Call and constructor edges are the edges that start an activation. */
  predicate IsCallKind(k: EdgeKind) {
    k == CallEdge || k == ConstructorEdge
  }

  /** The children of `p`, in order (none for a node the arena does not hold). */
  function Children(g: Graph, p: NodeId): seq<NodeId> {
    if p in g.nodes then g.nodes[p].children else []
  }

  /** The lifeline (parent parameter node) that owns `n`, if any. */
  function Lifeline(g: Graph, n: NodeId): Option<NodeId> {
    if n in g.nodes then g.nodes[n].parent else None
  }

  /** `a` and `b` are activations on the same lifeline. */
  predicate SameLifeline(g: Graph, a: NodeId, b: NodeId) {
    Lifeline(g, a).Some? && Lifeline(g, a) == Lifeline(g, b)
  }

  /**
   * `n` is part of the diagram: a root node, or a child of a root node (sequence diagrams
   * nest exactly one level: parameter nodes own call nodes).
   */
  predicate Contains(g: Graph, n: NodeId) {
    n in g.roots || (Lifeline(g, n).Some? && Lifeline(g, n).value in g.roots)
  }

  /** The index of the first occurrence of `x` in `s`, or |s| when `x` does not occur. */
  function IndexOf(s: seq<NodeId>, x: NodeId): (i: nat)
    ensures i <= |s|
    ensures i < |s| ==> s[i] == x
    ensures forall j :: 0 <= j < i ==> s[j] != x
  {
    if |s| == 0 then 0
    else if s[0] == x then 0
    else 1 + IndexOf(s[1..], x)
  }

  /** The rank of call node `n` among the activations of its lifeline (0 when it has none). */
  function Position(g: Graph, n: NodeId): nat {
    match Lifeline(g, n)
    case None => 0
    case Some(p) => IndexOf(Children(g, p), n)
  }

  /** The number of root nodes. */
  function RootCount(g: Graph): nat {
    |g.roots|
  }

  /** The number of children of `p`. */
  function ChildCount(g: Graph, p: NodeId): nat {
    |Children(g, p)|
  }

  /** The number of edges. */
  function EdgeCount(g: Graph): nat {
    |g.edges|
  }

  /** No element occurs twice. */
  predicate Distinct(s: seq<NodeId>) {
    forall i, j :: 0 <= i < j < |s| ==> s[i] != s[j]
  }

  /** Roots are arena nodes without parent, each listed once. */
  predicate RootsDetached(g: Graph) {
    Distinct(g.roots) && forall r :: r in g.roots ==> r in g.nodes && g.nodes[r].parent == None
  }

  /** Every child list is duplicate-free and lists arena nodes whose parent is the lister. */
  predicate ChildrenPointBack(g: Graph) {
    && (forall p :: p in g.nodes ==> Distinct(g.nodes[p].children))
    && (forall p, c :: p in g.nodes && c in g.nodes[p].children ==>
          c in g.nodes && g.nodes[c].parent == Some(p))
  }

  /** Every node with a parent is a child of that parent, and no node is its own parent. */
  predicate ParentsList(g: Graph) {
    && (forall c :: c in g.nodes ==> g.nodes[c].parent != Some(c))
    && (forall c :: c in g.nodes && g.nodes[c].parent.Some? ==>
          g.nodes[c].parent.value in g.nodes && c in g.nodes[g.nodes[c].parent.value].children)
  }

  /** Every edge connects two arena nodes. */
  predicate EdgesConnectNodes(g: Graph) {
    forall e :: e in g.edges ==> e.start in g.nodes && e.end in g.nodes
  }

  /**
   * The structural invariant of a diagram. Together its parts say that no node has two
   * parents and that no node is both a root and a child.
   */
  predicate WellFormed(g: Graph) {
    RootsDetached(g) && ChildrenPointBack(g) && ParentsList(g) && EdgesConnectNodes(g)
  }
}
