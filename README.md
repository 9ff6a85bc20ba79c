# JetUML: dimensions and the structure of sequence diagrams

This project models two parts of JetUML, the UML diagram editor, in Dafny and proves
properties of them.

- **Dimension** (`dimension.dfy`, module `Dimensions`). This is the immutable width and
  height pair used for layout. It has:
  - a constructor that demands non-negative components;
  - the accessors `width()` and `height()`;
  - the `NULL` constant, equal to (0, 0);
  - `include(w, h)`, which takes the component-wise maximum;
  - field-wise `equals`.

  Java's `int` is modelled as a 32-bit `newtype`. No operation can overflow, because
  `include` only selects one of its inputs.
- **Sequence diagrams**, as the usage-scenario tests exercise them:
  - `graph.dfy` (`Graphs`) holds the diagram graph:
    - lifelines (implicit parameter nodes) with ordered call-node children;
    - each child has a parent;
    - directed call, constructor, return and note edges;
    - a structural invariant `WellFormed`.
  - `inference.dfy` (`SequenceInference`) holds the read-only queries `getCaller`,
    `getNestingDepth`, `hasEntryPoint` and `getStartNodeIfExclusive`.
  - `operations.dfy` (`Operations`) holds the reversible diagram operations:
    - primitive insertions and removals of a root, a child or an edge, each at an index;
    - compound operations made of several primitives;
    - the undo law: applying an operation's inverse restores the diagram.
  - `diagram.dfy` (`Diagrams`) holds two classes that are updated in place:
    - the `Diagram` class, with `addRootNode`, `addChild` and `addEdge`;
    - `OperationProcessor`, which executes operations and keeps the undo and redo stacks.
  - `scenarios.dfy` (`Scenarios`) rebuilds the sample diagram of `createSampleDiagram`
    and proves, on that diagram, the values the tests assert. It also replays the
    delete/undo and connect scenarios.

Nodes are kept in an arena (`map<NodeId, Node>`) and are referred to by identity.
- Removing a root or a child detaches it but keeps it in the arena. In Java, the removed
  object likewise survives inside the recorded operation, so undo can put it back.
- A node is *in the diagram* when it is a root, or a child of a root. Sequence diagrams
  nest call nodes one level deep under lifelines.

The implementations of the sequence-diagram queries are not part of this model. Their
definitions here follow the behaviour the tests fix:
- `getCaller` is the start of the first call or constructor edge that ends at the node.
- `getNestingDepth` is 0 when the node has no caller or a caller on another lifeline.
  Otherwise it is one more than the caller's depth. It is defined wherever this walk up
  the caller chain stops.
- `hasEntryPoint` holds when exactly one call node of the diagram has no caller.
- `getStartNodeIfExclusive` returns the start node of a call or constructor edge when
  every other call leaving that node goes to the lifeline the edge goes to.

## Model

| member | source | states |
|---|---|---|
| Dimensions.Create | jetuml-web-application/src/main/java/org/jetuml/geom/Dimension.java:45-66 | The constructor requires width >= 0 and height >= 0. The result is valid, and its width and height are exactly the arguments (what `width()` and `height()` return). |
| Dimensions.NullIsZero | jetuml-web-application/src/main/java/org/jetuml/geom/Dimension.java:37 | `NULL` is a valid dimension with width 0 and height 0. |
| Dimensions.Max | jetuml-web-application/src/main/java/org/jetuml/geom/Dimension.java:80 | `max` returns a value at least as large as each argument, and that value is one of the two arguments. |
| Dimensions.Dimension.Include | jetuml-web-application/src/main/java/org/jetuml/geom/Dimension.java:68-81 | `include(w, h)` requires non-negative arguments. The result is valid. It covers the receiver and the argument. Each component is the receiver's or the argument's. |
| Dimensions.IncludeIsLeastUpperBound | jetuml-web-application/src/main/java/org/jetuml/geom/Dimension.java:68-81 | `include` is a join: any dimension that covers both the receiver and (w, h) covers the result. |
| Dimensions.IncludeIdempotent | jetuml-web-application/src/main/java/org/jetuml/geom/Dimension.java:77-81 | Applying the same `include` twice gives the same result as applying it once. |
| Dimensions.IncludeCoveredIsIdentity | jetuml-web-application/src/main/java/org/jetuml/geom/Dimension.java:77-96 | `include` returns a dimension equal to the receiver exactly when the receiver already covers (w, h). This holds in particular for `include(0, 0)` and for including the receiver's own width and height. |
| Dimensions.NullIncludeIsCreate | jetuml-web-application/src/main/java/org/jetuml/geom/Dimension.java:37-81 | Including (w, h) into `NULL` builds the dimension (w, h). |
| Dimensions.IncludeCommutes | jetuml-web-application/src/main/java/org/jetuml/geom/Dimension.java:77-81 | The order of two `include` calls does not change the result. |
| Dimensions.IncludeMonotone | jetuml-web-application/src/main/java/org/jetuml/geom/Dimension.java:77-81 | A larger receiver gives a larger `include` result. |
| Dimensions.Dimension.Equals | jetuml-web-application/src/main/java/org/jetuml/geom/Dimension.java:83-96 | `equals` holds exactly when the argument is a dimension with the same value. It is false for null and for objects of another class. |
| Dimensions.EqualsIsValueEquality | jetuml-web-application/src/main/java/org/jetuml/geom/Dimension.java:83-96 | `equals` holds exactly when width and height agree. It is reflexive, symmetric and transitive, and it is false for null and for other classes. |
| SequenceInference.FirstIncomingCall | jetuml-web-application/src/test/java/org/jetuml/diagram/TestUsageScenariosSequenceDiagram.java:405-427 | Finds the first call or constructor edge ending at a node, in edge order. It returns none exactly when no such edge exists. |
| SequenceInference.Caller | jetuml-web-application/src/test/java/org/jetuml/diagram/TestUsageScenariosSequenceDiagram.java:405-427 | A caller found is the start of a call or constructor edge ending at the node. There is no caller exactly when no such edge exists. |
| SequenceInference.NestingDepth | jetuml-web-application/src/test/java/org/jetuml/diagram/TestUsageScenariosSequenceDiagram.java:381-390 | Defined for every call node whose walk up the caller chain stops. The depth is positive exactly when the node is called from its own lifeline. |
| SequenceInference.SelfCallChainUnique | jetuml-web-application/src/test/java/org/jetuml/diagram/TestUsageScenariosSequenceDiagram.java:381-390 | Each call node has at most one self-call chain: every hop follows the node's single caller. |
| SequenceInference.NestingDepthCountsSelfCalls | jetuml-web-application/src/test/java/org/jetuml/diagram/TestUsageScenariosSequenceDiagram.java:381-390 | Any self-call chain from a node makes its depth defined. The depth equals the number of self-call hops from the node up to the first node that is not self-called. |
| SequenceInference.ForwardSelfCallsBoundDepth | jetuml-web-application/src/test/java/org/jetuml/diagram/TestUsageScenariosSequenceDiagram.java:381-390 | When every self-call comes from an earlier activation on the lifeline, every call node has a depth. That depth never exceeds the number of activations above the node. |
| SequenceInference.EntryPoints | jetuml-web-application/src/test/java/org/jetuml/diagram/TestUsageScenariosSequenceDiagram.java:392-403 | Membership, stated over the edges: a call node of the diagram that no call or constructor edge ends at. |
| SequenceInference.HasEntryPoint | jetuml-web-application/src/test/java/org/jetuml/diagram/TestUsageScenariosSequenceDiagram.java:392-403 | hasEntryPoint: exactly one call node of the diagram has no caller. Its meaning in terms of edges is proved by HasEntryPointIff. |
| SequenceInference.HasEntryPointIff | jetuml-web-application/src/test/java/org/jetuml/diagram/TestUsageScenariosSequenceDiagram.java:392-403 | A diagram has an entry point exactly when some call node of the diagram has no incoming call or constructor edge and every other call node of the diagram has one. |
| SequenceInference.NoCallNodeNoEntryPoint | jetuml-web-application/src/test/java/org/jetuml/diagram/TestUsageScenariosSequenceDiagram.java:392-396 | A diagram without call nodes, such as a new one, has no entry point. |
| SequenceInference.StartNodeIfExclusive | jetuml-web-application/src/test/java/org/jetuml/diagram/TestUsageScenariosSequenceDiagram.java:429-492 | A result is the edge's own start node, and only for a call or constructor edge. Note and return edges give nothing. For a call or constructor edge, the result is nothing exactly when another call or constructor edge leaves the start node for a different lifeline. |
| SequenceInference.AnotherFlowEndsExclusivity | jetuml-web-application/src/test/java/org/jetuml/diagram/TestUsageScenariosSequenceDiagram.java:465-476 | Adding a second call from the start node to another lifeline makes the start node not exclusive. |
| Operations.InsertAt | jetuml-web-application/src/test/java/org/jetuml/diagram/TestUsageScenariosSequenceDiagram.java:219-245 | Inserting at an index shifts the later elements up by one and keeps the earlier ones. |
| Operations.RemoveAt | jetuml-web-application/src/test/java/org/jetuml/diagram/TestUsageScenariosSequenceDiagram.java:219-245 | Removing at an index drops exactly that element and shifts the later ones down. |
| Operations.RemoveInsertedAt | jetuml-web-application/src/test/java/org/jetuml/diagram/TestUsageScenariosSequenceDiagram.java:219-245 | Removing what was just inserted at the same index gives back the original list. |
| Operations.InsertRemovedAt | jetuml-web-application/src/test/java/org/jetuml/diagram/TestUsageScenariosSequenceDiagram.java:219-245 | Re-inserting the removed element at its index gives back the original list. |
| Operations.ApplyStep | jetuml-web-application/src/test/java/org/jetuml/diagram/TestUsageScenariosSequenceDiagram.java:219-245 | The whole new state of a primitive step. A root step inserts or removes a root at the index. A child step rewrites the parent's child list at the index and sets or clears the child's parent; no other node changes. An edge step inserts or removes an edge at the index. Everything else is unchanged. |
| Operations.InverseStep | jetuml-web-application/src/test/java/org/jetuml/diagram/TestUsageScenariosSequenceDiagram.java:219-245 | The inverse of an insertion is the removal of the same element at the same index, and the other way round. |
| Operations.StepUndo | jetuml-web-application/src/test/java/org/jetuml/diagram/TestUsageScenariosSequenceDiagram.java:219-245 | Applying a step and then its inverse restores the diagram exactly. |
| Operations.InverseStepInvolutive | jetuml-web-application/src/test/java/org/jetuml/diagram/TestUsageScenariosSequenceDiagram.java:219-245 | Inverting a step twice gives the step back. |
| Operations.ApplyAll | jetuml-web-application/src/test/java/org/jetuml/diagram/TestUsageScenariosSequenceDiagram.java:247-351 | Running a sequence of steps never creates or destroys a node of the arena: removed nodes are only detached. |
| Operations.InverseAll | jetuml-web-application/src/test/java/org/jetuml/diagram/TestUsageScenariosSequenceDiagram.java:247-351 | The inverse of a step sequence undoes the steps in reverse order. |
| Operations.ApplyAllAppend | jetuml-web-application/src/test/java/org/jetuml/diagram/TestUsageScenariosSequenceDiagram.java:247-351 | Running two step sequences one after the other equals running their concatenation. |
| Operations.ApplyAllUndo | jetuml-web-application/src/test/java/org/jetuml/diagram/TestUsageScenariosSequenceDiagram.java:247-351 | Running a compound sequence of steps and then its inverse restores the diagram. |
| Operations.InverseAllInvolutive | jetuml-web-application/src/test/java/org/jetuml/diagram/TestUsageScenariosSequenceDiagram.java:247-351 | Inverting a step sequence twice gives it back. |
| Operations.Apply | jetuml-web-application/src/test/java/org/jetuml/diagram/TestUsageScenariosSequenceDiagram.java:219-379 | DiagramOperation.execute: running an operation never creates or destroys a node. A deleted node is only detached, so undo can put it back. |
| Operations.Inverse | jetuml-web-application/src/test/java/org/jetuml/diagram/TestUsageScenariosSequenceDiagram.java:219-379 | The inverse operation performs the inverted steps in reverse order. |
| Operations.UndoRestores | jetuml-web-application/src/test/java/org/jetuml/diagram/TestUsageScenariosSequenceDiagram.java:219-379 | Undo law: after any applicable operation, its inverse is applicable and restores the diagram. |
| Operations.InverseInvolutive | jetuml-web-application/src/test/java/org/jetuml/diagram/TestUsageScenariosSequenceDiagram.java:219-379 | Inverting an operation twice gives it back. |
| Operations.RemovalApplicable | jetuml-web-application/src/test/java/org/jetuml/diagram/TestUsageScenariosSequenceDiagram.java:219-245 | In a well-formed diagram, removing a root, a child or an edge recorded at its own index is always applicable. |
| Operations.StepPreservesWellFormed | jetuml-web-application/src/test/java/org/jetuml/diagram/TestUsageScenariosSequenceDiagram.java:219-379 | Every applicable primitive step keeps the diagram well formed. |
| Operations.InsertChildPreservesWellFormed | jetuml-web-application/src/test/java/org/jetuml/diagram/TestUsageScenariosSequenceDiagram.java:243-244 | Re-inserting a child keeps the diagram well formed. |
| Operations.RemoveChildPreservesWellFormed | jetuml-web-application/src/test/java/org/jetuml/diagram/TestUsageScenariosSequenceDiagram.java:237-241 | Removing a child keeps the diagram well formed. |
| Operations.ApplyAllPreservesWellFormed | jetuml-web-application/src/test/java/org/jetuml/diagram/TestUsageScenariosSequenceDiagram.java:247-351 | Every applicable step sequence keeps the diagram well formed. |
| Operations.ApplyPreservesWellFormed | jetuml-web-application/src/test/java/org/jetuml/diagram/TestUsageScenariosSequenceDiagram.java:219-379 | Every applicable operation keeps the diagram well formed. |
| Diagrams.Diagram.constructor | jetuml-web-application/src/test/java/org/jetuml/diagram/TestUsageScenariosSequenceDiagram.java:69 | A new sequence diagram is empty. |
| Diagrams.Diagram.AddRootNode | jetuml-web-application/src/test/java/org/jetuml/diagram/TestUsageScenariosSequenceDiagram.java:91-93 | `addRootNode`: a node not yet in the arena becomes the last root, with no parent and no children. Edges are untouched. A node already in the arena is refused, and nothing changes; this includes a removed, detached node. |
| Diagrams.Diagram.AddChild | jetuml-web-application/src/test/java/org/jetuml/diagram/TestUsageScenariosSequenceDiagram.java:94-98 | `addChild`: a node the diagram does not yet hold becomes the last child of a parameter node that the diagram holds, with the given kind (call nodes in every scenario), and gets that node as its parent. Otherwise nothing changes. |
| Diagrams.Diagram.AddEdge | jetuml-web-application/src/test/java/org/jetuml/diagram/TestUsageScenariosSequenceDiagram.java:545-550 | `connect` then `addEdge`: the new edge keeps the given start and end and becomes the last edge. Nodes and roots are untouched. |
| Diagrams.Diagram.PerformStep | jetuml-web-application/src/test/java/org/jetuml/diagram/TestUsageScenariosSequenceDiagram.java:219-379 | Performing a primitive step on the diagram object sets its state to the step's result. |
| Diagrams.Diagram.Perform | jetuml-web-application/src/test/java/org/jetuml/diagram/TestUsageScenariosSequenceDiagram.java:219-379 | Performing an operation step by step, in place, reaches exactly the state `Apply` specifies. |
| Diagrams.AddRootKeepsWellFormed | jetuml-web-application/src/test/java/org/jetuml/diagram/TestUsageScenariosSequenceDiagram.java:91-93 | Adding a new root keeps the diagram well formed. |
| Diagrams.AddEdgeKeepsWellFormed | jetuml-web-application/src/test/java/org/jetuml/diagram/TestUsageScenariosSequenceDiagram.java:99-103 | Adding an edge between held nodes keeps the diagram well formed. |
| Diagrams.AddChildKeepsWellFormed | jetuml-web-application/src/test/java/org/jetuml/diagram/TestUsageScenariosSequenceDiagram.java:94-98 | Adding a new child keeps the diagram well formed. In particular, the child's parent is the lifeline that lists it. |
| Diagrams.ExecuteKeepsHistory | jetuml-web-application/src/test/java/org/jetuml/diagram/TestUsageScenariosSequenceDiagram.java:219-245 | After a new operation, the whole history can still be undone, most recent first. |
| Diagrams.UndoKeepsHistories | jetuml-web-application/src/test/java/org/jetuml/diagram/TestUsageScenariosSequenceDiagram.java:219-245 | After an undo, the rest of the history can still be undone, and the undone operation can be redone. |
| Diagrams.RedoKeepsHistories | jetuml-web-application/src/test/java/org/jetuml/diagram/TestUsageScenariosSequenceDiagram.java:219-245 | After a redo, the history can still be undone and the rest of the redo stack redone. |
| Diagrams.OperationProcessor.constructor | jetuml-web-application/src/test/java/org/jetuml/diagram/TestUsageScenariosSequenceDiagram.java:557 | A new processor has empty undo and redo stacks. |
| Diagrams.OperationProcessor.ExecuteNewOperation | jetuml-web-application/src/test/java/org/jetuml/diagram/TestUsageScenariosSequenceDiagram.java:224-226 | Runs the operation on the diagram, pushes it onto the undo stack and clears the redo stack. The histories stay consistent with the diagram. |
| Diagrams.OperationProcessor.Undo | jetuml-web-application/src/test/java/org/jetuml/diagram/TestUsageScenariosSequenceDiagram.java:227-228 | With nothing to undo, nothing changes. Otherwise the diagram becomes the inverse of the last operation applied to it, and that operation moves to the redo stack. |
| Diagrams.OperationProcessor.Redo | jetuml-web-application/src/test/java/org/jetuml/diagram/TestUsageScenariosSequenceDiagram.java:219-245 | With nothing to redo, nothing changes. Otherwise the last undone operation runs again and moves back to the undo stack. |
| Scenarios.SampleIsWellFormed | jetuml-web-application/src/test/java/org/jetuml/diagram/TestUsageScenariosSequenceDiagram.java:89-104 | The sample diagram satisfies the structural invariant. |
| Scenarios.CreateSampleDiagram | jetuml-web-application/src/test/java/org/jetuml/diagram/TestUsageScenariosSequenceDiagram.java:89-104 | Building the sample through `addRootNode`, `addChild` and connect-and-add yields exactly the sample graph. |
| Scenarios.SampleEntryHasNoCaller | jetuml-web-application/src/test/java/org/jetuml/diagram/TestUsageScenariosSequenceDiagram.java:405-410 | callNode1 has no caller. |
| Scenarios.SampleCallers | jetuml-web-application/src/test/java/org/jetuml/diagram/TestUsageScenariosSequenceDiagram.java:412-427 | The callers are callNode1 for callNode2, callNode2 for callNode3, callNode3 for callNode4 and callNode2 for callNode5. |
| Scenarios.SampleSelfCalls | jetuml-web-application/src/test/java/org/jetuml/diagram/TestUsageScenariosSequenceDiagram.java:381-390 | Of the sample's call nodes, only callNode3 is called from its own lifeline. |
| Scenarios.SampleNestingDepths | jetuml-web-application/src/test/java/org/jetuml/diagram/TestUsageScenariosSequenceDiagram.java:381-390 | The nesting depths are 0, 0, 1, 0 and 0 for callNode1 to callNode5. |
| Scenarios.SampleHasEntryPoint | jetuml-web-application/src/test/java/org/jetuml/diagram/TestUsageScenariosSequenceDiagram.java:398-403 | The sample has an entry point, and callNode1 is its only uncalled call node. |
| Scenarios.EmptyHasNoEntryPoint | jetuml-web-application/src/test/java/org/jetuml/diagram/TestUsageScenariosSequenceDiagram.java:392-396 | A new sequence diagram has no entry point. |
| Scenarios.NoteEdgeStartNotExclusive | jetuml-web-application/src/test/java/org/jetuml/diagram/TestUsageScenariosSequenceDiagram.java:429-439 | A note edge from callNode1 to a note node has no exclusive start node. |
| Scenarios.ConstructorEdgeStartIsExclusive | jetuml-web-application/src/test/java/org/jetuml/diagram/TestUsageScenariosSequenceDiagram.java:441-449 | The constructor edge's start node, callNode1, is exclusive. |
| Scenarios.OtherCallIntoConstructedLifelineKeepsExclusive | jetuml-web-application/src/test/java/org/jetuml/diagram/TestUsageScenariosSequenceDiagram.java:451-463 | After callNode1 also calls a new activation on the constructed lifeline, callNode1 is still exclusive. |
| Scenarios.OtherCallElsewhereEndsExclusive | jetuml-web-application/src/test/java/org/jetuml/diagram/TestUsageScenariosSequenceDiagram.java:465-476 | After callNode1 also calls a new activation on the third lifeline, the constructor edge has no exclusive start. |
| Scenarios.NestedConstructorStartNotExclusive | jetuml-web-application/src/test/java/org/jetuml/diagram/TestUsageScenariosSequenceDiagram.java:478-492 | A constructor edge from callNode2 to a new lifeline has no exclusive start. |
| Scenarios.DeleteSingleParameterNode | jetuml-web-application/src/test/java/org/jetuml/diagram/TestUsageScenariosSequenceDiagram.java:219-229 | Deleting the only root leaves 0 roots, and undo brings back 1. |
| Scenarios.DeleteSingleCallNode | jetuml-web-application/src/test/java/org/jetuml/diagram/TestUsageScenariosSequenceDiagram.java:231-245 | Deleting the only call node keeps 1 root and leaves 0 children. Undo brings back 1 child. |
| Scenarios.DeleteReturnEdge | jetuml-web-application/src/test/java/org/jetuml/diagram/TestUsageScenariosSequenceDiagram.java:353-379 | Deleting the return edge keeps one child on each lifeline and leaves 1 edge. Undo brings back 2 edges. |
| Scenarios.ConnectedEdgeEndpoints | jetuml-web-application/src/test/java/org/jetuml/diagram/TestUsageScenariosSequenceDiagram.java:545-550 | The edge connected from callNode1 to callNode2 starts at callNode1 and ends at callNode2. |
| Scenarios.ExecuteThenUndo | jetuml-web-application/src/test/java/org/jetuml/diagram/TestUsageScenariosSequenceDiagram.java:219-379 | Executing any applicable operation and then undoing it restores the diagram and the undo stack, and leaves the operation on the redo stack. |

## Left out

- `Dimension.hashCode` and `toString`: they delegate to the Java library's hashing and string formatting.
- Java `assert` statements: they are modelled as preconditions. The model does not capture the runtime behaviour when assertions are disabled.
- Point-based `addNode`/`addEdge`, the `renderer().getBounds()` rendering pass and node movement (`translate`): these depend on rendering geometry and hit-testing, which are not part of this model. The scenarios add nodes and edges directly instead.
- Which nodes and edges `deleteSelected` cascades to (for example, the deletions at lines 247-351 of the scenarios test): the builder that computes the cascade is not part of this model. The scenarios execute the concrete removal operations explicitly, and the undo law covers any compound operation.
- Selection, `deleteSelected` as a GUI action, copy, cut, paste and the clipboard: these are editor and OS integration.
- The sequence-diagram validator (`isValid`): its rules are not part of this model.
- SequenceInference.StartNodeIfExclusive: the rule is the simplest one consistent with every asserted case. It does not follow constructor flows recursively through nested calls, because that implementation is not part of this model.
- SequenceInference.HasEntryPoint: taken as "exactly one uncalled call node of the diagram". The scenarios fix only the empty case (false) and the sample (true).
- SequenceInference.NestingDepth: defined only for call nodes whose walk up the caller chain stops. A node on a cycle of self-calls, or called from one, has no depth in the model. A walk up the caller chain would not terminate on such a node.
- Diagrams.Diagram.AddEdge: it does not check that the endpoints are in the diagram, because the Java `addEdge` accepts any connected edge. Well-formedness is proved separately, under the condition that the endpoints are held.
- Diagrams.Diagram.AddRootNode: accepts only a node not yet in the arena. A root removed by an operation stays in the arena, detached so that undo can restore it, and cannot be added again as a root through AddRootNode; only undoing the removal brings it back. No scenario re-adds a removed node.
- Diagrams.Diagram.AddChild: accepts only a fresh child node, and only under a parent node the diagram already holds. The Java `addChild` also works on a parameter node that is not yet in a diagram; that case is not modelled, and no scenario uses it.
- Operations.Apply, Diagrams.OperationProcessor.ExecuteNewOperation, Diagrams.Diagram.Perform, Diagrams.Diagram.PerformStep: operations are modelled only where they apply to the current diagram (the `CanApply` precondition). An operation that fails part-way, and the all-or-nothing abort of a compound operation with no partial change visible, are not modelled.
- Move and property-change operations, and nesting of compound operations inside compound operations: the scenarios only need flat insert and remove operations.
- Nodes are identified by natural-number identities instead of object references. Aliasing between Java objects is captured only through the arena map.
- The other test files (tip loading, state-node rendering, JSON decoding, properties, use-case dependency edges, JavaFX start-up) are not part of this model: they are I/O, rendering or trivial delegation.
