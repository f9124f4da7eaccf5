# GoAntlr control-flow graphs and dominance, in Dafny

This project models the control-flow-graph (CFG) layer of GoAntlr, which has
two parts:

- **`CFGNode` and `CFGBuilder`** (`src/antlr/CFGNode.java`). The builder
  lowers the typed Go syntax tree into labelled nodes:
  - `PROGRAM_START`/`PROGRAM_END` and `FUNCTION_main`;
  - `EMPTY_BLOCK`, `IF_CONDITION`/`IF_JOIN`, and
    `FOR_INIT`/`FOR_CONDITION`/`FOR_UPDATE`/`FOR_EXIT`;
  - `PRINT`, `EXPR`, `VAR_DECL` and `UNKNOWN_STMT`.

  It links the nodes with `addSuccessor` and prints a Mermaid diagram of
  what is reachable from a node.
- **`CFGAnalyzer`** (`src/antlr/CFGAnalyzer.java`). It computes, in place on
  the nodes:
  - dominator sets, by a do/while dataflow fixpoint;
  - strict-dominator sets and dominance frontiers;
  - immediate dominators.

## How the model is organised

All nodes of one graph live in one arena, class `CfgNode.Cfg`.

- Field `x` of the Java node `i` is `x[i]` here, and its Java id is `i + 1`.
- `succ[i]` and `pred[i]` are the ordered successor and predecessor lists.
- `addSuccessor` updates both lists in place.

The value `Graph.Arena` is a snapshot of the labels and edge lists.
`Graph.WellFormed` is the invariant `addSuccessor` keeps:

- every edge points at a node;
- no list holds a node twice;
- `j` is in `succ[i]` exactly when `i` is in `pred[j]`.

Each builder method of class `CfgBuilder.Builder` is proved to change the
arena exactly as a function of module `Lowering` says. The structure of the
graphs is proved about those functions in module `LoweringProps`:

- the shape of an `if` and of a `for` loop;
- the chaining of a block's statements;
- what `build` returns;
- what `getLastNode` finds.

The analyzer works the same way. Its methods are module-level (they are
`static` in Java), take the `Cfg` and update its `dom`, `sdom`, `df` and
`idom` fields in place. They are proved equal to functions of modules
`Dominance`, `Frontier` and `ImmediateDominator`, whose properties are
proved there:

- the fixpoint equation;
- that the sets hold exactly the dominators;
- termination;
- frontier disjointness and locality;
- the immediate-dominator cases.

Java's `HashSet` copies (`getNext`, `getParent`) are iterated in list order.
Results that do not depend on that order are stated for any order where the
source leaves it open:

- the intersection of predecessor sets;
- the set of post-order members.

Files:

- `util.dfy`: Option, NoDup, decimal ids.
- `ast.dfy`: the syntax tree datatypes.
- `graph.dfy`: the arena, edges, reachability and post-order.
- `cfg_node.dfy`: the `Cfg` class.
- `lowering.dfy` and `lowering_props.dfy`: the builder as functions, and its properties.
- `block_exits.dfy`: where control leaves a block in an if or a for.
- `mermaid.dfy`: the diagram.
- `cfg_builder.dfy`: the `Builder` class.
- `dominance.dfy`, `frontier.dfy`, `idom.dfy`: the three analyses.
- `cfg_analyzer.dfy`: the analyzer methods.

## Model

| member | source | states |
|---|---|---|
| Graph.AddNode | src/antlr/CFGNode.java:17-26 | A new node takes the next index, its label and empty edge lists. Every older node keeps its label and both lists. The arena stays well formed. |
| Graph.AddEdge | src/antlr/CFGNode.java:35-40 | Afterwards `to` is a successor of `from` and `from` a predecessor of `to`. A repeated call changes nothing, so no successor is listed twice. Otherwise exactly those two lists grow by one entry at their end, and no other list changes. Well-formedness is kept. |
| CfgNode.Cfg.constructor | src/antlr/CFGNode.java:17-26 | A fresh arena has no nodes, and its analysis fields are as the node constructor leaves them. |
| CfgNode.Cfg.NewNode | src/antlr/CFGNode.java:17-26 | The new node's id is the number of nodes made before it in this arena. Its domSet, sDomSet and DFSet are empty and its iDom is absent. The arena changes as `AddNode` says. |
| CfgNode.Cfg.AddSuccessor | src/antlr/CFGNode.java:35-40 | Updates the edge lists in place exactly as `AddEdge`: the edge is present in both directions, and a repeated call leaves both lists unchanged. |
| CfgNode.Cfg.PostOrder | src/antlr/CFGNode.java:55-60 | getPostOrder lists every node reachable from the start exactly once and nothing else, with the start last. |
| CfgNode.Cfg.DfsPostOrder | src/antlr/CFGNode.java:62-72 | The recursive walk with the shared list and set gives the visited set and order of `Graph.Dfs`. |
| Graph.PostOrderCorrect | src/antlr/CFGNode.java:55-72 | The post-order holds no duplicates, ends with the start, and holds x exactly when x is reachable from the start. |
| Graph.DfsFacts | src/antlr/CFGNode.java:62-72 | One dfsPostOrder call appends the nodes it newly visits, each once, after the nodes already listed and with its own node last. Every new node is reachable, and its successors are visited when the call returns. |
| Graph.DfsListFacts | src/antlr/CFGNode.java:65-69 | The successor loop visits every successor, adds only reachable nodes, and keeps the list duplicate-free. |
| Lowering.FirstJoin | src/antlr/CFGNode.java:227-231 | Finds the first IF_JOIN of a successor list. It answers none exactly when the list holds no IF_JOIN. |
| Lowering.JoinAmong | src/antlr/CFGNode.java:222-234 | findJoinNode's search answers an IF_JOIN at most two successor levels away when one exists, and otherwise the if-node itself. |
| Lowering.ForExitBfs | src/antlr/CFGNode.java:236-253 | The breadth-first search answers the FOR_INIT node or a FOR_EXIT node. |
| Lowering.LastExecutionProgress | src/antlr/CFGNode.java:145-165 | Every poll of findLastExecutionNode's queue makes progress: a first visit shrinks the unvisited nodes, and a repeated poll shrinks the queue's visited entries. So the loop ends even though the queue may hold a node twice. |
| Lowering.UnvisitedSnoc | src/antlr/CFGNode.java:160-164 | Queueing the successors one at a time, skipping visited ones, appends exactly the unvisited successors in list order. |
| Lowering.LowerStmt | src/antlr/CFGNode.java:255-271 | buildFromStatement returns the first node it makes and keeps the arena well formed. |
| Lowering.ProgramFrame | src/antlr/CFGNode.java:103-108 | buildFromProgram starts with PROGRAM_START as node 0 and PROGRAM_END as node 1. |
| LoweringProps.LastNodeSpec | src/antlr/CFGNode.java:212-253 | getLastNode maps IF_CONDITION to an IF_JOIN within two successor steps when one exists, and to itself otherwise. It maps FOR_INIT to a reachable FOR_EXIT when one exists, and to itself only when none is reachable. Every other node maps to itself. |
| LoweringProps.LastNodeReach | src/antlr/CFGNode.java:212-253 | getLastNode's answer is the node itself or reachable from it. |
| LoweringProps.ForExitComplete | src/antlr/CFGNode.java:236-253 | When findForExitNode gives up, no node reachable from FOR_INIT is a FOR_EXIT. |
| LoweringProps.LastExecutionIn | src/antlr/CFGNode.java:130-168 | findLastExecutionNode answers a node reachable from the function entry. The answer is the entry itself or a node whose label neither starts with FOR_CONDITION nor is FOR_UPDATE. |
| LoweringProps.LowerStmtExtends | src/antlr/CFGNode.java:255-271 | Lowering a statement keeps every older node's label and edge lists. It adds no edge out of the new nodes to an older one, and the returned node carries a statement label. |
| LoweringProps.LowerIfExtends | src/antlr/CFGNode.java:273-294 | buildFromIf makes IF_CONDITION and then IF_JOIN as its first two nodes and leaves the older nodes alone. |
| LoweringProps.LowerForExtends | src/antlr/CFGNode.java:296-314 | buildFromFor makes FOR_INIT, FOR_CONDITION, FOR_UPDATE and FOR_EXIT, in that order, as its first four nodes, and leaves the older nodes alone. |
| LoweringProps.LowerBlockExtends | src/antlr/CFGNode.java:182-209 | buildFromBlock leaves the older nodes alone and returns an EMPTY_BLOCK node or a statement's node. |
| LoweringProps.LowerStmtsExtends | src/antlr/CFGNode.java:191-206 | The statement loop only grows the arena and links new nodes. |
| LoweringProps.IfShape | src/antlr/CFGNode.java:273-294 | In the if-shape: the condition's successors are the then-block's first node followed by IF_JOIN (no else) or by the else-block's first node. Nothing enters the condition. IF_JOIN has no successors. Its two predecessors are getLastNode of the then-block's first node (a node reachable from it), then the condition (no else) or getLastNode of the else-block's first node. |
| LoweringProps.IfNoElseShape | src/antlr/CFGNode.java:289-291 | Without an else-block the condition's second successor is IF_JOIN itself. |
| LoweringProps.IfElseShape | src/antlr/CFGNode.java:283-288 | With an else-block the condition's second successor is the else-block's first node. IF_JOIN's second predecessor is a node reachable from that first node: getLastNode of the else-block's first statement, not necessarily where the else-block ends. |
| LoweringProps.BranchShape | src/antlr/CFGNode.java:276-281 | One branch appends the block's first node to the condition's successors. It appends one predecessor to IF_JOIN, a node reachable from the block's start. No other older list changes. |
| LoweringProps.ForShape | src/antlr/CFGNode.java:296-314 | In the loop shape: FOR_INIT → FOR_CONDITION only; FOR_CONDITION's successors are exactly [body's first node, FOR_EXIT]; FOR_CONDITION is entered from FOR_INIT and FOR_UPDATE (the back-edge). FOR_UPDATE → FOR_CONDITION only and is entered from one node reachable from the body's start (getLastNode of the body's first statement). FOR_EXIT is entered from FOR_CONDITION only and has no successors. |
| LoweringProps.LinkForShape | src/antlr/CFGNode.java:304-311 | The five edges of buildFromFor, added in order, give that loop shape. |
| BlockExits.PlainFirstLabel | src/antlr/CFGNode.java:182-208 | A block whose first statement is not an if or a for starts with a node that is neither IF_CONDITION nor FOR_INIT, whatever follows. |
| BlockExits.BranchFromPlainFirst | src/antlr/CFGNode.java:277-281 | When a branch's block starts with a statement that is not an if or a for, IF_JOIN gains exactly one predecessor: that first statement's node, however many statements follow it. |
| BlockExits.ForFromPlainFirst | src/antlr/CFGNode.java:302-308 | When a loop body starts with a statement that is not an if or a for, FOR_UPDATE's only predecessor is that first statement's node, however many statements follow it. |
| BlockExits.BranchTailDangles | src/antlr/CFGNode.java:199-208 | For a branch block of two plain statements, the first leads to the second and to IF_JOIN, and the second has no successor at all. |
| BlockExits.ForTailDangles | src/antlr/CFGNode.java:199-208 | For a loop body of two plain statements, the first leads to the second and to FOR_UPDATE, and the second has no successor at all. |
| LoweringProps.BlockShape | src/antlr/CFGNode.java:182-209 | An empty block is exactly one new EMPTY_BLOCK node with no edges, and nothing else changes. A non-empty block returns its first statement's node. Its statements' first nodes are new, increasing and statement-labelled, and each is a successor of a node reachable from the previous one. |
| LoweringProps.StmtsChain | src/antlr/CFGNode.java:191-206 | The statement loop chains the statements' first nodes in order. The first of them follows the previous statement when there is one. |
| LoweringProps.FirstsLength | src/antlr/CFGNode.java:191-196 | The loop makes one first node per statement, and the block's first node is the first node made. |
| LoweringProps.LowerFunctionExtends | src/antlr/CFGNode.java:170-180 | buildFromFunction's entry node is labelled FUNCTION_ followed by the name, and the older nodes are left alone. Nothing enters the entry node. With a body, its only successor is the body's first node, made right after it. Without a body, the entry is the only node made and has no successors. |
| LoweringProps.MainStep | src/antlr/CFGNode.java:113-122 | One main function appends its FUNCTION_main entry to PROGRAM_START's successors and adds nothing to its predecessors. It appends exactly one predecessor to PROGRAM_END: a node of the function, reachable from its entry, that is not a loop's condition or update (findLastExecutionNode's answer). |
| LoweringProps.DeclsShape | src/antlr/CFGNode.java:112-125 | The declaration loop gives PROGRAM_START one new FUNCTION_main successor per main function and no new predecessor. Other declarations are never lowered: the loop builds the same arena as it does over the main functions alone (`Mains`), so they add no node and no edge, and without a main function the arena is unchanged. |
| LoweringProps.BuildShape | src/antlr/CFGNode.java:92-100 | build gives null exactly when the tree is not a ProgramNode. Otherwise it returns PROGRAM_START (node 0), with PROGRAM_END as node 1. Nothing enters PROGRAM_START, and its successors are exactly one FUNCTION_main entry per main function. |
| CfgBuilder.Builder.constructor | src/antlr/CFGNode.java:81-85 | A new builder starts numbering from the first id on an empty arena. |
| CfgBuilder.Builder.Build | src/antlr/CFGNode.java:92-100 | build returns a node exactly for a ProgramNode. The graph is a fresh arena equal to `LowerProgram`, with entry node 0 and exit node 1. Otherwise nothing changes. |
| CfgBuilder.Builder.BuildFromProgram | src/antlr/CFGNode.java:102-128 | The arena afterwards is `LowerProgram` of the program, and entry and exit are PROGRAM_START and PROGRAM_END. |
| CfgBuilder.Builder.BuildFrame | src/antlr/CFGNode.java:103-108 | Makes PROGRAM_START (node 0) and PROGRAM_END (node 1) in the empty arena. |
| CfgBuilder.Builder.BuildDecls | src/antlr/CFGNode.java:112-125 | The declaration loop changes the arena exactly as `LowerDecls`, lowering the main functions only. |
| CfgBuilder.Builder.BuildMain | src/antlr/CFGNode.java:115-121 | One main function is linked after PROGRAM_START, and its last execution node is linked to PROGRAM_END, exactly as `LowerMain`. |
| CfgBuilder.Builder.FindLastExecutionNode | src/antlr/CFGNode.java:130-168 | The queue loop answers `FindLastExecution`. |
| CfgBuilder.Builder.BuildFromFunction | src/antlr/CFGNode.java:170-180 | Changes the arena exactly as `LowerFunction`. |
| CfgBuilder.Builder.BuildFromBlock | src/antlr/CFGNode.java:182-209 | Changes the arena exactly as `LowerBlock` and returns the first node. |
| CfgBuilder.Builder.GetLastNode | src/antlr/CFGNode.java:212-220 | Answers `LastNode`. |
| CfgBuilder.Builder.FindJoinNode | src/antlr/CFGNode.java:222-234 | The nested loops answer `FindJoin`. |
| CfgBuilder.Builder.FindForExitNode | src/antlr/CFGNode.java:236-253 | The queue loop answers `FindForExit`. |
| CfgBuilder.Builder.BuildFromStatement | src/antlr/CFGNode.java:255-271 | Changes the arena exactly as `LowerStmt`. |
| CfgBuilder.Builder.BuildFromIf | src/antlr/CFGNode.java:273-294 | Changes the arena exactly as `LowerIf`. |
| CfgBuilder.Builder.BuildFromFor | src/antlr/CFGNode.java:296-314 | Changes the arena exactly as `LowerFor`. |
| CfgBuilder.Builder.GenerateMermaidDiagram | src/antlr/CFGNode.java:316-325 | Returns `Mermaid.Diagram` of the arena from the start node. |
| Mermaid.GenerateMermaidNodes | src/antlr/CFGNode.java:327-342 | The recursive walk appends to the text exactly the lines of `Emit`, and returns the new visited list. |
| Mermaid.DiagramCorrect | src/antlr/CFGNode.java:316-342 | After the header the diagram prints the start node's line first. It prints one `id["label"]` line for a node exactly when the node is reachable, and one `a --> b` line exactly for each successor edge of a reachable node. No line is printed twice. |
| Mermaid.DiagramStartsWithHeader | src/antlr/CFGNode.java:317-318 | The diagram text begins with `graph TD` and a newline. |
| Mermaid.DiagramVisits | src/antlr/CFGNode.java:327-342 | The walk from the start visits exactly the nodes reachable from it. |
| Mermaid.EmitFacts | src/antlr/CFGNode.java:327-342 | A call on an unvisited node appends the node and its node line first. It describes every newly visited node completely, prints each line once, and visits only reachable nodes. |
| Mermaid.EmitListFacts | src/antlr/CFGNode.java:338-341 | The successor loop prints one edge line per successor and visits every successor. |
| Mermaid.DiagramLinesOk | src/antlr/CFGNode.java:335-339 | Every printed line names nodes of the graph. |
| Dominance.Meet | src/antlr/CFGAnalyzer.java:25-28 | The retainAll loop leaves exactly the nodes in the domSet of every predecessor, whatever their order. |
| Dominance.InitialDom | src/antlr/CFGAnalyzer.java:42-51 | initializeDominatorSets adds the root to the root's set and the whole post-order to every other post-order node's set. Other nodes are untouched. |
| Dominance.SweepFacts | src/antlr/CFGAnalyzer.java:21-38 | A sweep only shrinks sets and never touches the root or nodes outside the order. Its flag is set exactly when some set changed. With the flag clear, every non-root node already satisfies the dataflow equation. |
| Dominance.SweepMeasure | src/antlr/CFGAnalyzer.java:19-39 | A sweep that changed a set strictly lowers the total size of the sets, so the do/while loop ends. |
| Dominance.DomSizeShrinks | src/antlr/CFGAnalyzer.java:34-37 | Shrinking the sets never raises their total size, and changing one lowers it. |
| Dominance.MeetShrinks | src/antlr/CFGAnalyzer.java:25-28 | Smaller predecessor sets give a smaller intersection. |
| Dominance.InitialPostFix | src/antlr/CFGAnalyzer.java:42-51 | After initialisation no sweep can enlarge a set. |
| Dominance.CompleteAfterInit | src/antlr/CFGAnalyzer.java:42-51 | After initialisation every dominator of a reachable node is in its set. |
| Dominance.SweepComplete | src/antlr/CFGAnalyzer.java:21-38 | When predecessors of reachable nodes are reachable, a sweep never drops a dominator from a set. |
| Dominance.SoundPath | src/antlr/CFGAnalyzer.java:19-39 | At the fixpoint, every member of a node's domSet lies on every path from the root to that node. |
| Dominance.DominatorSetsExact | src/antlr/CFGAnalyzer.java:14-40 | At the fixpoint, domSet(n) holds only dominators of n. With reachable predecessors it holds exactly the dominators of n. |
| Dominance.DominatesTrans | src/antlr/CFGAnalyzer.java:14-40 | Dominance is transitive. |
| Dominance.DominatesPred | src/antlr/CFGAnalyzer.java:26-28 | A strict dominator of n dominates every predecessor of n. |
| Dominance.DominatesRoot | src/antlr/CFGAnalyzer.java:23 | Only the root dominates the root. |
| Dominance.CoversHasPreds | src/antlr/CFGAnalyzer.java:25 | Every reachable non-root node has a predecessor, so line 25's `iterator().next()` is safe. |
| Dominance.InitialInv | src/antlr/CFGAnalyzer.java:16-20 | The loop starts from initialised fresh sets with its invariant: the root's set is {root}, no sweep can enlarge a set, and dominators are kept. |
| Dominance.RoundInv | src/antlr/CFGAnalyzer.java:20-39 | Each round keeps the invariant and lowers the measure when it changed something. |
| Dominance.FinalOutcome | src/antlr/CFGAnalyzer.java:39 | A round with no change leaves the fixpoint. Each node is then in its own set, the sets hold only dominators (exactly the dominators with reachable predecessors), and unreachable nodes keep empty sets. |
| Dominance.PostOrderFits | src/antlr/CFGAnalyzer.java:22 | getPostOrder of the root covers exactly the reachable nodes, each with a predecessor unless it is the root. |
| Frontier.Contribution | src/antlr/CFGAnalyzer.java:64-75 | What one successor adds to DFSet(n) is disjoint from domSet(n). |
| Frontier.GainsFacts | src/antlr/CFGAnalyzer.java:63-76 | A successor outside domSet(n) is added. The frontier members outside domSet(n) of a successor inside domSet(n) are added. Nothing else is added. |
| Frontier.StepFacts | src/antlr/CFGAnalyzer.java:57-76 | For one node: sDomSet(n) gains domSet(n) minus n. DFSet(n) only grows, stays disjoint from domSet(n), holds only reachable nodes, contains every successor outside domSet(n), and inherits from successors inside it. Other nodes are unchanged. |
| Frontier.PassFacts | src/antlr/CFGAnalyzer.java:55-78 | Over any order: sDomSet(x) = domSet(x) \ {x} for processed x. Every DFSet stays disjoint from domSet and holds only reachable nodes. Every processed node holds each successor outside its domSet. For a successor inside its domSet, it holds that successor's frontier as it was when the pass started, minus its domSet. If the successor is not processed at or after the node, it also holds the successor's final frontier minus its domSet. Anything else a frontier gains is a successor or lies in a successor's final frontier, and unprocessed nodes keep their sets. |
| Frontier.InheritedStep | src/antlr/CFGAnalyzer.java:59-76 | The second branch of the rule, against final frontiers, survives putting a node in front of the rest of the order. A successor processed neither at that node nor later keeps the frontier the node read from it. |
| CfgAnalyzer.FrontierOutcome | src/antlr/CFGAnalyzer.java:55-78 | From fresh sets: sDomSet(x) = domSet(x) \ {x} for reachable x and empty otherwise. DFSet misses domSet, holds only reachable nodes and every successor outside domSet. It holds the final DFSet, minus domSet, of each successor inside domSet that comes earlier in the post-order. Over a post-order, every other member is a successor or came from the frontier a successor inside domSet had when the node read it: final if that successor came earlier, empty if it comes later. It is empty for unreachable nodes. |
| Frontier.PassSourced | src/antlr/CFGAnalyzer.java:57-76 | Over an order that holds each node once, every member a node's frontier gains is one of its successors, or came from the frontier a successor inside its domSet had at the moment the node was processed. |
| Frontier.PassFrame | src/antlr/CFGAnalyzer.java:57-58 | The pass changes the frontier only of the nodes it processes. |
| Frontier.FrontierDetermined | src/antlr/CFGAnalyzer.java:57-76 | Two frontier assignments from empty sets that both satisfy the frontier facts over the same order are equal, so those facts leave no freedom. |
| Frontier.FrontierExact | src/antlr/CFGAnalyzer.java:55-78 | From empty frontiers over an order that holds each node once, the pass's frontiers satisfy the frontier facts, and an assignment satisfies them exactly when it is the pass's. |
| ImmediateDominator.FindClosest | src/antlr/CFGAnalyzer.java:105-112 | findClosestNode answers a candidate reachable from the node, and none exactly when no reachable node is a candidate. |
| ImmediateDominator.FirstIn | src/antlr/CFGAnalyzer.java:106-110 | The first entry of the order that is a candidate, none exactly when there is none. |
| ImmediateDominator.FoldFacts | src/antlr/CFGAnalyzer.java:86-98 | The predecessor loop changes the running value only at predecessors in domSet(n). With none it stays. With exactly one it is that one. Whatever it becomes is such a predecessor, or lies in the domSet of one and is reachable from n. |
| ImmediateDominator.IDomFacts | src/antlr/CFGAnalyzer.java:80-102 | iDom(root) is null. A node with no predecessor in its domSet gets null, and with exactly one it gets that predecessor. Otherwise the answer is such a predecessor or a reachable member of one's domSet. |
| ImmediateDominator.IDomDominates | src/antlr/CFGAnalyzer.java:80-112 | With exact dominator sets and reachable predecessors, the chosen iDom is a member of domSet(n), that is, a dominator of n. It may be n itself when n has a self-loop, so it is not always a strict dominator. |
| CfgAnalyzer.IDomOutcome | src/antlr/CFGAnalyzer.java:80-102 | At the end of the analysis the root has no iDom, and (with reachable predecessors) every iDom dominates its node. |
| CfgAnalyzer.AnalysisDone | src/antlr/CFGAnalyzer.java:7-11 | The three passes together give the outcome stated for CalculateDominators. Its frontier clauses pin DFSet down (Frontier.FrontierExact). |
| CfgAnalyzer.CalculateDominators | src/antlr/CFGAnalyzer.java:7-11 | On fresh fields, leaves the graph unchanged and the outcome below, for the nodes reachable from the root. The domSets are the fixpoint, with {root} for the root, each node in its own set, and only dominators (exactly the dominators with reachable predecessors). sDomSet = domSet \ {node}. DFSet is disjoint from domSet, reachable, holds every successor outside domSet and the final DFSet (minus domSet) of each successor inside domSet that comes earlier in the post-order. Nothing else enters it: a successor inside domSet that comes later in the post-order contributes nothing, since its frontier is still empty when the node reads it. These clauses determine DFSet (Frontier.FrontierExact). iDom is the predecessor loop's choice, null for the root, and a dominator with reachable predecessors. Unreachable nodes keep empty sets and no iDom. |
| CfgAnalyzer.CalculateDominatorSets | src/antlr/CFGAnalyzer.java:14-40 | The do/while loop ends, with the domSets as stated above. |
| CfgAnalyzer.InitializeDominatorSets | src/antlr/CFGAnalyzer.java:42-51 | The domSets become `InitialDom` of the post-order. |
| CfgAnalyzer.NewDomSet | src/antlr/CFGAnalyzer.java:25-31 | Computes the new domSet of a node: the intersection of its predecessors' sets plus the node. |
| CfgAnalyzer.SweepOnce | src/antlr/CFGAnalyzer.java:21-38 | One pass of the do/while body updates the domSets in place as `Sweep`, and returns the changed flag. |
| CfgAnalyzer.InheritFrontier | src/antlr/CFGAnalyzer.java:70-74 | DFSet(node) gains the members of the successor's DFSet that are outside domSet(node), and nothing else changes. |
| CfgAnalyzer.StrictDominanceAndFrontierAt | src/antlr/CFGAnalyzer.java:58-76 | The loop body for one node updates sDomSet and DFSet as `Frontier.Step`. |
| CfgAnalyzer.CalculateStrictDominanceAndDominanceFrontier | src/antlr/CFGAnalyzer.java:55-78 | Updates sDomSet and DFSet as `Frontier.Pass` over getPostOrder. |
| CfgAnalyzer.FindClosestNode | src/antlr/CFGAnalyzer.java:105-112 | The loop over the post-order answers `FindClosest`. |
| CfgAnalyzer.ImmediateDominatorOf | src/antlr/CFGAnalyzer.java:86-98 | The running immediateDominator over the predecessors is `Fold`. |
| CfgAnalyzer.CalculateImmediateDominators | src/antlr/CFGAnalyzer.java:80-102 | Sets iDom of every post-order node to `IDom`, and leaves the other nodes' iDom unchanged. |

## Left out

- Iteration order of `HashSet`:
  - `getNext`/`getParent` copy the lists into a `HashSet` (CFGNode.java:42-48), whose iteration order Java leaves unspecified.
  - The model iterates the lists in order. This affects the order of the post-order and of the frontier and iDom loops.
  - The dominator fixpoint and the frontier facts do not depend on it.
- The static id counter and `graphId` (CFGNode.java:5, 18, 29-33, 79-90):
  - ids are per arena, numbered from 1 by construction;
  - `resetIdCounter` and `getGraphId` are not modelled.
- `nodeToAst` (CFGNode.java:78) is never filled, so it is not modelled.
- Source positions of the syntax tree are not modelled.
- Not modelled:
  - the visitor that builds the syntax tree;
  - the Swing visualiser;
  - the `mmdc` runner;
  - file and console I/O.
- `buildFromBlock`'s `lastNode` variable (CFGNode.java:189, 205) is assigned but never read, so it is not modelled.
- A `null` block, which would throw in `buildFromBlock`, is not modelled. The syntax tree has no null blocks.
- `findLastExecutionNode`'s `null` start (CFGNode.java:131) cannot happen. Its only caller passes a node it just made.
- The analyzer requires the dominance fields as node construction leaves them (`Cfg.AnalysisFresh`). A second run on the same nodes, which would accumulate through `addAll`, is not modelled.
- CfgAnalyzer.CalculateDominators: exactness of domSet (and that iDom dominates its node) is proved only when every predecessor of a reachable node is reachable (`Dominance.PredsIn`). Without it, an unreachable predecessor with an empty domSet makes the code's sets too small; soundness holds always.
- Frontier.PassFacts: the frontier rule is the code's (CFGAnalyzer.java:65 asks whether the successor dominates the node), not the textbook rule of Cytron et al. Over any order, a successor processed after the node is stated to hand on only the frontier it had when the pass started, and PassFacts gives only an upper limit against final frontiers. The exact rule, which needs each node to be processed once, is in Frontier.PassSourced and Frontier.FrontierExact.
- ImmediateDominator.IDomFacts: with two or more predecessors in domSet, the code's answer is stated as a qualifying predecessor or a reachable member of one's domSet. That is weaker than "a member of the intersection": a later predecessor may replace a null running value on its own.
- LoweringProps.LastNodeSpec: findJoinNode looks only two successor levels deep (CFGNode.java:222-234). For nested ifs it can find an inner IF_JOIN or none. That is modelled as written, and this lemma states only what the search guarantees.
- LoweringProps.IfShape: IF_JOIN's predecessors are stated as nodes reachable from each block's first node. The code links getLastNode of the block's FIRST statement (CFGNode.java:279-281, 284-288), because buildFromBlock returns `firstNode` (CFGNode.java:208). So the later statements of a multi-statement block never reach IF_JOIN (BlockExits.BranchTailDangles). This is modelled as written.
- LoweringProps.IfElseShape: the same holds for the else-block. IF_JOIN is entered from getLastNode of its first statement, not from where it ends.
- LoweringProps.ForShape: FOR_UPDATE is entered from getLastNode of the body's first statement (CFGNode.java:307-308). Later statements of the body never reach the back-edge (BlockExits.ForTailDangles).
- LoweringProps.LastExecutionIn: findLastExecutionNode also asks that all successors of its answer were visited when it was polled. That refers to the search's own visited set, and in terms of the final graph it adds only reachability, so it is not stated.
- LoweringProps.BlockShape: the edge between two statements is stated as leaving a node reachable from the earlier statement's first node. It is not tied to exactly getLastNode at the time of the call, which is what `Lowering.LowerStmts` computes.
- LoweringProps.BuildShape: the successors of PROGRAM_START are counted and labelled FUNCTION_main. Each one is not tied to its specific declaration.
- Φ placement and SSA renaming are not part of the code modelled here.
