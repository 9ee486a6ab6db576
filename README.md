# Per-block dataflow analysis and register allocation of the decaf compiler

This project models two per-basic-block backend passes of the decaf teaching
compiler and proves what they compute.

**Basic-block dataflow analysis** (`BasicBlock`). A block holds a doubly
linked list of three-address instructions (`Tac`).
- `allocateTacIds` numbers the instructions from the compilation-wide id counter.
- `computeDefAndLiveUse` is the forward scan:
  - it classifies each temp by its first occurrence in the block, into `liveUse` (read first) or `def` (written first);
  - it records every read in `reference` and every write in `defDU`;
  - it records the reads that no earlier definition reaches in `liveUseDU`.
- `analyzeLiveness` is the backward pass: it annotates every instruction with the temps live after it.
- `analyzeDUChain` maps each definition point to the positions that may read the value it defines.
- `insertBefore` and `insertAfter` relink the list.

**Interference graph and colouring** (`InferenceGraph`).
- `makeNodes` makes a node of every live-on-entry temp and every operand temp, except temps already bound to the frame pointer.
- `makeEdges` joins every two live-on-entry temps. It also joins each defined temp to every other node live after its definition.
- `color` uses Kempe simplification. It sets aside a node with fewer than K counted neighbours, colours the rest, then gives that node the first register its neighbours leave free. When no such node exists it throws, since spilling is unsupported.
- `alloc` clears, builds and colours in a do-while loop.

The model has these modules:
- `Tac`: temps, opcodes, instructions and the id counter (`tac.dfy`).
- `DefUse`: the forward scan as a specification, meaning first occurrences, reference points and upward-exposed reads (`def_use.dfy`).
- `Liveness`: the backward table and the meaning of a live-out annotation (`liveness.dfy`).
- `DUChain`: the DU chain of a definition, by what it means (`du_chain.dfy`).
- `BasicBlocks`: the `BasicBlock` class. Its methods loop over the linked list and are proved against the specification functions above (`basic_block.dfy`).
- `Graphs`: the graph as a value, with `addNode`, `addEdge`, `removeNode` and the register choice as functions (`graph.dfy`).
- `Construction`: the graph `makeGraph` builds, as a function of the block's values (`construction.dfy`).
- `Backend`: the `InferenceGraph` class, with methods proved against `Graphs` and `Construction` (`inference_graph.dfy`).

Java exceptions become `Failure`/`Fail` results, and so do NullPointerExceptions the code can reach on the inputs it accepts:
- `NullDereference`: a temp bound to the frame pointer has no neighbour set but is still dereferenced.
- `IllegalOpcode`: a branch or return reached the graph builder.
- `SpillUnsupported`: no node has fewer than K counted neighbours.

## Model

| member | source | states |
|---|---|---|
| `Tac.IdAllocator.Apply` | decaf_PA4/src/decaf/dataflow/BasicBlock.java:87-89 | each id drawn is the counter, which then moves up by one |
| `BasicBlocks.BasicBlock.constructor` | decaf_PA4/src/decaf/dataflow/BasicBlock.java:69-83 | a new block has an empty list and empty sets and DU chain |
| `BasicBlocks.BasicBlock.AllocateTacIds` | decaf_PA4/src/decaf/dataflow/BasicBlock.java:85-90 | instruction k gets the counter's value plus k; `endId` comes after every instruction id; ids strictly increase along the list |
| `BasicBlocks.BasicBlock.InsertToLiveUseDU` | decaf_PA4/src/decaf/dataflow/BasicBlock.java:96-103 | the pair always joins `reference`; it joins `liveUseDU` exactly when `defDU` holds no definition of the temp |
| `BasicBlocks.BasicBlock.VisitUse` | decaf_PA4/src/decaf/dataflow/BasicBlock.java:122-126 | a read slot: an unmarked temp joins `liveUse` and is marked, then the read is recorded, as one scan step |
| `BasicBlocks.BasicBlock.VisitDef` | decaf_PA4/src/decaf/dataflow/BasicBlock.java:132-136 | a write slot: an unmarked temp joins `def` and is marked; the definition point joins `defDU` unconditionally |
| `BasicBlocks.BasicBlock.VisitTac` | decaf_PA4/src/decaf/dataflow/BasicBlock.java:107-196 | one instruction's slots in the order op1, op2, op0, by opcode group; a void call defines nothing |
| `BasicBlocks.BasicBlock.VisitList` | decaf_PA4/src/decaf/dataflow/BasicBlock.java:106-197 | the walk over the list performs the scan over all the block's occurrences in program order |
| `BasicBlocks.BasicBlock.ComputeDefAndLiveUse` | decaf_PA4/src/decaf/dataflow/BasicBlock.java:105-211 | the five sets are the scan over the block's occurrences, including the end temp read at `endId`; `liveIn` and `liveInDU` gain `liveUse` and `liveUseDU`; every occurring temp ends up marked |
| `DefUse.RunMeaning` | decaf_PA4/src/decaf/dataflow/BasicBlock.java:105-211 | the scan adds to `liveUse` (or `def`) exactly the unmarked temps whose first occurrence is a read (or a write); it adds every read to `reference`, every write to `defDU`, and to `liveUseDU` exactly the reads no earlier definition precedes |
| `DefUse.Classification` | decaf_PA4/src/decaf/dataflow/BasicBlock.java:122-190 | temps classified as used and as defined are disjoint, and together they are every unmarked occurring temp |
| `DefUse.ExposedMatchesFirstUse` | decaf_PA4/src/decaf/dataflow/BasicBlock.java:96-103 | upward-exposed reads are references; an unmarked one's temp is first used; a first-used temp with no prior definition has an exposed read |
| `DefUse.BlockScan` | decaf_PA4/src/decaf/dataflow/BasicBlock.java:105-211 | over a whole block, the scan adds to `liveUse` and to `def` two disjoint sets of temps, which together are exactly the block's temps not yet marked for it |
| `DefUse.FirstTouchReads` | decaf_PA4/src/decaf/dataflow/BasicBlock.java:122-136 | when the first instruction of a block to touch a temp reads it, the temp's first occurrence in the block is a read, even if that instruction also writes it |
| `DefUse.ReadBeforeWrite` | decaf_PA4/src/decaf/dataflow/BasicBlock.java:122-136 | in any block, a temp whose first touching instruction reads it (such as `t = t op x`) goes to `liveUse`, not to `def` |
| `DefUse.FirstOccFound` | decaf_PA4/src/decaf/dataflow/BasicBlock.java:122-135 | a temp has a first occurrence exactly when it occurs, and that occurrence is of the temp |
| `BasicBlocks.BasicBlock.LastTac` | decaf_PA4/src/decaf/dataflow/BasicBlock.java:216-217 | the forward walk stops at the last instruction |
| `BasicBlocks.BasicBlock.LiveBefore` | decaf_PA4/src/decaf/dataflow/BasicBlock.java:223-274 | the set live before an instruction is the table's transfer: minus the defined op0, plus the read operands |
| `BasicBlocks.BasicBlock.AnalyzeLiveness` | decaf_PA4/src/decaf/dataflow/BasicBlock.java:213-276 | every instruction's `liveOut` is the backward transfer from the block's `liveOut` plus the end temp; an empty list is left alone |
| `Liveness.LiveOutMeaning` | decaf_PA4/src/decaf/dataflow/BasicBlock.java:213-276 | a temp is live after instruction k exactly when a later instruction reads it and nothing in between overwrites it, or it is live at exit and nothing after k overwrites it |
| `Liveness.TablesAgree` | decaf_PA4/src/decaf/dataflow/BasicBlock.java:224-274 | the forward scan and the backward table agree on writes, and on reads except at BEQZ and BNEZ |
| `BasicBlocks.BasicBlock.InsertToDUChain` | decaf_PA4/src/decaf/dataflow/BasicBlock.java:278-286 | map-or-create: the position joins the pair's entry, which is created when missing |
| `DUChain.AddAll` | decaf_PA4/src/decaf/dataflow/BasicBlock.java:278-286 | adding positions to a key creates it only when something is added; other keys are unchanged |
| `DUChain.AddAllTwice` | decaf_PA4/src/decaf/dataflow/BasicBlock.java:278-286 | adding to a key twice is adding the union once |
| `BasicBlocks.BasicBlock.NextInOrder` | decaf_PA4/src/decaf/dataflow/BasicBlock.java:292-301 | finds the element of `defDU` right after `d` in (temp, position) order, or reports that `d` is last |
| `BasicBlocks.BasicBlock.InsertMatching` | decaf_PA4/src/decaf/dataflow/BasicBlock.java:302-316 | one filtered stream chains to `d` exactly the positions of `d`'s temp within the bounds |
| `BasicBlocks.BasicBlock.ChainDefinition` | decaf_PA4/src/decaf/dataflow/BasicBlock.java:290-318 | one turn adds to `d`'s entry exactly `d`'s DU chain |
| `BasicBlocks.BasicBlock.AnalyzeDUChain` | decaf_PA4/src/decaf/dataflow/BasicBlock.java:288-319 | every definition with a nonempty chain gets an entry holding what it had plus its chain; no other key is created |
| `DUChain.SuccessorIsNextDefinition` | decaf_PA4/src/decaf/dataflow/BasicBlock.java:289-301 | the successor in defDU has the same temp exactly when the temp is defined again later, and then it is the nearest redefinition |
| `DUChain.ChainBySuccessor` | decaf_PA4/src/decaf/dataflow/BasicBlock.java:296-317 | the two filters compute the chain: positions in (d.pos, next.pos] when the next entry redefines the temp, else every later reference plus the live-out positions |
| `DUChain.BuiltAll` | decaf_PA4/src/decaf/dataflow/BasicBlock.java:288-319 | after every definition's turn the map's keys and entries are as the DU chains prescribe |
| `BasicBlocks.BasicBlock.InsertBefore` | decaf_PA4/src/decaf/dataflow/BasicBlock.java:470-479 | the list is the old list with `ins` just before `base`, still well linked; `ins.next == base`, `base.prev == ins`, and `ins` is the new head when `base` was |
| `BasicBlocks.BasicBlock.InsertAfter` | decaf_PA4/src/decaf/dataflow/BasicBlock.java:481-493 | on an empty list `ins` is the only instruction; otherwise the list is the old one with `ins` between `base` and the old `base.next`, still well linked |
| `Backend.InferenceGraph.constructor` | decaf_PA5/src/decaf/backend/InferenceGraph.java:19-24 | a new graph is empty |
| `Backend.InferenceGraph.Clear` | decaf_PA5/src/decaf/backend/InferenceGraph.java:27-31 | the three containers are emptied |
| `Graphs.WithNode` | decaf_PA5/src/decaf/backend/InferenceGraph.java:46-52 | a temp that is a node already, or holds the frame pointer, changes nothing; otherwise it becomes a node with no neighbours and counter 0 |
| `Graphs.WithNodeIdempotent` | decaf_PA5/src/decaf/backend/InferenceGraph.java:46-52 | adding a node twice is adding it once |
| `Graphs.WithNodeShaped` | decaf_PA5/src/decaf/backend/InferenceGraph.java:46-52 | addNode keeps adjacency symmetric and counters at least the neighbour count |
| `Backend.InferenceGraph.AddNode` | decaf_PA5/src/decaf/backend/InferenceGraph.java:46-52 | the graph becomes `WithNode` of the old one |
| `Graphs.WithEdge` | decaf_PA5/src/decaf/backend/InferenceGraph.java:63-68 | each end joins the other's neighbour set and both counters go up by one, whether or not the pair was adjacent; nothing else changes |
| `Graphs.WithEdgeShaped` | decaf_PA5/src/decaf/backend/InferenceGraph.java:63-68 | an edge between two distinct nodes keeps adjacency symmetric and counters at least the neighbour count, duplicate or not |
| `Backend.InferenceGraph.AddEdge` | decaf_PA5/src/decaf/backend/InferenceGraph.java:63-68 | the graph becomes `WithEdge` of the old one |
| `Graphs.WithoutNode` | decaf_PA5/src/decaf/backend/InferenceGraph.java:55-60 | only `n` leaves the nodes; each neighbour still a node loses one from its counter; neighbour sets and other counters stay |
| `Graphs.WithoutNodeCovered` | decaf_PA5/src/decaf/backend/InferenceGraph.java:55-60 | removing a node keeps every counter at least its number of neighbours still to colour |
| `Backend.InferenceGraph.RemoveNode` | decaf_PA5/src/decaf/backend/InferenceGraph.java:55-60 | the graph becomes `WithoutNode` of the old one |
| `Backend.InferenceGraph.LowDegreeNode` | decaf_PA5/src/decaf/backend/InferenceGraph.java:76-82 | finds a node whose counter is below K, or null exactly when every node's counter is at least K |
| `Graphs.FirstFree` | decaf_PA5/src/decaf/backend/InferenceGraph.java:103-106 | the first register in `regs` order not used, which is none exactly when every register is used |
| `Graphs.FreeRegister` | decaf_PA5/src/decaf/backend/InferenceGraph.java:97-107 | with K distinct registers and fewer than K used, a register is free |
| `Backend.InferenceGraph.ChooseAvailableRegister` | decaf_PA5/src/decaf/backend/InferenceGraph.java:97-107 | returns `FirstFree` of the registers the neighbours of `n` hold |
| `Backend.HeldFewer` | decaf_PA5/src/decaf/backend/InferenceGraph.java:78-88 | a node with fewer than K counted neighbours, whose neighbours outside the remaining nodes hold no register, sees fewer than K registers held |
| `Backend.InferenceGraph.AssignRegister` | decaf_PA5/src/decaf/backend/InferenceGraph.java:88 | the chosen register keeps neighbours apart, keeps colours drawn from `regs`, and colours `n` when fewer than K distinct registers are held around it |
| `Backend.InferenceGraph.Color` | decaf_PA5/src/decaf/backend/InferenceGraph.java:71-94 | returns true with no nodes left, or throws with every remaining counter at least K; on success colours come from `regs` and neighbours never share one; with a counted symmetric graph, K distinct registers and no temp coloured beforehand, every node gets a register |
| `Construction.NodeOperandsAreAccesses` | decaf_PA5/src/decaf/backend/InferenceGraph.java:125-155 | the operand slots makeNodes offers are exactly the temps the instruction reads or writes by the liveness table |
| `Construction.OperandsMeaning` | decaf_PA5/src/decaf/backend/InferenceGraph.java:124-160 | a temp is offered by the first k instructions exactly when it is an operand slot of one of them |
| `Construction.NodesMeaning` | decaf_PA5/src/decaf/backend/InferenceGraph.java:120-161 | the nodes are exactly the live-on-entry and operand temps not bound to the frame pointer, isolated and symmetric |
| `Backend.InferenceGraph.Offer` | decaf_PA5/src/decaf/backend/InferenceGraph.java:122 | addNode on one candidate adds it to the candidates offered so far |
| `Backend.InferenceGraph.AddOperands` | decaf_PA5/src/decaf/backend/InferenceGraph.java:125-159 | one instruction's switch offers exactly its operand slots |
| `Backend.InferenceGraph.OfferLiveUse` | decaf_PA5/src/decaf/backend/InferenceGraph.java:122 | every live-on-entry temp is offered |
| `Backend.InferenceGraph.OfferAt` | decaf_PA5/src/decaf/backend/InferenceGraph.java:125-159 | instruction k extends the candidates of the first k instructions to the first k + 1 |
| `Backend.InferenceGraph.OfferCode` | decaf_PA5/src/decaf/backend/InferenceGraph.java:124-160 | throws exactly when some instruction is a branch or return; otherwise offers every operand slot of the block |
| `Backend.InferenceGraph.MakeNodes` | decaf_PA5/src/decaf/backend/InferenceGraph.java:120-161 | throws exactly on a branch or return; otherwise adds the live-on-entry and operand temps not bound to the frame pointer |
| `Construction.Clique` | decaf_PA5/src/decaf/backend/InferenceGraph.java:168-174 | every row done: each live-on-entry temp neighbours all the others, with its counter equal to that number |
| `Construction.CliqueRow` | decaf_PA5/src/decaf/backend/InferenceGraph.java:169-173 | one row adds edges exactly to the temps of the rows still to come, completing the row |
| `Construction.CliqueMeaning` | decaf_PA5/src/decaf/backend/InferenceGraph.java:168-174 | after the first loop two temps are neighbours exactly when they are distinct live-on-entry temps |
| `Construction.CliqueShaped` | decaf_PA5/src/decaf/backend/InferenceGraph.java:168-174 | without a fault the clique keeps adjacency symmetric and counters at least the neighbour count |
| `Backend.InferenceGraph.JoinPair` | decaf_PA5/src/decaf/backend/InferenceGraph.java:170-172 | a distinct pair not yet adjacent gets one addEdge; a missing neighbour set throws |
| `Backend.InferenceGraph.JoinRow` | decaf_PA5/src/decaf/backend/InferenceGraph.java:169-173 | row `a` joins `a` to every live-on-entry temp of the rows still to come |
| `Backend.InferenceGraph.JoinLiveUse` | decaf_PA5/src/decaf/backend/InferenceGraph.java:168-174 | throws exactly when two distinct live-on-entry temps are not both graph temps; otherwise builds the clique |
| `Construction.Conflicts` | decaf_PA5/src/decaf/backend/InferenceGraph.java:203-209 | the temps joined to a defined result are nodes, exclude the result, and exist only for a defining instruction with an annotation |
| `Construction.EdgeStep` | decaf_PA5/src/decaf/backend/InferenceGraph.java:177-221 | one instruction of the second loop keeps the nodes and the keys |
| `Construction.EdgeStepMeaning` | decaf_PA5/src/decaf/backend/InferenceGraph.java:203-209 | one instruction adds exactly the pairs of its result with a node live after it |
| `Construction.DefinitionDone` | decaf_PA5/src/decaf/backend/InferenceGraph.java:203-209 | joining a result to each of its conflicts completes the instruction's step |
| `Backend.InferenceGraph.JoinOut` | decaf_PA5/src/decaf/backend/InferenceGraph.java:205-207 | a live-out node other than the result gets one addEdge; a result without a neighbour set throws |
| `Backend.InferenceGraph.JoinConflicts` | decaf_PA5/src/decaf/backend/InferenceGraph.java:203-209 | the result is joined by one addEdge apiece to exactly the live-out nodes other than itself; throws only when there is one and the result has no neighbour set |
| `Backend.InferenceGraph.JoinDefinition` | decaf_PA5/src/decaf/backend/InferenceGraph.java:177-215 | one instruction's switch does `EdgeStep` |
| `Construction.Edges` | decaf_PA5/src/decaf/backend/InferenceGraph.java:176-223 | the second loop keeps the nodes and the keys |
| `Construction.EdgesMeaning` | decaf_PA5/src/decaf/backend/InferenceGraph.java:176-223 | after the second loop two temps are neighbours exactly when they were before, or one is an instruction's result and the other a node live after it |
| `Construction.EdgesShaped` | decaf_PA5/src/decaf/backend/InferenceGraph.java:176-223 | the second loop keeps adjacency symmetric and counters at least the neighbour count |
| `Backend.InferenceGraph.JoinDefinitions` | decaf_PA5/src/decaf/backend/InferenceGraph.java:176-223 | the walk over the list does `Edges`, throwing where it throws |
| `Backend.InferenceGraph.MakeEdges` | decaf_PA5/src/decaf/backend/InferenceGraph.java:165-224 | the clique, then the definition conflicts, throwing where `Joined` fails |
| `Construction.BuildShaped` | decaf_PA5/src/decaf/backend/InferenceGraph.java:110-117 | a built graph's nodes are the candidates not bound to the frame pointer; adjacency is symmetric and loop-free and each counter covers its node's neighbours |
| `Construction.BuildMeaning` | decaf_PA5/src/decaf/backend/InferenceGraph.java:110-117 | in a built graph two temps interfere exactly when they are distinct live-on-entry temps, or one is an instruction's result and the other a node live after it |
| `Construction.InflatedCounters` | decaf_PA5/src/decaf/backend/InferenceGraph.java:199-208 | in the block `a = 4; b = 4; a = a + b; c = a + b; parm c`, at most two temps are live at once, yet the built graph gives `a` and `b` one neighbour each and a counter of 2, so once `c` is set aside no node has a counter below 2 |
| `Backend.InferenceGraph.MakeGraph` | decaf_PA5/src/decaf/backend/InferenceGraph.java:110-117 | from a cleared graph, builds the graph `Build` plans and throws where it fails |
| `Backend.InferenceGraph.Rebuild` | decaf_PA5/src/decaf/backend/InferenceGraph.java:39-40 | clear then makeGraph leaves the planned graph, ready for colouring, and uncoloured when no candidate held a register but the frame pointer |
| `Backend.InferenceGraph.Attempt` | decaf_PA5/src/decaf/backend/InferenceGraph.java:38-42 | one loop pass: the planned graph is built and coloured properly from `regs`, completely under the conditions of `Color` |
| `Backend.InferenceGraph.Alloc` | decaf_PA5/src/decaf/backend/InferenceGraph.java:34-43 | remembers block, registers and frame pointer; fails as the plan or colouring does; on success the planned graph's nodes hold registers of `regs` and neighbours differ, all of them coloured when the registers are distinct and no candidate held one but the frame pointer |

## Left out

- Printing (`printTo`, `printLivenessTo`, `printDUChainTo`, `toString`) and assembly emission (`asms`, `appendAsm`, `getAsms`) only produce text. Fields the modelled methods do not use (`endKind`, `next`, `label`, `varReg`, `inDegree`, `cancelled`, `mark` and `saves`) are left out too.
- Java's field `var` is called `endVar`, because `var` is a Dafny keyword.
- `IDAllocator` is a global counter, which is not part of this model. It is the explicit `IdAllocator` object, with unbounded ids.
- `Tac.IdAllocator.Apply`: that each draw steps the counter by exactly one is an assumption, since `IDAllocator.apply` is not part of this model. `BasicBlocks.BasicBlock.AllocateTacIds` inherits it in its "counter + k" clause. The promise at BasicBlock.java:85-90 needs only ids that strictly increase along the list, with `endId` last, and its contract also states that.
- `Register` is an abstract type with equality. `Register[] regs` is a sequence, and `regs.length` is its length.
- Order of iteration:
  - `HashSet`/`HashMap` iteration order is modelled as an arbitrary choice of the next element (`:|`), so every contract holds for every order.
  - TreeSets are sets. `Pair.COMPARATOR` is modelled as (temp id, position) order, as the comment at BasicBlock.java:289 states.
- `BasicBlocks.BasicBlock.AnalyzeDUChain` requires distinct temps of `defDU` to have distinct ids (`UniqueTempIds`). Temps sharing an id would collapse in an id-keyed TreeSet, and that collapse is not modelled.
- Every pass requires the operand slots of `WellFormed` to be present. That is an assumption about the code generator, which is not part of this model. A NullPointerException from a missing `WellFormed` slot is not modelled.
  - Most of these slots are dereferenced by `computeDefAndLiveUse` (BasicBlock.java:122-190), so Java would throw where they are null.
  - `BasicBlocks.BasicBlock.ComputeDefAndLiveUse` and the `DefUse` functions also require op0 of `NEG`, `LNOT`, `ASSIGN`, `LOAD`, `LOAD_VTBL`, `LOAD_STR_CONST` and `LOAD_IMM4`. Java null-checks that slot in the scan (BasicBlock.java:149, :163). Only `makeNodes` dereferences it (InferenceGraph.java:133, :137, :154).
  - `BasicBlocks.BasicBlock.AnalyzeLiveness` and the `Liveness` functions require the same op0 of those seven opcodes, which Java only removes from a `HashSet` (BasicBlock.java:249, :258), and op0 of `BEQZ` and `BNEZ`, which Java adds to a `HashSet` even when it is null (BasicBlock.java:265-270). The model's liveness sets hold non-null temps.
- `BasicBlocks.BasicBlock.InsertBefore` and `BasicBlocks.BasicBlock.InsertAfter` require a well-linked list, an anchor `base` in it and an `ins` not in it. On other inputs Java corrupts the list, and that corruption is not modelled. The head's `prev` is left free, as `insertAfter` on an empty list leaves it.
- State after an exception: where a method returns `Fail`, the contract gives the reason but not the partly built graph or partly coloured temps.
- `Backend.InferenceGraph.MakeEdges` is specified only from the isolated graph `makeNodes` leaves. `Backend.InferenceGraph.MakeGraph` is specified only from a cleared graph. Those are the only states `alloc` calls them in.
- `Backend.InferenceGraph.Color` promises that every node gets a register only with K distinct registers and no graph temp coloured beforehand. A register left on a temp from an earlier block can make `chooseAvailableRegister` return null, and Java then stores null.
- `Backend.InferenceGraph.Color` does not promise to succeed when at most K temps are live at once, and it cannot. `addEdge` (InferenceGraph.java:63-68) counts every call. makeEdges' second loop (InferenceGraph.java:199-208) calls it again for a pair that is already adjacent, so a counter can exceed the node's number of neighbours. `Construction.InflatedCounters` shows a five-instruction block with at most two live temps on which colouring with two registers throws `SpillUnsupported`, although its graph is a single edge. The model keeps this counting.
- `Backend.InferenceGraph.Alloc` states its full-colouring guarantee under the same conditions as `Color`, for the candidates of the block. Its loop runs once, because `color` returns true or throws. Spilling does not exist in the source.
- Integer widths are not modelled: ids and degree counters are unbounded integers. Java's `int` overflow cannot occur for blocks of realistic size.
