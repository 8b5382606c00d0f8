# Holochain core pieces in Dafny

This project models three self-contained pieces of the holochain repository
and proves properties of them.

- **aitia's causal-graph engine** (`crates/aitia/src/graph.rs`). `traverse`
  evaluates a root `Cause` against a context. Evaluation is depth-first and
  memoised in a table that holds one of three states per cause: absent (not
  visited), `None` (under evaluation) or `Some(check)` (resolved). A loop
  makes a branch undeterminable. `Any` is "or" and `Every` is "and", and each
  drops the children that come back undeterminable. On failure,
  `prune_traversal` walks the final table with a work-list, and
  `produce_graph` builds a graph out of the reachable failing causes,
  returning the reachable passing causes separately.
- **The gossip bloom filter's bytes**
  (`crates/kitsune_p2p/kitsune_p2p/src/gossip/common.rs`). The encoding is a
  44-byte little-endian header (bit count, hash-function count, four sip
  keys) followed by the bitmap. The decoder reads the same offsets back. The
  filter's equality compares its four components.
- **stef's state combinators** (`crates/stef/src/combinators.rs`).
  `StoreEffects` queues the effect of every transition of a wrapped state
  machine until the queue is drained. `RunEffects` hands each effect to a
  runner function at once.

## Files

| file | module | contents |
|---|---|---|
| wrappers.dfy | Wrappers | `Option`, `Result` |
| cause.dfy | AitiaCause | `Cause`, `Check`, the `Fact` capability as a record of two functions, `Explains`, `Closed` |
| traverse.dfy | AitiaTraverse | the table, the spec functions `Eval`/`Visit`/`EvalList`, the `Any`/`Every` combination, coherence of the table, and the methods `TraverseInner`/`TraverseChildren` |
| graph_build.dfy | AitiaGraph | reachability along failures, `PruneTraversal`, `ProduceGraph` and its loops, `CausalGraph`, acyclicity |
| graph.dfy | Aitia | `Traversal`, `Traversal::fail`, `Traverse` |
| graph_semantics.dfy | AitiaSemantics | the outcome of each kind of cause, the decision theorem for loop-free universes, small scenarios |
| little_endian.dfy | LittleEndian | `u32`/`u64`/`byte`, `to_le_bytes`/`from_le_bytes` and their round trips |
| gossip_bloom.dfy | GossipBloom | `MetaOpKey`, `MetaOpData`, `BloomFilter`, equality, encoder, decoder, round trips, the short-input finding |
| stef_combinators.dfy | StefCombinators | `StoreEffects` and `RunEffects` as classes, the run of a state machine over actions, and its laws |

### How the model reads the source

- **Fact capability.** `crates/aitia/src/cause.rs` is not part of this model.
  `Cause`, `Check` and the `Fact` capability are defined from how `graph.rs`
  uses them. `check` and `cause` are functions of a fact and the context.
- **Termination.** `cause()` makes causes lazily, so the recursion of
  `traverse_inner` is not structural. Every entry point takes a ghost
  universe `u`: a finite set of causes closed under "is explained by". The
  evaluator always inserts its own cause before it recurses, so
  `|u - table.Keys|` falls at each recursive call.
- **Spec and code.** The evaluator's table is threaded through as a value,
  just as the `&mut HashMap` is threaded through the calls. `Eval` is the
  specification. `TraverseInner` is the imperative code, with the source's
  branches and early returns, and it is proved equal to `Eval`.
- **Coherence.** A table is *coherent* when some rank orders its resolved
  causes so that every cause in a failure list is resolved and ranked lower.
  Evaluation keeps the table coherent. This gives three things:
  - `table[&next]` in `prune_traversal` never misses;
  - the work-list loop terminates, since it falls in the number of failure
    trails still to walk;
  - the graph is a DAG.
- **Map order.** `produce_graph` walks a `HashMap`. The walk is modelled
  with a `:|` choice, so every proof holds for any order.
- **Graph representation.** The graph is a sequence of nodes, where the node
  index is the position, plus a sequence of index pairs.
- **Failing dead ends.** The doc comment on `traverse` (graph.rs:67-68) says
  that a path ending in a failing check is not added to the graph. The code
  keeps every reachable failing cause as a node, including a failing fact
  with no cause (graph.rs:188-193). The model follows the code, and
  `AitiaSemantics.LoneFailure` shows such a graph.
- **Looping branches are dropped.** A failing fact whose cause loops back is
  itself undeterminable (graph.rs:97-103, 118), and `Any`/`Every` drop it
  (graph.rs:151-154). So an `Every` can pass although one of its facts is
  false, and `traverse` then returns `Pass`, the outcome graph.rs:30 documents as the
  target being true. lib.rs:16 says such a branch is discarded, so the
  model keeps this behaviour; `AitiaSemantics.LoopDroppedFromEvery` shows it.

## Model

| member | source | states |
|---|---|---|
| AitiaTraverse.AnyCheck | crates/aitia/src/graph.rs:127-149 | `Any` over the surviving children is undeterminable iff none survived, passes iff some survivor passed, and otherwise fails listing exactly the survivors, all failing |
| AitiaTraverse.EveryCheck | crates/aitia/src/graph.rs:150-169 | `Every` is undeterminable iff none survived, passes iff all survivors passed, and otherwise fails listing every survivor (passing ones included), at least one failing |
| AitiaTraverse.Failing | crates/aitia/src/graph.rs:139-142 | the failing survivors: all of them iff every survivor failed, none iff every survivor passed |
| AitiaTraverse.Survivors | crates/aitia/src/graph.rs:162 | the causes of the survivors, position by position |
| AitiaTraverse.Eval | crates/aitia/src/graph.rs:85-108 | evaluation only adds entries and never changes an existing one; the table ends up mapping the cause to the returned value, so a resolved result is stored as `Some(check)` |
| AitiaTraverse.Visit | crates/aitia/src/graph.rs:110-173 | the evaluation of a cause once it is marked keeps every other existing entry, and records the cause's result |
| AitiaTraverse.EvalList | crates/aitia/src/graph.rs:128-131 | the `filter_map` over children: no more survivors than children, each survivor a child whose check is the one stored for it (which children survive is stated by `EvalListSurvivors`) |
| AitiaTraverse.EvalListSurvivors | crates/aitia/src/graph.rs:128-131 | every child ends up in the table, and the survivors are exactly the children the table resolves, in order and once per occurrence: a child is dropped iff its evaluation came back undeterminable |
| AitiaTraverse.TraverseInner | crates/aitia/src/graph.rs:85-174 | `traverse_inner` returns exactly the result and table of `Eval` |
| AitiaTraverse.TraverseChildren | crates/aitia/src/graph.rs:128-131 | the loop over a combinator's children returns exactly `EvalList` |
| AitiaTraverse.EmptyIsCoherent | crates/aitia/src/graph.rs:71 | the empty table a traversal starts from is coherent |
| AitiaTraverse.MarkKeepsCoherent | crates/aitia/src/graph.rs:92-96 | marking an absent cause as under evaluation keeps the table coherent |
| AitiaTraverse.ResolveKeepsCoherent | crates/aitia/src/graph.rs:171 | storing a check whose failure list names only resolved causes keeps the table coherent |
| AitiaTraverse.SurvivorsResolved | crates/aitia/src/graph.rs:128-131 | every surviving child is resolved in the table after the children are evaluated |
| AitiaTraverse.EvalKeepsCoherent | crates/aitia/src/graph.rs:171-173 | evaluation keeps the table coherent: every cause named in a `Fail` is a resolved key, ranked below the failure |
| AitiaTraverse.VisitKeepsCoherent | crates/aitia/src/graph.rs:110-173 | the same for a visit, by case on the cause |
| AitiaTraverse.EvalListKeepsCoherent | crates/aitia/src/graph.rs:128-131 | the same for the evaluation of a list of children |
| AitiaGraph.ReachAllIsReachable | crates/aitia/src/graph.rs:186-199 | the set the work-list closes over is exactly the causes reachable from the start along failure lists |
| AitiaGraph.ReachAllHasTrail | crates/aitia/src/graph.rs:188-193 | every cause the work-list meets lies at the end of a failure trail from a start cause |
| AitiaGraph.TrailIsReached | crates/aitia/src/graph.rs:188-193 | every cause at the end of a failure trail is met by the work-list |
| AitiaGraph.PruneTraversal | crates/aitia/src/graph.rs:180-201 | `sub` holds exactly the reachable failing causes, each mapped to its failure list; `passes` holds exactly the reachable passing causes; causes under evaluation are skipped; `table[&next]` never misses |
| AitiaGraph.KeysInSomeOrder | crates/aitia/src/graph.rs:211 | the rows are the keys of `sub`, each once, in an unspecified order |
| AitiaGraph.AddNodes | crates/aitia/src/graph.rs:212-217 | the nodes are the rows in order, and `nodemap` sends each row to its position, which is its node index |
| AitiaGraph.AddEdgesFrom | crates/aitia/src/graph.rs:220-224 | for one row, an edge to each cause in its list that is a node, and to no other |
| AitiaGraph.AddEdges | crates/aitia/src/graph.rs:219-225 | an edge (a, b) exists iff node b is in node a's failure list |
| AitiaGraph.ProduceGraph | crates/aitia/src/graph.rs:203-228 | the nodes are exactly the reachable failing causes, each once; the edges are exactly the failure-list links between two nodes; the passes are exactly the reachable passing causes |
| AitiaGraph.Nodes | crates/aitia/src/graph.rs:16-18 | `CausalGraph::nodes` is the set of node weights: every node is in it and it holds nothing else |
| AitiaGraph.PathDescends | crates/aitia/src/graph.rs:219-225 | along a path of the produced graph the rank of the cause strictly falls |
| AitiaGraph.ProducedIsAcyclic | crates/aitia/src/lib.rs:20 | the produced graph of a coherent table has no cycle |
| AitiaGraph.EdgeSetOfProduced | crates/aitia/src/graph.rs:219-225 | as pairs of causes, the edges are exactly the pairs of nodes where the second explains the first |
| AitiaGraph.ProducedShapeIsDetermined | crates/aitia/src/graph.rs:211-227 | whatever order the map walk picks, the node set, node count, edges between causes and passing causes are the same |
| Aitia.FailOf | crates/aitia/src/graph.rs:46-54 | `Traversal::fail` is `Some` exactly for `Fail`, carrying its graph and passes |
| Aitia.Traverse | crates/aitia/src/graph.rs:70-83 | root undeterminable gives `Groundless`, root pass gives `Pass`, root failure gives `Fail` with the graph produced from the final table, which is acyclic |
| Aitia.FailHasRootNode | crates/aitia/src/lib.rs:20 | on failure the root cause is a node of the graph |
| AitiaSemantics.EvalInProgress | crates/aitia/src/graph.rs:97-103 | meeting a cause under evaluation returns `None` and leaves the table unchanged |
| AitiaSemantics.EvalCachedIgnoresFacts | crates/aitia/src/graph.rs:104-107 | a resolved cause returns its cached check and the same table whatever `check`, `cause` and the context are, so they are not consulted |
| AitiaSemantics.FactOutcome | crates/aitia/src/graph.rs:111-125 | a fact: check true gives `Pass`; no cause gives `Fail([])`; cause `d` gives `Fail([d])` whatever `d` resolved to, and `None` iff `d` is undeterminable, in which case the fact stays marked as under evaluation |
| AitiaSemantics.AnyOutcome | crates/aitia/src/graph.rs:127-149 | `Any` from its evaluated children: `None` iff no child survived, `Pass` iff a survivor passed, otherwise `Fail` of all survivors, all failing |
| AitiaSemantics.EveryOutcome | crates/aitia/src/graph.rs:150-169 | `Every` from its evaluated children: `None` iff no child survived, `Pass` iff all survivors passed, otherwise `Fail` of all survivors |
| AitiaSemantics.HoldsIsValuation | crates/aitia/src/lib.rs:8-18 | the truth of causes by the logic of facts (`Any` as or, `Every` as and) obeys each cause's rule |
| AitiaSemantics.EvalDecides | crates/aitia/src/graph.rs:85-108 | in a loop-free universe without empty combinators, evaluation always decides a cause, its check passes iff the cause is true, and no new cause is left under evaluation |
| AitiaSemantics.VisitDecides | crates/aitia/src/graph.rs:110-173 | the same for the visit of a marked cause |
| AitiaSemantics.EvalListDecides | crates/aitia/src/graph.rs:128-131 | the same for every child of a combinator: all survive, with checks matching their truth |
| AitiaSemantics.TraverseDecides | crates/aitia/src/graph.rs:70-83 | in a loop-free universe without empty combinators, `traverse` is never `Groundless`, and it returns `Pass` iff the root is true |
| AitiaSemantics.SelfLoopIsGroundless | crates/aitia/src/graph.rs:97-103 | a failing fact whose cause is itself makes the traversal `Groundless` |
| AitiaSemantics.EmptyCombinatorIsGroundless | crates/aitia/src/graph.rs:133-137 | `Any([])` and `Every([])` make the traversal `Groundless`, though nothing loops |
| AitiaSemantics.LoneFailure | crates/aitia/src/graph.rs:121-124 | a failing fact with no cause gives `Fail` with that one node, no edge and no passes |
| AitiaSemantics.FailureWithPassingCause | crates/aitia/src/graph.rs:116-120 | a failing fact whose cause passes gives `Fail` with that fact as the only node, no edge, and exactly the cause among the passes |
| AitiaSemantics.LoopDroppedFromEvery | crates/aitia/src/graph.rs:150-169 | `Every([Fact(p), Fact(q)])`, with `p` passing and `q` failing because of that same `Every`, makes the traversal `Pass`: `q`'s looping branch is dropped |
| LittleEndian.FromLe | crates/kitsune_p2p/kitsune_p2p/src/gossip/common.rs:139-144 | the value of n bytes is below 256^n |
| LittleEndian.FromToLe | crates/kitsune_p2p/kitsune_p2p/src/gossip/common.rs:115-120 | reading back the little-endian bytes of a number gives the number |
| LittleEndian.ToFromLe | crates/kitsune_p2p/kitsune_p2p/src/gossip/common.rs:139-144 | writing out the value of some bytes gives the bytes |
| LittleEndian.ToLeInjective | crates/kitsune_p2p/kitsune_p2p/src/gossip/common.rs:115-120 | equal byte forms of one width come from equal numbers |
| LittleEndian.U64ToLe | crates/kitsune_p2p/kitsune_p2p/src/gossip/common.rs:115 | `u64::to_le_bytes` gives 8 bytes that read back as the number |
| LittleEndian.U32ToLe | crates/kitsune_p2p/kitsune_p2p/src/gossip/common.rs:116 | `u32::to_le_bytes` gives 4 bytes that read back as the number |
| LittleEndian.U64FromLe | crates/kitsune_p2p/kitsune_p2p/src/gossip/common.rs:139 | `u64::from_le_bytes` gives the number whose bytes are the input |
| LittleEndian.U32FromLe | crates/kitsune_p2p/kitsune_p2p/src/gossip/common.rs:140 | `u32::from_le_bytes` gives the number whose bytes are the input |
| GossipBloom.Eq | crates/kitsune_p2p/kitsune_p2p/src/gossip/common.rs:55-62 | two filters are equal iff bitmap, bit count, hash-function count and sip keys are all equal |
| GossipBloom.EqIsEquivalence | crates/kitsune_p2p/kitsune_p2p/src/gossip/common.rs:64 | the equality is reflexive, symmetric and transitive, as `Eq` claims |
| GossipBloom.Encoding | crates/kitsune_p2p/kitsune_p2p/src/gossip/common.rs:107-111 | the encoding is 44 bytes longer than the bitmap |
| GossipBloom.EncodeBloomFilter | crates/kitsune_p2p/kitsune_p2p/src/gossip/common.rs:93-124 | the appended buffer is the encoding, of length bitmap + 8 + 4 + 8*4 |
| GossipBloom.EncodingLayout | crates/kitsune_p2p/kitsune_p2p/src/gossip/common.rs:115-121 | bit count at 0..8, `k_num` at 8..12, k1..k4 at 12..20, 20..28, 28..36, 36..44, all little-endian, bitmap from 44 |
| GossipBloom.VisitBytes | crates/kitsune_p2p/kitsune_p2p/src/gossip/common.rs:135-152 | the decoder with its length check: an error iff fewer than 44 bytes, and every accepted input is the encoding of the filter it decodes to |
| GossipBloom.DecodeEncode | crates/kitsune_p2p/kitsune_p2p/src/gossip/common.rs:93-152 | decoding an encoding gives back the bit count, `k_num`, sip keys `[(k1,k2),(k3,k4)]` and bitmap |
| GossipBloom.EncodingInjective | crates/kitsune_p2p/kitsune_p2p/src/gossip/common.rs:93-124 | different filters never share an encoding |
| GossipBloom.VisitBytesAsWritten | crates/kitsune_p2p/kitsune_p2p/src/gossip/common.rs:135-152 | the decoder as written panics iff the input is shorter than 44 bytes, and otherwise agrees with `VisitBytes` |
| GossipBloom.ShortPayloadPanics | crates/kitsune_p2p/kitsune_p2p/src/gossip/common.rs:139-147 | a 43-byte input makes the decoder as written panic where the corrected one returns an error |
| StefCombinators.Run | crates/stef/src/combinators.rs:7-8 | a run of n actions produces n effects |
| StefCombinators.RunAppend | crates/stef/src/combinators.rs:27-30 | running `xs` and then `ys` equals running `xs + ys`, with the effects concatenated in order |
| StefCombinators.RunEffectAt | crates/stef/src/combinators.rs:7-8 | the i-th stored effect is the one the i-th action produced from the state the earlier actions reached |
| StefCombinators.StoreEffects.constructor | crates/stef/src/combinators.rs:35-40 | `new` keeps the state, ignores the capacity and starts with an empty queue |
| StefCombinators.StoreEffects.Transition | crates/stef/src/combinators.rs:27-30 | the wrapped state steps and exactly its effect joins the back of the queue; the queue stays the run of the actions since the last drain |
| StefCombinators.StoreEffects.Effects | crates/stef/src/combinators.rs:43-45 | the queue, read without change, holds the effects of the actions since the last drain, in production order |
| StefCombinators.StoreEffects.DrainEffects | crates/stef/src/combinators.rs:47-53 | returns every queued effect oldest first, leaves the queue empty and the wrapped state unchanged |
| StefCombinators.RunEffects.constructor | crates/stef/src/combinators.rs:97-105 | `new` keeps the state and the runner |
| StefCombinators.RunEffects.Initial | crates/stef/src/combinators.rs:76-82 | `initial` starts from the wrapped machine's default state and keeps the runner |
| StefCombinators.RunEffects.Update | crates/stef/src/combinators.rs:88-94 | the wrapped state steps and the result is the runner applied to its effect; nothing else changes |
| StefCombinators.RunAllIsStoreThenRun | crates/stef/src/combinators.rs:56-58 | running each effect at once ends in the same state as storing them, with one result per stored effect: the i-th result is the runner applied to the i-th stored effect |

## Left out

- `graph_easy` spawns an external process and does pipe I/O, so it is not modelled.
- The `tracing::` calls in `graph.rs` only log, so they are not modelled.
- petgraph is replaced by the sequence of nodes and edges described above.
- The `Default` impl of `CausalGraph` is only used as the start of `produce_graph`, which builds its sequences from empty.
- Aitia.Traverse, AitiaTraverse.TraverseInner: these require a finite universe of causes closed under `cause()`. The source has no such bound; on an infinite chain of fresh causes its recursion (graph.rs:118, 130) would not return.
- AitiaGraph.PruneTraversal: `passes` is specified as a set. With no visited set, a passing cause reached along two trails is pushed twice, and the multiplicity and order of `passes` are not modelled.
- AitiaGraph.ProduceGraph: the order of the nodes is whatever the `HashMap` walk gives, and the model leaves it unspecified. `ProducedShapeIsDetermined` states what does not depend on it.
- GossipBloom.Eq: `bit_vec()` is compared as the bitmap bytes. The `bloomfilter` crate's bit vector, its hashing and `Bloom::from_existing` are foreign code, so a filter is the record of its four components.
- The serde `Serializer`/`Deserializer` plumbing, `decode_bloom_filter`, `expecting` and `PoolBuf` are foreign code. The model works on the byte sequence that `serialize_bytes` receives and `visit_bytes` is given.
- `HowToConnect`, and the `proptest`/`arbitrary` impls in `common.rs`, are network handles and fuzzing support, so they are not modelled.
- `MetaOpKey`/`MetaOpData`: the hashes are byte sequences and `AgentInfoSigned` is a type parameter. Their derived traits are Dafny's structural equality.
- The `State` and `ParamState` traits (`crates/stef/src/lib.rs`) are not part of this model. A wrapped state machine is its transition function, and `partition` is the class's access to its own fields.
- `Act` (combinators.rs:18-21) is declared but not used by the wrappers, so it is a datatype only.
- StefCombinators.StoreEffects.Transition: the `()` effect it returns is not modelled.
- StefCombinators.StoreEffects.Valid: `#[deref_mut]` on the inner `state` (combinators.rs:10-14) lets a caller change the wrapped state outside `transition`. The model has no such access, and its invariant that the queue is the run of the actions since the last drain assumes that this never happens.
- StefCombinators.RunEffects.Initial: `S::default()` (combinators.rs:78) is a trait method the model has no access to, so the default state is an argument. `Initial` then differs from the unnamed constructor only in its name.

## Findings

| source | as written | input that shows it | evidently intended | confidence | as-written member | corrected member |
|---|---|---|---|---|---|---|
| crates/kitsune_p2p/kitsune_p2p/src/gossip/common.rs:139-151 | `visit_bytes` reads fixed offsets with `array_ref!` and slices `[44..]` with no length check, so a payload shorter than 44 bytes panics instead of returning the visitor's error `E` | any 43-byte payload, for instance 43 zero bytes | reject inputs shorter than the 44-byte header with a deserialisation error | not executed; medium — a peer can send such bytes, but the authors may treat the input as trusted | GossipBloom.VisitBytesAsWritten, GossipBloom.ShortPayloadPanics | GossipBloom.VisitBytes |
