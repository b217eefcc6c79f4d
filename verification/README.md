# Bitcoin transaction pager and graph merge engine, in Dafny

This project models two sequential pieces of a blockchain visualiser. Together
they turn out-of-order fragments of the Bitcoin chain into one consistent graph.

- **The transaction pager** (`AdaptorHelpers`). One transaction record (header
  fields, a list of inputs and a list of outputs) is split into pages of at
  most `pageSize` inputs and outputs together. Inputs and outputs share one
  combined index: inputs first, then outputs offset by the number of inputs.
  Every page is a copy of the record in which each entry outside the page's
  window gets the script `"DELETEME"`. A cleansing pass then removes every
  marked entry, restarting its scan from the front after each removal. The
  file also holds the lookup of the amount an address moves in a
  transaction, and the edge-id format.
- **The Bitcoin graph** (`CdmGraphBtc`). A graph owns a list of nodes
  (addresses and transactions) and a list of edges. `AddNode` appends a node,
  or merges it into the node with the same id. `AddEdge` rejects an edge whose
  source node is known and is not a transaction. Otherwise it appends the
  edge, or merges it into the edge that already joins the same two nodes in
  either direction. A merge only fills in what is unknown: 0 for counts, at
  most 0.000001 for amounts, and the empty string for text. Edge types are
  promoted in the order Unknown < Input, Output < Mixed. Amounts on an edge
  are filled only once the edge is Mixed. Edge numbers are cross-mapped when
  the incoming edge runs the other way.

Files:

- `Cdm.dfy` (module `Cdm`) holds the entity datatypes.
- `CdmGraphBtc.dfy` (module `BtcGraph`) holds the merge rules as functions
  with lemmas about them, and the graph as a class with `seq` fields whose
  methods are proved against those functions.
- `AdaptorHelpers.dfy` (module `Adaptors`) holds the pager. Its loops are
  methods proved against the functions `Pages` and `Live`; the lemmas say
  what those functions mean.

Where the design notes and the code disagree, the model follows the code:

- A transaction with no inputs and no outputs gives **no** page, not one
  page. The page count is `t / pageSize`, plus one when there is a remainder
  (`AdaptorHelpers.cs:105-110`).
- An entry is removed from a page when its combined index is `>= (pi + 1) * pageSize`,
  not `>` as the comment on `AdaptorHelpers.cs:131` says
  (`AdaptorHelpers.cs:143,151`).
- A candidate node whose type differs from the existing node's type is not
  rejected. It is merged, and the existing node's type decides which
  type-specific fields are filled (`CdmGraphBtc.cs:203,219`). The lemma
  `MergeNodeIgnoresCandidateType` states this.

`FindNodeAtEndOfEdge`, `FindNodeById` and `FindEdgeByNodeSourceAndTarget`
belong to the base class `CdmGraph`, which is not part of this model. They
get explicit contracts here, with these assumptions:

- The node lookup returns the first node with the id.
- The edge lookup matches an edge in either direction. The cross-mapping at
  `CdmGraphBtc.cs:117-154` only makes sense if it does.
- `FindNodeAtEndOfEdge(targetId, edgeId)` returns the node at the other end
  from `targetId`, that is, the source node. The model reads that end from
  the incoming edge itself rather than looking `edgeId` up among the graph's
  edges. With a lookup by id, an edge that is not yet in the graph would
  never be checked.

## Model

Source paths are relative to the repository root.

| member | source | states |
|---|---|---|
| Adaptors.GetLinkValueForAddress | Assets/B3d/Engine/Adaptors/Scripts/AdaptorHelpers.cs:46-77 | The result is the raw value / 100000 of the FIRST entry whose address is `addr`, and 0 when no entry has that address. This covers inputs (through `prev_out`) and outputs alike. |
| Adaptors.FormatEdgeId | Assets/B3d/Engine/Adaptors/Scripts/AdaptorHelpers.cs:40-44 | The id is laid out as the first item, `--`, the second item, `--`, then the edge type's name (`EdgeTypeName` gives the enum member's name); its length is the sum of those parts. |
| Adaptors.FormatEdgeIdDecodes | Assets/B3d/Engine/Adaptors/Scripts/AdaptorHelpers.cs:40-44 | An id `a--b--Type` can be read back: two ids built from ends of the same lengths are equal only when both ends and the edge type are equal. |
| Adaptors.Filter | Assets/B3d/Engine/Adaptors/Scripts/AdaptorHelpers.cs:184-239 | The filtered list is no longer than its input, and every element it holds satisfies the test. |
| Adaptors.FilterMembers | Assets/B3d/Engine/Adaptors/Scripts/AdaptorHelpers.cs:184-239 | An element is in the filtered list if and only if it is in the input and passes the test. |
| Adaptors.FilterConcat | Assets/B3d/Engine/Adaptors/Scripts/AdaptorHelpers.cs:184-239 | Filtering keeps order: filtering `a + b` is filtering `a` followed by filtering `b`. |
| Adaptors.FilterAll | Assets/B3d/Engine/Adaptors/Scripts/AdaptorHelpers.cs:194-213 | A list in which every element passes the test comes out unchanged. This is the case in which the scan stops. |
| Adaptors.FilterNone | Assets/B3d/Engine/Adaptors/Scripts/AdaptorHelpers.cs:138-156 | A list in which no element passes comes out empty. This is what happens to entries marked outside a page's window. |
| Adaptors.FilterRemoveDropped | Assets/B3d/Engine/Adaptors/Scripts/AdaptorHelpers.cs:203-208 | Removing one element that fails the test does not change the filtered result. This is what the cleansing loop preserves on each removal. |
| Adaptors.LiveOfMarked | Assets/B3d/Engine/Adaptors/Scripts/AdaptorHelpers.cs:138-164 | Marking every entry outside `[lo, hi)` and then cleansing leaves exactly the unmarked entries inside the window, in order. |
| Adaptors.PageCountIsCeiling | Assets/B3d/Engine/Adaptors/Scripts/AdaptorHelpers.cs:100-110 | The page count is the ceiling of `(#inputs + #outputs) / pageSize`: the pages' windows cover every entry, the last page's window holds at least one entry (the page itself may be empty when that entry was already marked), and there are zero pages exactly when there are no entries. |
| Adaptors.PageSlices | Assets/B3d/Engine/Adaptors/Scripts/AdaptorHelpers.cs:117-164 | Page `pi` holds the unmarked inputs at positions in `[pi*pageSize, (pi+1)*pageSize)` and the unmarked outputs whose position plus `#inputs` lies in that window. |
| Adaptors.PageBounded | Assets/B3d/Engine/Adaptors/Scripts/AdaptorHelpers.cs:138-164 | Every page holds at most `pageSize` inputs and outputs together. |
| Adaptors.PageContents | Assets/B3d/Engine/Adaptors/Scripts/AdaptorHelpers.cs:99-167 | A page has every header field of the transaction unchanged. Every entry it holds is an unchanged entry of the transaction whose script is not the placeholder. |
| Adaptors.PagesKeepHeader | Assets/B3d/Engine/Adaptors/Scripts/AdaptorHelpers.cs:117-168 | The same holds for every page in the list of pages. |
| Adaptors.ReassembleInputsPrefix | Assets/B3d/Engine/Adaptors/Scripts/AdaptorHelpers.cs:117-168 | The first `k` pages' inputs, concatenated, are the unmarked inputs at positions below `k*pageSize`, in order. |
| Adaptors.ReassembleOutsPrefix | Assets/B3d/Engine/Adaptors/Scripts/AdaptorHelpers.cs:117-168 | The first `k` pages' outputs, concatenated, are the unmarked outputs whose combined index is below `k*pageSize`, in order. |
| Adaptors.Reassembly | Assets/B3d/Engine/Adaptors/Scripts/AdaptorHelpers.cs:117-168 | All pages' inputs, concatenated in page order, are the original inputs in their original order less those already marked. The same holds for the outputs. |
| Adaptors.PagingExample | Assets/B3d/Engine/Adaptors/Scripts/AdaptorHelpers.cs:100-168 | 25 inputs and 15 outputs in pages of 20 give two pages: the first 20 inputs, then the last 5 inputs with all 15 outputs. |
| Adaptors.CleansedMarkedPage | Assets/B3d/Engine/Adaptors/Scripts/AdaptorHelpers.cs:134-164 | Cleansing the copy marked outside page `pi`'s window gives exactly page `pi`. |
| Adaptors.RemoveTheDeleteMeNodes | Assets/B3d/Engine/Adaptors/Scripts/AdaptorHelpers.cs:184-239 | The restarting scan terminates. The measure is the flag, then the list length, then the distance to the end. The result is the record with both lists filtered, in order, to entries whose script is not `"DELETEME"`; the header is unchanged. |
| Adaptors.MarkOutsidePage | Assets/B3d/Engine/Adaptors/Scripts/AdaptorHelpers.cs:134-161 | The marking pass writes the placeholder into exactly the entries whose combined index is `< lo` or `>= hi`; everything else is unchanged. Its warning branch is unreachable. |
| Adaptors.ConvertTxToPagedTx | Assets/B3d/Engine/Adaptors/Scripts/AdaptorHelpers.cs:88-179 | The result is the list of pages `0 .. PageCount-1` in increasing order, each page as `Page` defines it, and there are `ceil(total / pageSize)` of them. |
| BtcGraph.MergeNodeCommonFields | Assets/B3d/Engine/Cdm/Scripts/CdmGraphBtc.cs:190-200 | Id, type and date never change. The edge count is replaced exactly when it is 0, even by a 0. The value is filled only when it is unknown and the candidate's is known; a known value is never overwritten. |
| BtcGraph.MergeNodeAddressFields | Assets/B3d/Engine/Cdm/Scripts/CdmGraphBtc.cs:203-217 | For an existing address node, each balance is filled only when unknown from a known candidate balance, and the transaction fields stay. |
| BtcGraph.MergeNodeTransactionFields | Assets/B3d/Engine/Cdm/Scripts/CdmGraphBtc.cs:219-243 | For an existing transaction node: block height and in/out sizes fill only when 0 from a positive candidate value; the relay fills only when empty from a non-empty one; the address fields stay. |
| BtcGraph.MergeNodeIgnoresCandidateType | Assets/B3d/Engine/Cdm/Scripts/CdmGraphBtc.cs:203-219 | The candidate's node type plays no part: the type-specific fields are chosen by the existing node's type, and a mismatch is not rejected. |
| BtcGraph.MergeNodeIdempotent | Assets/B3d/Engine/Cdm/Scripts/CdmGraphBtc.cs:188-244 | Merging the same candidate twice gives the node that merging it once gives. |
| BtcGraph.MergeNodeSelf | Assets/B3d/Engine/Cdm/Scripts/CdmGraphBtc.cs:188-244 | Merging a node into itself changes nothing. |
| BtcGraph.PromoteIsJoin | Assets/B3d/Engine/Cdm/Scripts/CdmGraphBtc.cs:69-96 | The promoted type is the least upper bound of the two types in the order Unknown < Input, Output < Mixed. |
| BtcGraph.PromoteLaws | Assets/B3d/Engine/Cdm/Scripts/CdmGraphBtc.cs:69-96 | Unknown changes nothing and is taken over by any known type. Equal types stay. Distinct known types give Mixed. Promotion is commutative, associative and idempotent, and Mixed absorbs every type. |
| BtcGraph.MergeEdgeTypeAndValues | Assets/B3d/Engine/Cdm/Scripts/CdmGraphBtc.cs:69-111 | A merged edge keeps its id, source and target, and takes the promoted type. Its amounts change only when that type is Mixed, and then only to fill an unknown amount from the SAME-NAMED known candidate amount. |
| BtcGraph.MergeEdgeNumbers | Assets/B3d/Engine/Cdm/Scripts/CdmGraphBtc.cs:113-154 | A non-zero edge number never changes. A zero number takes the candidate's number for the same node when that number is positive, and stays 0 otherwise. The candidate's number is the same-named one when both edges start at the same node, and the crosswise one otherwise. |
| BtcGraph.MergeEdgeOppositeOrientation | Assets/B3d/Engine/Cdm/Scripts/CdmGraphBtc.cs:113-154 | Merging an edge seen from the opposite end fills the edge numbers exactly as merging the same edge turned round would. |
| BtcGraph.MergeEdgeIdempotent | Assets/B3d/Engine/Cdm/Scripts/CdmGraphBtc.cs:67-155 | Merging the same candidate edge twice gives the edge that merging it once gives. |
| BtcGraph.MergeEdgeSelf | Assets/B3d/Engine/Cdm/Scripts/CdmGraphBtc.cs:67-155 | Merging an edge into itself changes nothing. |
| BtcGraph.FindNodeById | Assets/B3d/Engine/Cdm/Scripts/CdmGraphBtc.cs:172 | The lookup returns the position of the first node with the id, and nothing exactly when no node has it. |
| BtcGraph.FindNodeByIdFirst | Assets/B3d/Engine/Cdm/Scripts/CdmGraphBtc.cs:172 | If position `k` holds the first node with the id, the lookup returns `k`. |
| BtcGraph.FindEdgeByNodeSourceAndTarget | Assets/B3d/Engine/Cdm/Scripts/CdmGraphBtc.cs:51 | The lookup returns the position of the first edge joining the two ids in either direction, and nothing exactly when no edge joins them. |
| BtcGraph.FindEdgeFirst | Assets/B3d/Engine/Cdm/Scripts/CdmGraphBtc.cs:51 | If position `k` holds the first edge joining the two ids, the lookup returns `k`. |
| BtcGraph.FindNodeAtEndOfEdge | Assets/B3d/Engine/Cdm/Scripts/CdmGraphBtc.cs:39 | The result is a node of the graph with the id at the edge's other end, and is absent exactly when the graph has no such node. |
| BtcGraph.SourceRejectedMeaning | Assets/B3d/Engine/Cdm/Scripts/CdmGraphBtc.cs:39-48 | With unique node ids, the data-quality check rejects an edge exactly when the graph holds a node with the edge's source id and that node is not a transaction. |
| BtcGraph.AddNodeResult | Assets/B3d/Engine/Cdm/Scripts/CdmGraphBtc.cs:161-183 | If no node has the candidate's id, the candidate is appended at the end. Otherwise the list keeps its length and order, and only the node with that id changes, by merge. Either way ids stay pairwise distinct and the id is then present. |
| BtcGraph.AddNodeIdempotent | Assets/B3d/Engine/Cdm/Scripts/CdmGraphBtc.cs:161-183 | Adding the same node twice leaves the node list as adding it once. |
| BtcGraph.AddEdgeResult | Assets/B3d/Engine/Cdm/Scripts/CdmGraphBtc.cs:28-62 | A rejected edge leaves the edges unchanged. Otherwise the edge is appended if no edge joins its ends. If one does, the list keeps its length and order, and only that edge changes, by merge, keeping its id and first-seen direction. Either way there stays at most one edge per pair. |
| BtcGraph.AddEdgeIdempotent | Assets/B3d/Engine/Cdm/Scripts/CdmGraphBtc.cs:28-62 | Adding the same edge twice leaves the edge list as adding it once. |
| BtcGraph.CdmGraphBtc.AddNode | Assets/B3d/Engine/Cdm/Scripts/CdmGraphBtc.cs:161-183 | Keeps the graph invariant (unique node ids, one edge per pair) and leaves the edges alone. The new node list is the one `NodesAfterAdd` describes. |
| BtcGraph.CdmGraphBtc.MergeExistingNode | Assets/B3d/Engine/Cdm/Scripts/CdmGraphBtc.cs:188-244 | The guarded in-place updates turn node `k` into `MergedNode(candidate, node k)`. Nothing else in the graph changes. |
| BtcGraph.CdmGraphBtc.AddEdge | Assets/B3d/Engine/Cdm/Scripts/CdmGraphBtc.cs:28-62 | Keeps the graph invariant and leaves the nodes alone. The new edge list is the one `EdgesAfterAdd` describes: rejected, appended, or merged. |
| BtcGraph.CdmGraphBtc.MergeExistingEdge | Assets/B3d/Engine/Cdm/Scripts/CdmGraphBtc.cs:67-155 | The guarded in-place updates turn edge `k` into `MergedEdge(candidate, edge k)`. Nothing else in the graph changes. |

## Left out

- `UnixTimeStampToDateTime`: a date-library call and a local-time conversion, with no logic of its own.
- `TestStr`: a demonstration of the JSON builder, with no logic.
- `FormatEdgeIdFriendly`: it depends on the quoting done by the JSON library's `ToString`, which is not part of this model.
- The JSON library: parsing, printing, indexers and `Remove`. A transaction is a datatype with sequences of entries. The parse of the printed master record becomes plain value copying. The in-place `Remove` on the page copy becomes a method that returns the cleansed copy.
- Adaptors.ConvertTxToPagedTx: the marking loop is the separate method `MarkOutsidePage`, called once per page. The computation is the same; the split only keeps each proof small.
- Logging and the `deepLogging` output are left out; error paths return without changing anything.
- The runtime downcasts to the Bitcoin node and edge classes are left out. The model has one node type and one edge type, so the cast-failure branches cannot occur.
- The bodies of `FindNodeById`, `FindEdgeByNodeSourceAndTarget` and `FindNodeAtEndOfEdge`: they are not part of this model. They are given by the contracts and assumptions above.
- Floating point: amounts and the 0.000001 threshold are exact `real`s, so single-precision rounding is not modelled.
- Adaptors.GetLinkValueForAddress: the `/ 100000` scaling is exact division, without rounding to `float`.
- Adaptors.ConvertTxToPagedTx: `pageSize >= 1` is required, so the model says nothing about other page sizes. A page size of 0 makes the program divide by zero.
  - With a negative page size, C#'s truncating `/` and `%` make `loops` at most 0, and the program returns an empty list.
  - The exception is a total of entries strictly between 0 and `|pageSize|`: then `loops` is 1, every entry lies at or above the negative window end and is marked, and the program returns one page with no inputs and no outputs.
  - The 32-bit overflow of `pi * pageSize` on huge inputs is not modelled.
- Aliasing: nodes and edges are values in the graph's lists. A caller that kept a reference to a node object and saw it change after a merge is not modelled.
- A null `RelayedBy` is modelled as the empty string, which the merge treats the same way.
- Header fields of a transaction beyond hash, time, block height, relay and the in/out counts are not modelled. Pages copy every header field unchanged, so nothing that holds of these fields is lost.
- Address comparison in `GetLinkValueFor…` is plain string equality. The JSON library's node-to-string comparison is taken to be that.
