/**
 * The Bitcoin graph merge engine: a graph that owns a list of nodes and a
 * list of edges, and that either appends an incoming node or edge or merges
 * it into the one it already holds under the same identity.
 *
 * Identity of a node is its id; identity of an edge is its unordered pair of
 * end ids. A merge only ever fills in what is unknown: a known value is
 * never overwritten.
 */
module BtcGraph {
  import opened Cdm

  // ---------------------------------------------------------------------
  // Fill rules: "unknown" is 0 for counts, at most FSmall for amounts and
  // the empty string for text.
  // ---------------------------------------------------------------------

  predicate AmountKnown(x: real) { x > FSmall }

  /** An unknown amount takes a known candidate amount; otherwise it stays. */
  function FillAmount(existing: real, candidate: real): real {
    if existing <= FSmall && candidate > FSmall then candidate else existing
  }

  /** A zero count takes a positive candidate count; otherwise it stays. */
  function FillCount(existing: int, candidate: int): int {
    if existing == 0 && candidate > 0 then candidate else existing
  }

  /** An empty text takes a non-empty candidate text; otherwise it stays. */
  function FillText(existing: string, candidate: string): string {
    if existing == "" && candidate != "" then candidate else existing
  }

  // ---------------------------------------------------------------------
  // Node merge
  // ---------------------------------------------------------------------

  /**
   * The node that MergeExistingNode makes of nbExisting when nbNew arrives
   * with the same id. Which type-specific fields merge is decided by the
   * EXISTING node's type; the candidate's type is not looked at.
   */
  function MergedNode(nbNew: CdmNodeBtc, nbExisting: CdmNodeBtc): CdmNodeBtc {
    var common := nbExisting.(
      nodeEdgeCountTotal :=
        if nbExisting.nodeEdgeCountTotal == 0 then nbNew.nodeEdgeCountTotal else nbExisting.nodeEdgeCountTotal,
      value := FillAmount(nbExisting.value, nbNew.value));
    match nbExisting.nodeType
    case Addr =>
      common.(
        finalBalance := FillAmount(nbExisting.finalBalance, nbNew.finalBalance),
        totalReceived := FillAmount(nbExisting.totalReceived, nbNew.totalReceived),
        totalSent := FillAmount(nbExisting.totalSent, nbNew.totalSent))
    case Tx =>
      common.(
        blockHeight := FillCount(nbExisting.blockHeight, nbNew.blockHeight),
        relayedBy := FillText(nbExisting.relayedBy, nbNew.relayedBy),
        voutSize := FillCount(nbExisting.voutSize, nbNew.voutSize),
        vinSize := FillCount(nbExisting.vinSize, nbNew.vinSize))
  }

  /**
   * Fields every node has. The edge count is replaced exactly when it is 0,
   * even by a candidate count of 0; the value is filled only from a known
   * candidate value and a known value is never overwritten. Id, type and date
   * never change.
   */
  lemma MergeNodeCommonFields(c: CdmNodeBtc, e: CdmNodeBtc)
    ensures MergedNode(c, e).nodeId == e.nodeId
    ensures MergedNode(c, e).nodeType == e.nodeType
    ensures MergedNode(c, e).date == e.date
    ensures e.nodeEdgeCountTotal == 0 ==> MergedNode(c, e).nodeEdgeCountTotal == c.nodeEdgeCountTotal
    ensures e.nodeEdgeCountTotal != 0 ==> MergedNode(c, e).nodeEdgeCountTotal == e.nodeEdgeCountTotal
    ensures AmountKnown(e.value) || !AmountKnown(c.value) ==> MergedNode(c, e).value == e.value
    ensures !AmountKnown(e.value) && AmountKnown(c.value) ==> MergedNode(c, e).value == c.value
  {
  }

  /**
   * An existing address node fills each of its balances only when it is
   * unknown and the candidate's is known; its transaction fields stay.
   */
  lemma MergeNodeAddressFields(c: CdmNodeBtc, e: CdmNodeBtc)
    requires e.nodeType == Addr
    ensures var m := MergedNode(c, e);
      && (AmountKnown(e.finalBalance) || !AmountKnown(c.finalBalance) ==> m.finalBalance == e.finalBalance)
      && (!AmountKnown(e.finalBalance) && AmountKnown(c.finalBalance) ==> m.finalBalance == c.finalBalance)
      && (AmountKnown(e.totalReceived) || !AmountKnown(c.totalReceived) ==> m.totalReceived == e.totalReceived)
      && (!AmountKnown(e.totalReceived) && AmountKnown(c.totalReceived) ==> m.totalReceived == c.totalReceived)
      && (AmountKnown(e.totalSent) || !AmountKnown(c.totalSent) ==> m.totalSent == e.totalSent)
      && (!AmountKnown(e.totalSent) && AmountKnown(c.totalSent) ==> m.totalSent == c.totalSent)
      && m.blockHeight == e.blockHeight && m.relayedBy == e.relayedBy
      && m.voutSize == e.voutSize && m.vinSize == e.vinSize
  {
  }

  /**
   * An existing transaction node fills its block height and in/out sizes only
   * when they are 0 and the candidate's are positive, and its relay only when
   * it is empty and the candidate's is not; its address fields stay.
   */
  lemma MergeNodeTransactionFields(c: CdmNodeBtc, e: CdmNodeBtc)
    requires e.nodeType == Tx
    ensures var m := MergedNode(c, e);
      && (e.blockHeight != 0 || c.blockHeight <= 0 ==> m.blockHeight == e.blockHeight)
      && (e.blockHeight == 0 && c.blockHeight > 0 ==> m.blockHeight == c.blockHeight)
      && (e.relayedBy != "" || c.relayedBy == "" ==> m.relayedBy == e.relayedBy)
      && (e.relayedBy == "" && c.relayedBy != "" ==> m.relayedBy == c.relayedBy)
      && (e.voutSize != 0 || c.voutSize <= 0 ==> m.voutSize == e.voutSize)
      && (e.voutSize == 0 && c.voutSize > 0 ==> m.voutSize == c.voutSize)
      && (e.vinSize != 0 || c.vinSize <= 0 ==> m.vinSize == e.vinSize)
      && (e.vinSize == 0 && c.vinSize > 0 ==> m.vinSize == c.vinSize)
      && m.finalBalance == e.finalBalance && m.totalReceived == e.totalReceived
      && m.totalSent == e.totalSent
  {
  }

  /** The candidate's node type plays no part in a merge: a type mismatch is not rejected. */
  lemma MergeNodeIgnoresCandidateType(c: CdmNodeBtc, e: CdmNodeBtc, t: NodeType)
    ensures MergedNode(c.(nodeType := t), e) == MergedNode(c, e)
  {
  }

  /** Merging the same candidate twice leaves the node as merging it once. */
  lemma MergeNodeIdempotent(c: CdmNodeBtc, e: CdmNodeBtc)
    ensures MergedNode(c, MergedNode(c, e)) == MergedNode(c, e)
  {
  }

  /** Merging a node into itself changes nothing. */
  lemma MergeNodeSelf(n: CdmNodeBtc)
    ensures MergedNode(n, n) == n
  {
  }

  // ---------------------------------------------------------------------
  // Edge type promotion
  // ---------------------------------------------------------------------

  /** The edge type MergeExistingEdge gives the existing edge when an edge of type incoming arrives. */
  function PromoteEdgeType(existing: EdgeType, incoming: EdgeType): EdgeType {
    if incoming != existing then
      if incoming == Unknown then existing
      else if existing == Unknown then incoming
      else if existing == incoming then existing
      else Mixed
    else existing
  }

  /** How much an edge type tells: Unknown tells least, Mixed most, Input and Output are incomparable. */
  predicate EdgeTypeLe(a: EdgeType, b: EdgeType) {
    a == b || a == Unknown || b == Mixed
  }

  /** Promotion is the least upper bound of the two types in that order. */
  lemma PromoteIsJoin(a: EdgeType, b: EdgeType)
    ensures EdgeTypeLe(a, PromoteEdgeType(a, b)) && EdgeTypeLe(b, PromoteEdgeType(a, b))
    ensures forall u :: EdgeTypeLe(a, u) && EdgeTypeLe(b, u) ==> EdgeTypeLe(PromoteEdgeType(a, b), u)
  {
  }

  /**
   * Unknown changes nothing and is taken over by any known type, equal types
   * stay, different known types give Mixed; so promotion is commutative,
   * associative and idempotent, and Mixed absorbs everything.
   */
  lemma PromoteLaws(a: EdgeType, b: EdgeType, c: EdgeType)
    ensures PromoteEdgeType(a, Unknown) == a && PromoteEdgeType(Unknown, a) == a
    ensures PromoteEdgeType(a, a) == a
    ensures a != Unknown && b != Unknown && a != b ==> PromoteEdgeType(a, b) == Mixed
    ensures PromoteEdgeType(a, b) == PromoteEdgeType(b, a)
    ensures PromoteEdgeType(PromoteEdgeType(a, b), c) == PromoteEdgeType(a, PromoteEdgeType(b, c))
    ensures PromoteEdgeType(a, Mixed) == Mixed && PromoteEdgeType(Mixed, a) == Mixed
  {
  }

  // ---------------------------------------------------------------------
  // Edge merge
  // ---------------------------------------------------------------------

  /**
   * The edge that MergeExistingEdge makes of ebExisting when ebNew arrives for
   * the same pair of ends. Amounts are touched only once the promoted type is
   * Mixed and are taken from the same-named candidate field. Edge numbers are
   * taken from the candidate as is when both edges start at the same node, and
   * crosswise (candidate target number for existing source number and vice
   * versa) when the candidate runs the other way.
   */
  function MergedEdge(ebNew: CdmEdgeBtc, ebExisting: CdmEdgeBtc): CdmEdgeBtc {
    var t := PromoteEdgeType(ebExisting.edgeType, ebNew.edgeType);
    var sameWay := ebNew.nodeSourceId == ebExisting.nodeSourceId;
    ebExisting.(
      edgeType := t,
      valueInSource :=
        if t == Mixed then FillAmount(ebExisting.valueInSource, ebNew.valueInSource) else ebExisting.valueInSource,
      valueInTarget :=
        if t == Mixed then FillAmount(ebExisting.valueInTarget, ebNew.valueInTarget) else ebExisting.valueInTarget,
      edgeNumberInSource :=
        FillCount(ebExisting.edgeNumberInSource, if sameWay then ebNew.edgeNumberInSource else ebNew.edgeNumberInTarget),
      edgeNumberInTarget :=
        FillCount(ebExisting.edgeNumberInTarget, if sameWay then ebNew.edgeNumberInTarget else ebNew.edgeNumberInSource))
  }

  /**
   * A merged edge keeps its id and its first-seen direction, takes the promoted
   * type, and changes its amounts only when that type is Mixed, and then only
   * to fill an unknown amount from the same-named known candidate amount.
   */
  lemma MergeEdgeTypeAndValues(c: CdmEdgeBtc, e: CdmEdgeBtc)
    ensures var m := MergedEdge(c, e);
      && m.edgeId == e.edgeId && m.nodeSourceId == e.nodeSourceId && m.nodeTargetId == e.nodeTargetId
      && m.edgeType == PromoteEdgeType(e.edgeType, c.edgeType)
      && (m.edgeType != Mixed ==> m.valueInSource == e.valueInSource && m.valueInTarget == e.valueInTarget)
      && (AmountKnown(e.valueInSource) || !AmountKnown(c.valueInSource) ==> m.valueInSource == e.valueInSource)
      && (AmountKnown(e.valueInTarget) || !AmountKnown(c.valueInTarget) ==> m.valueInTarget == e.valueInTarget)
      && (m.edgeType == Mixed && !AmountKnown(e.valueInSource) && AmountKnown(c.valueInSource) ==>
            m.valueInSource == c.valueInSource)
      && (m.edgeType == Mixed && !AmountKnown(e.valueInTarget) && AmountKnown(c.valueInTarget) ==>
            m.valueInTarget == c.valueInTarget)
  {
  }

  /**
   * Edge numbers: a non-zero number never changes; a zero number takes the
   * positive number the candidate records for the same node, which is the
   * same-named number when the candidate starts at the same node and the
   * other one when it runs the other way, and stays 0 when that number is
   * not positive.
   */
  lemma MergeEdgeNumbers(c: CdmEdgeBtc, e: CdmEdgeBtc)
    ensures var m := MergedEdge(c, e);
      && (e.edgeNumberInSource != 0 ==> m.edgeNumberInSource == e.edgeNumberInSource)
      && (e.edgeNumberInTarget != 0 ==> m.edgeNumberInTarget == e.edgeNumberInTarget)
      && (c.nodeSourceId == e.nodeSourceId ==>
            (e.edgeNumberInSource == 0 && c.edgeNumberInSource > 0 ==> m.edgeNumberInSource == c.edgeNumberInSource)
            && (e.edgeNumberInTarget == 0 && c.edgeNumberInTarget > 0 ==> m.edgeNumberInTarget == c.edgeNumberInTarget))
      && (c.nodeSourceId != e.nodeSourceId ==>
            (e.edgeNumberInSource == 0 && c.edgeNumberInTarget > 0 ==> m.edgeNumberInSource == c.edgeNumberInTarget)
            && (e.edgeNumberInTarget == 0 && c.edgeNumberInSource > 0 ==> m.edgeNumberInTarget == c.edgeNumberInSource))
      && ((e.edgeNumberInSource == 0
           && (if c.nodeSourceId == e.nodeSourceId then c.edgeNumberInSource else c.edgeNumberInTarget) <= 0)
          ==> m.edgeNumberInSource == 0)
      && ((e.edgeNumberInTarget == 0
           && (if c.nodeSourceId == e.nodeSourceId then c.edgeNumberInTarget else c.edgeNumberInSource) <= 0)
          ==> m.edgeNumberInTarget == 0)
  {
  }

  /** The same edge written the other way round: ends and edge numbers swapped. */
  function Reversed(e: CdmEdgeBtc): CdmEdgeBtc {
    e.(nodeSourceId := e.nodeTargetId, nodeTargetId := e.nodeSourceId,
       edgeNumberInSource := e.edgeNumberInTarget, edgeNumberInTarget := e.edgeNumberInSource)
  }

  /**
   * Cross-mapping is right: an edge observed from the opposite end fills the
   * edge numbers exactly as the same observation written the existing way
   * round would.
   */
  lemma MergeEdgeOppositeOrientation(c: CdmEdgeBtc, e: CdmEdgeBtc)
    requires c.nodeSourceId == e.nodeTargetId && c.nodeTargetId == e.nodeSourceId
    requires e.nodeSourceId != e.nodeTargetId
    ensures MergedEdge(c, e).edgeNumberInSource == MergedEdge(Reversed(c), e).edgeNumberInSource
    ensures MergedEdge(c, e).edgeNumberInTarget == MergedEdge(Reversed(c), e).edgeNumberInTarget
  {
  }

  /** Merging the same candidate edge twice leaves the edge as merging it once. */
  lemma MergeEdgeIdempotent(c: CdmEdgeBtc, e: CdmEdgeBtc)
    ensures MergedEdge(c, MergedEdge(c, e)) == MergedEdge(c, e)
  {
  }

  /** Merging an edge into itself changes nothing. */
  lemma MergeEdgeSelf(e: CdmEdgeBtc)
    ensures MergedEdge(e, e) == e
  {
  }

  // ---------------------------------------------------------------------
  // Identity and lookup
  // ---------------------------------------------------------------------

  predicate HasNode(nodes: seq<CdmNodeBtc>, id: string) {
    exists k :: 0 <= k < |nodes| && nodes[k].nodeId == id
  }

  /** No two nodes share an id. */
  predicate UniqueNodeIds(nodes: seq<CdmNodeBtc>) {
    forall i, j :: 0 <= i < j < |nodes| ==> nodes[i].nodeId != nodes[j].nodeId
  }

  /** Edge e joins the nodes s and t, in either direction. */
  predicate Links(e: CdmEdgeBtc, s: string, t: string) {
    (e.nodeSourceId == s && e.nodeTargetId == t) || (e.nodeSourceId == t && e.nodeTargetId == s)
  }

  predicate HasEdge(edges: seq<CdmEdgeBtc>, s: string, t: string) {
    exists k :: 0 <= k < |edges| && Links(edges[k], s, t)
  }

  /** At most one edge per unordered pair of ends. */
  predicate OneEdgePerPair(edges: seq<CdmEdgeBtc>) {
    forall i, j :: 0 <= i < j < |edges| ==> !Links(edges[j], edges[i].nodeSourceId, edges[i].nodeTargetId)
  }

  /** The position of the first node with the given id, if there is one. */
  function FindNodeById(nodes: seq<CdmNodeBtc>, id: string): (r: Option<nat>)
    ensures r.Some? ==> r.value < |nodes| && nodes[r.value].nodeId == id
    ensures r.Some? ==> forall j :: 0 <= j < r.value ==> nodes[j].nodeId != id
    ensures r.None? <==> !HasNode(nodes, id)
  {
    if |nodes| == 0 then None
    else if nodes[0].nodeId == id then Some(0)
    else
      match FindNodeById(nodes[1..], id)
      case None => assert forall k :: 1 <= k < |nodes| ==> nodes[k] == nodes[1..][k - 1]; None
      case Some(k) => Some(k + 1)
  }

  /** The position of the first edge joining s and t in either direction, if there is one. */
  function FindEdgeByNodeSourceAndTarget(edges: seq<CdmEdgeBtc>, s: string, t: string): (r: Option<nat>)
    ensures r.Some? ==> r.value < |edges| && Links(edges[r.value], s, t)
    ensures r.Some? ==> forall j :: 0 <= j < r.value ==> !Links(edges[j], s, t)
    ensures r.None? <==> !HasEdge(edges, s, t)
  {
    if |edges| == 0 then None
    else if Links(edges[0], s, t) then Some(0)
    else
      match FindEdgeByNodeSourceAndTarget(edges[1..], s, t)
      case None => assert forall k :: 1 <= k < |edges| ==> edges[k] == edges[1..][k - 1]; None
      case Some(k) => Some(k + 1)
  }

  /** The lookup finds the first node with the id. */
  lemma FindNodeByIdFirst(nodes: seq<CdmNodeBtc>, id: string, k: nat)
    requires k < |nodes| && nodes[k].nodeId == id
    requires forall j :: 0 <= j < k ==> nodes[j].nodeId != id
    ensures FindNodeById(nodes, id) == Some(k)
  {
  }

  /** The lookup finds the first edge joining the two ends. */
  lemma FindEdgeFirst(edges: seq<CdmEdgeBtc>, s: string, t: string, k: nat)
    requires k < |edges| && Links(edges[k], s, t)
    requires forall j :: 0 <= j < k ==> !Links(edges[j], s, t)
    ensures FindEdgeByNodeSourceAndTarget(edges, s, t) == Some(k)
  {
  }

  /** The id at the end of e that is not the end nodeId (the source end when nodeId is the target). */
  function OtherEnd(e: CdmEdgeBtc, nodeId: string): string {
    if e.nodeTargetId == nodeId then e.nodeSourceId else e.nodeTargetId
  }

  /** The node, if the graph holds it, at the end of e away from nodeId. */
  function FindNodeAtEndOfEdge(nodes: seq<CdmNodeBtc>, nodeId: string, e: CdmEdgeBtc): (r: Option<CdmNodeBtc>)
    ensures r.Some? ==> r.value in nodes && r.value.nodeId == OtherEnd(e, nodeId)
    ensures r.None? <==> !HasNode(nodes, OtherEnd(e, nodeId))
  {
    match FindNodeById(nodes, OtherEnd(e, nodeId))
    case None => None
    case Some(k) => Some(nodes[k])
  }

  /** AddEdge's data-quality check: the node at the source end is known and is not a transaction. */
  predicate SourceRejected(nodes: seq<CdmNodeBtc>, e: CdmEdgeBtc) {
    match FindNodeAtEndOfEdge(nodes, e.nodeTargetId, e)
    case Some(n) => n.nodeType != Tx
    case None => false
  }

  /**
   * With unique node ids the check rejects exactly when some node of the
   * graph has the edge's source id and is not a transaction.
   */
  lemma SourceRejectedMeaning(nodes: seq<CdmNodeBtc>, e: CdmEdgeBtc)
    requires UniqueNodeIds(nodes)
    ensures SourceRejected(nodes, e) <==>
      exists k :: 0 <= k < |nodes| && nodes[k].nodeId == e.nodeSourceId && nodes[k].nodeType != Tx
  {
    match FindNodeById(nodes, e.nodeSourceId)
    case None =>
    case Some(k) =>
      assert forall j :: 0 <= j < |nodes| && nodes[j].nodeId == e.nodeSourceId ==> j == k;
  }

  // ---------------------------------------------------------------------
  // The node and edge lists after one AddNode / AddEdge
  // ---------------------------------------------------------------------

  /** The node list after AddNode(n). */
  function NodesAfterAdd(nodes: seq<CdmNodeBtc>, n: CdmNodeBtc): seq<CdmNodeBtc> {
    match FindNodeById(nodes, n.nodeId)
    case None => nodes + [n]
    case Some(k) => nodes[k := MergedNode(n, nodes[k])]
  }

  /** The edge list after AddEdge(e), given the node list at that time. */
  function EdgesAfterAdd(nodes: seq<CdmNodeBtc>, edges: seq<CdmEdgeBtc>, e: CdmEdgeBtc): seq<CdmEdgeBtc> {
    if SourceRejected(nodes, e) then edges
    else
      match FindEdgeByNodeSourceAndTarget(edges, e.nodeSourceId, e.nodeTargetId)
      case None => edges + [e]
      case Some(k) => edges[k := MergedEdge(e, edges[k])]
  }

  /**
   * AddNode appends the candidate iff no node has its id; otherwise the list
   * keeps its length and order and only the node with that id changes, by
   * merge. Either way ids stay unique and the id is then present.
   */
  lemma AddNodeResult(nodes: seq<CdmNodeBtc>, n: CdmNodeBtc)
    requires UniqueNodeIds(nodes)
    ensures UniqueNodeIds(NodesAfterAdd(nodes, n))
    ensures HasNode(NodesAfterAdd(nodes, n), n.nodeId)
    ensures !HasNode(nodes, n.nodeId) ==> NodesAfterAdd(nodes, n) == nodes + [n]
    ensures HasNode(nodes, n.nodeId) ==>
      && |NodesAfterAdd(nodes, n)| == |nodes|
      && forall j :: 0 <= j < |nodes| ==>
           NodesAfterAdd(nodes, n)[j] == if nodes[j].nodeId == n.nodeId then MergedNode(n, nodes[j]) else nodes[j]
  {
    var r := NodesAfterAdd(nodes, n);
    match FindNodeById(nodes, n.nodeId)
    case None =>
      assert r[|nodes|] == n;
    case Some(k) =>
      MergeNodeCommonFields(n, nodes[k]);
      assert r[k].nodeId == n.nodeId;
  }

  /** Adding the same node twice leaves the node list as adding it once. */
  lemma AddNodeIdempotent(nodes: seq<CdmNodeBtc>, n: CdmNodeBtc)
    requires UniqueNodeIds(nodes)
    ensures NodesAfterAdd(NodesAfterAdd(nodes, n), n) == NodesAfterAdd(nodes, n)
  {
    var r := NodesAfterAdd(nodes, n);
    match FindNodeById(nodes, n.nodeId)
    case None =>
      FindNodeByIdFirst(r, n.nodeId, |nodes|);
      MergeNodeSelf(n);
    case Some(k) =>
      MergeNodeCommonFields(n, nodes[k]);
      FindNodeByIdFirst(r, n.nodeId, k);
      MergeNodeIdempotent(n, nodes[k]);
  }

  /**
   * AddEdge leaves the edges alone when the source check rejects the edge;
   * otherwise it appends the edge iff no edge joins its two ends, and if one
   * does, the list keeps its length and order and only that edge changes, by
   * merge, keeping its id and first-seen direction. Either way there stays at
   * most one edge per pair.
   */
  lemma AddEdgeResult(nodes: seq<CdmNodeBtc>, edges: seq<CdmEdgeBtc>, e: CdmEdgeBtc)
    requires OneEdgePerPair(edges)
    ensures OneEdgePerPair(EdgesAfterAdd(nodes, edges, e))
    ensures SourceRejected(nodes, e) ==> EdgesAfterAdd(nodes, edges, e) == edges
    ensures !SourceRejected(nodes, e) ==> HasEdge(EdgesAfterAdd(nodes, edges, e), e.nodeSourceId, e.nodeTargetId)
    ensures !SourceRejected(nodes, e) && !HasEdge(edges, e.nodeSourceId, e.nodeTargetId) ==>
      EdgesAfterAdd(nodes, edges, e) == edges + [e]
    ensures HasEdge(edges, e.nodeSourceId, e.nodeTargetId) ==>
      && |EdgesAfterAdd(nodes, edges, e)| == |edges|
      && forall j :: 0 <= j < |edges| ==>
           && EdgesAfterAdd(nodes, edges, e)[j].edgeId == edges[j].edgeId
           && EdgesAfterAdd(nodes, edges, e)[j].nodeSourceId == edges[j].nodeSourceId
           && EdgesAfterAdd(nodes, edges, e)[j].nodeTargetId == edges[j].nodeTargetId
           && (!SourceRejected(nodes, e) && Links(edges[j], e.nodeSourceId, e.nodeTargetId) ==>
                 EdgesAfterAdd(nodes, edges, e)[j] == MergedEdge(e, edges[j]))
           && (!Links(edges[j], e.nodeSourceId, e.nodeTargetId) ==> EdgesAfterAdd(nodes, edges, e)[j] == edges[j])
  {
    var r := EdgesAfterAdd(nodes, edges, e);
    if !SourceRejected(nodes, e) {
      match FindEdgeByNodeSourceAndTarget(edges, e.nodeSourceId, e.nodeTargetId)
      case None =>
        assert Links(r[|edges|], e.nodeSourceId, e.nodeTargetId);
      case Some(k) =>
        MergeEdgeTypeAndValues(e, edges[k]);
        assert Links(r[k], e.nodeSourceId, e.nodeTargetId);
        assert forall j :: 0 <= j < |edges| && Links(edges[j], e.nodeSourceId, e.nodeTargetId) ==> j == k;
    }
  }

  /** Adding the same edge twice leaves the edge list as adding it once. */
  lemma AddEdgeIdempotent(nodes: seq<CdmNodeBtc>, edges: seq<CdmEdgeBtc>, e: CdmEdgeBtc)
    requires OneEdgePerPair(edges)
    ensures EdgesAfterAdd(nodes, EdgesAfterAdd(nodes, edges, e), e) == EdgesAfterAdd(nodes, edges, e)
  {
    var r := EdgesAfterAdd(nodes, edges, e);
    if !SourceRejected(nodes, e) {
      match FindEdgeByNodeSourceAndTarget(edges, e.nodeSourceId, e.nodeTargetId)
      case None =>
        FindEdgeFirst(r, e.nodeSourceId, e.nodeTargetId, |edges|);
        MergeEdgeSelf(e);
      case Some(k) =>
        MergeEdgeTypeAndValues(e, edges[k]);
        FindEdgeFirst(r, e.nodeSourceId, e.nodeTargetId, k);
        MergeEdgeIdempotent(e, edges[k]);
    }
  }

  // ---------------------------------------------------------------------
  // The graph
  // ---------------------------------------------------------------------

  /** A Bitcoin graph: the node and edge lists it owns, changed only by AddNode and AddEdge. */
  class CdmGraphBtc {
    var nodes: seq<CdmNodeBtc>
    var edges: seq<CdmEdgeBtc>

    /** Node ids are unique and there is at most one edge per unordered pair of ends. */
    ghost predicate Valid()
      reads this
    {
      UniqueNodeIds(nodes) && OneEdgePerPair(edges)
    }

    constructor ()
      ensures Valid() && nodes == [] && edges == []
    {
      nodes := [];
      edges := [];
    }

    /**
     * Adds an edge, or merges it into the edge that already joins its ends.
     * An edge whose source node is known and is not a transaction is rejected
     * and the graph is left unchanged.
     */
    method AddEdge(ebNew: CdmEdgeBtc)
      requires Valid()
      modifies this
      ensures Valid()
      ensures nodes == old(nodes)
      ensures edges == EdgesAfterAdd(old(nodes), old(edges), ebNew)
    {
      AddEdgeResult(nodes, edges, ebNew);
      // data-quality check: a transaction must sit at the source end
      var n := FindNodeAtEndOfEdge(nodes, ebNew.nodeTargetId, ebNew);
      if n.Some? {
        if n.value.nodeType != Tx {
          return;
        }
      }
      var ebExisting := FindEdgeByNodeSourceAndTarget(edges, ebNew.nodeSourceId, ebNew.nodeTargetId);
      if ebExisting.None? {
        edges := edges + [ebNew];
      } else {
        MergeExistingEdge(ebNew, ebExisting.value);
      }
    }

    /** Merges ebNew into the edge at position k, field by field, through guarded updates. */
    method MergeExistingEdge(ebNew: CdmEdgeBtc, k: nat)
      requires k < |edges|
      modifies this
      ensures nodes == old(nodes)
      ensures edges == old(edges)[k := MergedEdge(ebNew, old(edges)[k])]
    {
      var ebExisting := edges[k];
      // edge types: anything overrides Unknown, two different known types give Mixed
      if ebNew.edgeType != ebExisting.edgeType {
        if ebNew.edgeType == Unknown {
        } else {
          if ebExisting.edgeType == Unknown {
            ebExisting := ebExisting.(edgeType := ebNew.edgeType);
          } else {
            if ebExisting.edgeType == ebNew.edgeType {
            } else {
              ebExisting := ebExisting.(edgeType := Mixed);
            }
          }
        }
      }
      // amounts, for mixed edges only
      if ebExisting.edgeType == Mixed {
        if ebExisting.valueInSource <= FSmall && ebNew.valueInSource > FSmall {
          ebExisting := ebExisting.(valueInSource := ebNew.valueInSource);
        }
        if ebExisting.valueInTarget <= FSmall && ebNew.valueInTarget > FSmall {
          ebExisting := ebExisting.(valueInTarget := ebNew.valueInTarget);
        }
      }
      // source edge number
      if ebExisting.edgeNumberInSource == 0 {
        if ebNew.nodeSourceId == ebExisting.nodeSourceId {
          if ebNew.edgeNumberInSource > 0 {
            ebExisting := ebExisting.(edgeNumberInSource := ebNew.edgeNumberInSource);
          }
        } else {
          if ebNew.edgeNumberInTarget > 0 {
            ebExisting := ebExisting.(edgeNumberInSource := ebNew.edgeNumberInTarget);
          }
        }
      }
      // target edge number
      if ebExisting.edgeNumberInTarget == 0 {
        if ebNew.nodeSourceId == ebExisting.nodeSourceId {
          if ebNew.edgeNumberInTarget > 0 {
            ebExisting := ebExisting.(edgeNumberInTarget := ebNew.edgeNumberInTarget);
          }
        } else {
          if ebNew.edgeNumberInSource > 0 {
            ebExisting := ebExisting.(edgeNumberInTarget := ebNew.edgeNumberInSource);
          }
        }
      }
      edges := edges[k := ebExisting];
    }

    /** Adds a node, or merges it into the node that already has its id. */
    method AddNode(nbNew: CdmNodeBtc)
      requires Valid()
      modifies this
      ensures Valid()
      ensures edges == old(edges)
      ensures nodes == NodesAfterAdd(old(nodes), nbNew)
    {
      AddNodeResult(nodes, nbNew);
      var nbExisting := FindNodeById(nodes, nbNew.nodeId);
      if nbExisting.None? {
        nodes := nodes + [nbNew];
      } else {
        MergeExistingNode(nbNew, nbExisting.value);
      }
    }

    /** Merges nbNew into the node at position k, field by field, through guarded updates. */
    method MergeExistingNode(nbNew: CdmNodeBtc, k: nat)
      requires k < |nodes|
      modifies this
      ensures edges == old(edges)
      ensures nodes == old(nodes)[k := MergedNode(nbNew, old(nodes)[k])]
    {
      var nbExisting := nodes[k];
      // attributes common to all node types
      if nbExisting.nodeEdgeCountTotal == 0 {
        nbExisting := nbExisting.(nodeEdgeCountTotal := nbNew.nodeEdgeCountTotal);
      }
      if nbExisting.value <= FSmall && nbNew.value > FSmall {
        nbExisting := nbExisting.(value := nbNew.value);
      }
      if nbExisting.nodeType == Addr {
        if nbExisting.finalBalance <= FSmall && nbNew.finalBalance > FSmall {
          nbExisting := nbExisting.(finalBalance := nbNew.finalBalance);
        }
        if nbExisting.totalReceived <= FSmall && nbNew.totalReceived > FSmall {
          nbExisting := nbExisting.(totalReceived := nbNew.totalReceived);
        }
        if nbExisting.totalSent <= FSmall && nbNew.totalSent > FSmall {
          nbExisting := nbExisting.(totalSent := nbNew.totalSent);
        }
      } else if nbExisting.nodeType == Tx {
        if nbExisting.blockHeight == 0 && nbNew.blockHeight > 0 {
          nbExisting := nbExisting.(blockHeight := nbNew.blockHeight);
        }
        if nbExisting.relayedBy == "" && nbNew.relayedBy != "" {
          nbExisting := nbExisting.(relayedBy := nbNew.relayedBy);
        }
        if nbExisting.voutSize == 0 && nbNew.voutSize > 0 {
          nbExisting := nbExisting.(voutSize := nbNew.voutSize);
        }
        if nbExisting.vinSize == 0 && nbNew.vinSize > 0 {
          nbExisting := nbExisting.(vinSize := nbNew.vinSize);
        }
      }
      nodes := nodes[k := nbExisting];
    }
  }
}
