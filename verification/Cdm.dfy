/**
 * The common data model of the graph: Bitcoin nodes (addresses and
 * transactions) and the edges that link them, as plain values.
 *
 * Monetary amounts are `real` (the program uses single-precision floats);
 * counts, heights and edge numbers are `int`. A value of 0 (or, for an
 * amount, at most FSmall; for a string, the empty string) means "unknown".
 */
module Cdm {

  datatype Option<T> = None | Some(value: T)

  /** What a node stands for: a Bitcoin address or a transaction. */
  datatype NodeType = Addr | Tx

  /** What an edge stands for; Mixed means the pair is linked both through an input and an output. */
  datatype EdgeType = Unknown | Input | Output | Mixed

  /** The text an edge type prints as (the enum member's name). */
  function EdgeTypeName(t: EdgeType): string {
    match t
    case Unknown => "Unknown"
    case Input => "Input"
    case Output => "Output"
    case Mixed => "Mixed"
  }

  /** Amounts at or below this threshold count as unknown. */
  const FSmall: real := 0.000001

  /** A Bitcoin graph node. The address fields are used by Addr nodes, the transaction fields by Tx nodes. */
  datatype CdmNodeBtc = CdmNodeBtc(
    nodeId: string,
    nodeType: NodeType,
    date: int,
    nodeEdgeCountTotal: int,
    value: real,
    // address fields
    finalBalance: real,
    totalReceived: real,
    totalSent: real,
    // transaction fields
    blockHeight: int,
    relayedBy: string,
    voutSize: int,
    vinSize: int)

  /** A Bitcoin graph edge between a transaction and an address, referring to its ends by node id. */
  datatype CdmEdgeBtc = CdmEdgeBtc(
    edgeId: string,
    nodeSourceId: string,
    nodeTargetId: string,
    edgeType: EdgeType,
    valueInSource: real,
    valueInTarget: real,
    edgeNumberInSource: int,
    edgeNumberInTarget: int)
}
