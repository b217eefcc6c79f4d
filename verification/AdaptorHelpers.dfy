/**
 * Stateless helpers of the blockchain adaptors: splitting one transaction
 * record into pages of bounded size, looking up the amount an address moves
 * in a transaction, and building an edge id.
 *
 * A transaction record is a value here: the copy the program makes of the
 * record for every page is plain value copying, so no page can share an
 * entry with another page or with the original record.
 */
module Adaptors {
  import opened Cdm

  /** An address and a raw amount in satoshi. */
  datatype Coin = Coin(addr: string, value: int)

  /**
   * One entry of a transaction's `inputs` or `out` list: for an input, coin is
   * the entry's `prev_out` record; for an output, the output's own address and
   * value. The script field is the one the pager marks entries in.
   */
  datatype Entry = Entry(coin: Coin, script: string)

  /** A transaction record: header fields, then its inputs and its outputs (`out`). */
  datatype TxRecord = TxRecord(
    hash: string,
    time: int,
    blockHeight: int,
    relayedBy: string,
    vinSz: int,
    voutSz: int,
    inputs: seq<Entry>,
    outs: seq<Entry>)

  /** The placeholder written into the script of an entry that is to be removed. */
  const DeleteMe: string := "DELETEME"

  // ---------------------------------------------------------------------
  // Small helpers
  // ---------------------------------------------------------------------

  /** Raw satoshi divided by 100000, the unit the graph works in. */
  function ScaledValue(c: Coin): real {
    c.value as real / 100000.0
  }

  /**
   * The scaled value of the first entry whose address is addr, and 0 when no
   * entry has it. Models both GetLinkValueForAddressFromInputs (over inputs,
   * whose coin is their prev_out) and GetLinkValueForAddressFromOutputs.
   */
  function GetLinkValueForAddress(addr: string, entries: seq<Entry>): (r: real)
    ensures (forall k :: 0 <= k < |entries| ==> entries[k].coin.addr != addr) ==> r == 0.0
    ensures forall k :: 0 <= k < |entries| && entries[k].coin.addr == addr &&
                        (forall j :: 0 <= j < k ==> entries[j].coin.addr != addr) ==>
                          r == ScaledValue(entries[k].coin)
  {
    if entries == [] then 0.0
    else if entries[0].coin.addr == addr then ScaledValue(entries[0].coin)
    else
      assert forall k :: 1 <= k < |entries| ==> entries[k] == entries[1..][k - 1];
      GetLinkValueForAddress(addr, entries[1..])
  }

  /**
   * The id of the edge from itemOne to itemTwo of the given type: itemOne,
   * "--", itemTwo, "--", then the name of the type.
   */
  function FormatEdgeId(itemOne: string, itemTwo: string, edgeType: EdgeType): (id: string)
    ensures |id| == |itemOne| + |itemTwo| + 4 + |EdgeTypeName(edgeType)|
    ensures id[..|itemOne|] == itemOne
    ensures id[|itemOne|..|itemOne| + 2] == "--"
    ensures id[|itemOne| + 2..|itemOne| + 2 + |itemTwo|] == itemTwo
    ensures id[|itemOne| + 2 + |itemTwo|..|itemOne| + 4 + |itemTwo|] == "--"
    ensures id[|itemOne| + 4 + |itemTwo|..] == EdgeTypeName(edgeType)
  {
    itemOne + "--" + itemTwo + "--" + EdgeTypeName(edgeType)
  }

  /**
   * An edge id can be read back: two ids built from ends of the same lengths
   * are equal only when the ends and the edge type are equal.
   */
  lemma FormatEdgeIdDecodes(a: string, b: string, t: EdgeType, a': string, b': string, t': EdgeType)
    requires |a| == |a'| && |b| == |b'|
    requires FormatEdgeId(a, b, t) == FormatEdgeId(a', b', t')
    ensures a == a' && b == b' && t == t'
  {
    var id, id' := FormatEdgeId(a, b, t), FormatEdgeId(a', b', t');
    assert a == id[..|a|] == id'[..|a|] == a';
    assert b == id[|a| + 2..|a| + 2 + |b|] == id'[|a| + 2..|a| + 2 + |b|] == b';
    var n := |a| + |b| + 4;
    assert EdgeTypeName(t) == id[n..] == id'[n..] == EdgeTypeName(t');
  }

  // ---------------------------------------------------------------------
  // The cleansing filter
  // ---------------------------------------------------------------------

  /** The elements of xs that satisfy keep, in their order. */
  function Filter<T>(xs: seq<T>, keep: T -> bool): (r: seq<T>)
    ensures |r| <= |xs|
    ensures forall i :: 0 <= i < |r| ==> keep(r[i])
  {
    if xs == [] then []
    else (if keep(xs[0]) then [xs[0]] else []) + Filter(xs[1..], keep)
  }

  /** A filter's result holds exactly the elements of its input that satisfy keep. */
  lemma {:induction false} FilterMembers<T>(xs: seq<T>, keep: T -> bool)
    ensures forall e :: e in Filter(xs, keep) <==> e in xs && keep(e)
  {
    if xs != [] {
      FilterMembers(xs[1..], keep);
      assert xs == [xs[0]] + xs[1..];
    }
  }

  lemma {:induction false} FilterConcat<T>(a: seq<T>, b: seq<T>, keep: T -> bool)
    ensures Filter(a + b, keep) == Filter(a, keep) + Filter(b, keep)
  {
    if a == [] {
      assert a + b == b;
    } else {
      assert (a + b)[0] == a[0];
      assert (a + b)[1..] == a[1..] + b;
      FilterConcat(a[1..], b, keep);
    }
  }

  lemma {:induction false} FilterAll<T>(xs: seq<T>, keep: T -> bool)
    requires forall k :: 0 <= k < |xs| ==> keep(xs[k])
    ensures Filter(xs, keep) == xs
  {
    if xs != [] {
      FilterAll(xs[1..], keep);
    }
  }

  lemma {:induction false} FilterNone<T>(xs: seq<T>, keep: T -> bool)
    requires forall k :: 0 <= k < |xs| ==> !keep(xs[k])
    ensures Filter(xs, keep) == []
  {
    if xs != [] {
      FilterNone(xs[1..], keep);
    }
  }

  /** Removing an element the filter drops does not change the filter's result. */
  lemma {:induction false} FilterRemoveDropped<T>(xs: seq<T>, i: nat, keep: T -> bool)
    requires i < |xs| && !keep(xs[i])
    ensures Filter(xs[..i] + xs[i + 1..], keep) == Filter(xs, keep)
  {
    var before, after := xs[..i], xs[i + 1..];
    assert xs == before + ([xs[i]] + after);
    FilterConcat(before, [xs[i]] + after, keep);
    assert ([xs[i]] + after)[1..] == after;
    FilterConcat(before, after, keep);
  }

  /** An entry the cleansing pass keeps: its script is not the placeholder. */
  predicate Unmarked(e: Entry) {
    e.script != DeleteMe
  }

  /** The entries of xs that the cleansing pass keeps, in their order. */
  function Live(xs: seq<Entry>): seq<Entry> {
    Filter(xs, Unmarked)
  }

  // ---------------------------------------------------------------------
  // Page windows
  // ---------------------------------------------------------------------

  /** x clamped into [0, n]. */
  function Clip(x: int, n: nat): (c: nat)
    ensures c <= n
  {
    if x < 0 then 0 else if x > n then n else x
  }

  /** The entries of xs at the positions in [lo, hi), in order. */
  function Window(xs: seq<Entry>, lo: int, hi: int): (w: seq<Entry>)
    requires lo <= hi
    ensures |w| <= hi - lo
  {
    xs[Clip(lo, |xs|)..Clip(hi, |xs|)]
  }

  /** xs with the placeholder written into every entry whose position is outside [lo, hi). */
  function MarkOutside(xs: seq<Entry>, lo: int, hi: int): seq<Entry> {
    seq(|xs|, k requires 0 <= k < |xs| => if lo <= k < hi then xs[k] else xs[k].(script := DeleteMe))
  }

  /** Marking outside a window and then cleansing keeps the window's unmarked entries. */
  lemma {:induction false} LiveOfMarked(xs: seq<Entry>, lo: int, hi: int)
    requires lo <= hi
    ensures Live(MarkOutside(xs, lo, hi)) == Live(Window(xs, lo, hi))
  {
    var m := MarkOutside(xs, lo, hi);
    var a, b := Clip(lo, |xs|), Clip(hi, |xs|);
    assert m == m[..a] + m[a..b] + m[b..];
    assert m[a..b] == xs[a..b];
    FilterNone(m[..a], Unmarked);
    FilterNone(m[b..], Unmarked);
    FilterConcat(m[..a] + m[a..b], m[b..], Unmarked);
    FilterConcat(m[..a], m[a..b], Unmarked);
  }

  /**
   * The number of pages ConvertTxToPagedTx makes for txCount inputs and
   * outputs: txCount / pageSize, one more when there is a remainder.
   */
  function PageCount(txCount: nat, pageSize: int): nat
    requires pageSize >= 1
  {
    txCount / pageSize + (if txCount % pageSize > 0 then 1 else 0)
  }

  /** The page count is the ceiling of txCount / pageSize; no entries give no pages. */
  lemma PageCountIsCeiling(txCount: nat, pageSize: int)
    requires pageSize >= 1
    ensures PageCount(txCount, pageSize) * pageSize >= txCount
    ensures PageCount(txCount, pageSize) > 0 ==> (PageCount(txCount, pageSize) - 1) * pageSize < txCount
    ensures PageCount(txCount, pageSize) == 0 <==> txCount == 0
  {
    var q, r := txCount / pageSize, txCount % pageSize;
    assert txCount == q * pageSize + r && 0 <= r < pageSize;
    if r > 0 {
      assert (q + 1) * pageSize == q * pageSize + pageSize;
    } else if q > 0 {
      assert (q - 1) * pageSize == q * pageSize - pageSize;
    }
  }

  /**
   * Page pi of tx: the header of tx, the inputs whose position i and the
   * outputs whose position j give a combined index (i, resp. |inputs| + j) in
   * [pi * pageSize, (pi + 1) * pageSize), less those already carrying the
   * placeholder.
   */
  function Page(tx: TxRecord, pageSize: int, pi: nat): TxRecord
    requires pageSize >= 1
  {
    var lo := pi * pageSize;
    var hi := lo + pageSize;
    var nIn := |tx.inputs|;
    tx.(inputs := Live(Window(tx.inputs, lo, hi)), outs := Live(Window(tx.outs, lo - nIn, hi - nIn)))
  }

  /** Page pi's entries as slices of tx's lists, for the page's first combined index lo. */
  lemma PageSlices(tx: TxRecord, pageSize: int, pi: nat, lo: int)
    requires pageSize >= 1 && lo == pi * pageSize
    ensures Page(tx, pageSize, pi).inputs
         == Live(tx.inputs[Clip(lo, |tx.inputs|)..Clip(lo + pageSize, |tx.inputs|)])
    ensures Page(tx, pageSize, pi).outs
         == Live(tx.outs[Clip(lo - |tx.inputs|, |tx.outs|)..Clip(lo + pageSize - |tx.inputs|, |tx.outs|)])
  {
  }

  /** All pages of tx, in increasing page order. */
  function Pages(tx: TxRecord, pageSize: int): seq<TxRecord>
    requires pageSize >= 1
  {
    seq(PageCount(|tx.inputs| + |tx.outs|, pageSize), pi requires 0 <= pi => Page(tx, pageSize, pi))
  }

  /** A page holds at most pageSize inputs and outputs together. */
  lemma PageBounded(tx: TxRecord, pageSize: int, pi: nat)
    requires pageSize >= 1
    ensures |Page(tx, pageSize, pi).inputs| + |Page(tx, pageSize, pi).outs| <= pageSize
  {
    var lo := pi * pageSize;
    var nIn, nOut := |tx.inputs|, |tx.outs|;
    var a, b := Clip(lo, nIn), Clip(lo + pageSize, nIn);
    var c, d := Clip(lo - nIn, nOut), Clip(lo + pageSize - nIn, nOut);
    PageSlices(tx, pageSize, pi, lo);
    assert (b - a) + (d - c) <= pageSize;
  }

  /** A page carries every header field of tx unchanged and holds only unmarked entries of tx. */
  lemma PageContents(tx: TxRecord, pageSize: int, pi: nat)
    requires pageSize >= 1
    ensures Page(tx, pageSize, pi).(inputs := tx.inputs, outs := tx.outs) == tx
    ensures forall e :: e in Page(tx, pageSize, pi).inputs ==> e in tx.inputs && e.script != DeleteMe
    ensures forall e :: e in Page(tx, pageSize, pi).outs ==> e in tx.outs && e.script != DeleteMe
  {
    var lo := pi * pageSize;
    var nIn, nOut := |tx.inputs|, |tx.outs|;
    var wi := tx.inputs[Clip(lo, nIn)..Clip(lo + pageSize, nIn)];
    var wo := tx.outs[Clip(lo - nIn, nOut)..Clip(lo + pageSize - nIn, nOut)];
    PageSlices(tx, pageSize, pi, lo);
    assert forall e :: e in wi ==> e in tx.inputs;
    assert forall e :: e in wo ==> e in tx.outs;
    FilterMembers(wi, Unmarked);
    FilterMembers(wo, Unmarked);
  }


  /** Every page carries every header field of tx unchanged and only unmarked entries of tx. */
  lemma PagesKeepHeader(tx: TxRecord, pageSize: int)
    requires pageSize >= 1
    ensures forall p :: p in Pages(tx, pageSize) ==> p.(inputs := tx.inputs, outs := tx.outs) == tx
    ensures forall p, e :: p in Pages(tx, pageSize) && e in p.inputs ==> e in tx.inputs && e.script != DeleteMe
    ensures forall p, e :: p in Pages(tx, pageSize) && e in p.outs ==> e in tx.outs && e.script != DeleteMe
  {
    var ps := Pages(tx, pageSize);
    forall q | 0 <= q < |ps|
      ensures ps[q].(inputs := tx.inputs, outs := tx.outs) == tx
      ensures forall e :: e in ps[q].inputs ==> e in tx.inputs && e.script != DeleteMe
      ensures forall e :: e in ps[q].outs ==> e in tx.outs && e.script != DeleteMe
    {
      PageContents(tx, pageSize, q);
    }
  }

  /** The inputs of a list of pages, one page after the other. */
  function AllInputs(pages: seq<TxRecord>): seq<Entry> {
    if pages == [] then [] else AllInputs(pages[..|pages| - 1]) + pages[|pages| - 1].inputs
  }

  /** The outputs of a list of pages, one page after the other. */
  function AllOuts(pages: seq<TxRecord>): seq<Entry> {
    if pages == [] then [] else AllOuts(pages[..|pages| - 1]) + pages[|pages| - 1].outs
  }

  /** The prefix of length i + 1 is the prefix of length i followed by element i. */
  lemma PrefixSnoc<T>(s: seq<T>, i: nat)
    requires i < |s|
    ensures s[..i + 1] == s[..i] + [s[i]]
  {
  }

  /** The last page's inputs and outputs close the concatenations. */
  lemma AllEntriesSnoc(pages: seq<TxRecord>, k: nat)
    requires 1 <= k <= |pages|
    ensures AllInputs(pages[..k]) == AllInputs(pages[..k - 1]) + pages[k - 1].inputs
    ensures AllOuts(pages[..k]) == AllOuts(pages[..k - 1]) + pages[k - 1].outs
  {
    assert pages[..k][..k - 1] == pages[..k - 1];
  }

  /** Cleansing a prefix and then the slice after it cleanses the longer prefix. */
  lemma LivePrefixExtend(xs: seq<Entry>, a: nat, b: nat)
    requires a <= b <= |xs|
    ensures Live(xs[..a]) + Live(xs[a..b]) == Live(xs[..b])
  {
    assert xs[..a] + xs[a..b] == xs[..b];
    FilterConcat(xs[..a], xs[a..b], Unmarked);
  }

  /** The first k pages together hold the unmarked inputs at position below k * pageSize. */
  lemma {:induction false} ReassembleInputsPrefix(tx: TxRecord, pageSize: int, k: nat)
    requires pageSize >= 1 && k <= |Pages(tx, pageSize)|
    ensures AllInputs(Pages(tx, pageSize)[..k]) == Live(tx.inputs[..Clip(k * pageSize, |tx.inputs|)])
  {
    var ps := Pages(tx, pageSize);
    if k == 0 {
      assert ps[..0] == [];
      assert tx.inputs[..0] == [];
    } else {
      var hi := k * pageSize;
      var lo := hi - pageSize;
      assert lo == (k - 1) * pageSize;
      ReassembleInputsPrefix(tx, pageSize, k - 1);
      AllEntriesSnoc(ps, k);
      assert ps[k - 1] == Page(tx, pageSize, k - 1);
      PageSlices(tx, pageSize, k - 1, lo);
      LivePrefixExtend(tx.inputs, Clip(lo, |tx.inputs|), Clip(hi, |tx.inputs|));
    }
  }

  /** The first k pages together hold the unmarked outputs at combined index below k * pageSize. */
  lemma {:induction false} ReassembleOutsPrefix(tx: TxRecord, pageSize: int, k: nat)
    requires pageSize >= 1 && k <= |Pages(tx, pageSize)|
    ensures AllOuts(Pages(tx, pageSize)[..k]) == Live(tx.outs[..Clip(k * pageSize - |tx.inputs|, |tx.outs|)])
  {
    var ps := Pages(tx, pageSize);
    var nIn := |tx.inputs|;
    if k == 0 {
      assert ps[..0] == [];
      assert tx.outs[..0] == [];
    } else {
      var hi := k * pageSize;
      var lo := hi - pageSize;
      assert lo == (k - 1) * pageSize;
      var c, d := Clip(lo - nIn, |tx.outs|), Clip(hi - nIn, |tx.outs|);
      assert c == Clip((k - 1) * pageSize - nIn, |tx.outs|);
      assert d == Clip(lo + pageSize - nIn, |tx.outs|);
      ReassembleOutsPrefix(tx, pageSize, k - 1);
      AllEntriesSnoc(ps, k);
      assert ps[k - 1] == Page(tx, pageSize, k - 1);
      PageSlices(tx, pageSize, k - 1, lo);
      LivePrefixExtend(tx.outs, c, d);
    }
  }

  /**
   * Reassembly: the pages' inputs, one page after the other, are the original
   * inputs in their original order less the entries already carrying the
   * placeholder; the same holds for the outputs.
   */
  lemma {:induction false} Reassembly(tx: TxRecord, pageSize: int)
    requires pageSize >= 1
    ensures AllInputs(Pages(tx, pageSize)) == Live(tx.inputs)
    ensures AllOuts(Pages(tx, pageSize)) == Live(tx.outs)
  {
    var ps := Pages(tx, pageSize);
    var n := |ps|;
    var nIn, nOut := |tx.inputs|, |tx.outs|;
    PageCountIsCeiling(nIn + nOut, pageSize);
    var end := n * pageSize;
    assert end >= nIn + nOut;
    assert Clip(end, nIn) == nIn && Clip(end - nIn, nOut) == nOut;
    ReassembleInputsPrefix(tx, pageSize, n);
    ReassembleOutsPrefix(tx, pageSize, n);
    assert ps[..n] == ps;
    assert tx.inputs[..nIn] == tx.inputs;
    assert tx.outs[..nOut] == tx.outs;
  }

  /**
   * 25 inputs and 15 outputs in pages of 20 give two pages: the first holds
   * the first 20 inputs, the second the last 5 inputs and all 15 outputs.
   */
  lemma PagingExample(tx: TxRecord)
    requires |tx.inputs| == 25 && |tx.outs| == 15
    requires forall k :: 0 <= k < 25 ==> tx.inputs[k].script != DeleteMe
    requires forall k :: 0 <= k < 15 ==> tx.outs[k].script != DeleteMe
    ensures |Pages(tx, 20)| == 2
    ensures Pages(tx, 20)[0].inputs == tx.inputs[..20] && Pages(tx, 20)[0].outs == []
    ensures Pages(tx, 20)[1].inputs == tx.inputs[20..] && Pages(tx, 20)[1].outs == tx.outs
  {
    assert PageCount(40, 20) == 2;
    var p0, p1 := Page(tx, 20, 0), Page(tx, 20, 1);
    assert Pages(tx, 20)[0] == p0 && Pages(tx, 20)[1] == p1;
    assert Window(tx.inputs, 0, 20) == tx.inputs[..20];
    assert Window(tx.outs, -25, -5) == [];
    assert Window(tx.inputs, 20, 40) == tx.inputs[20..];
    assert Window(tx.outs, -5, 15) == tx.outs;
    FilterAll(tx.inputs[..20], Unmarked);
    FilterAll(tx.inputs[20..], Unmarked);
    FilterAll(tx.outs, Unmarked);
  }

  // ---------------------------------------------------------------------
  // The pager
  // ---------------------------------------------------------------------

  /**
   * Removes every entry whose script is the placeholder, from the inputs and
   * then from the outputs, restarting the scan from the front after every
   * removal.
   */
  method RemoveTheDeleteMeNodes(n: TxRecord) returns (r: TxRecord)
    ensures r == n.(inputs := Live(n.inputs), outs := Live(n.outs))
  {
    var inputs := n.inputs;
    var outputs := n.outs;

    // cleanse inputs
    var okToContinue := true;
    var i := 0;
    while okToContinue
      invariant 0 <= i <= |inputs|
      invariant Live(inputs) == Live(n.inputs)
      invariant forall k :: 0 <= k < i ==> inputs[k].script != DeleteMe
      invariant !okToContinue ==> i == |inputs|
      decreases okToContinue, |inputs|, |inputs| - i
    {
      if |inputs| == 0 || i >= |inputs| {
        okToContinue := false;
      } else if inputs[i].script == DeleteMe {
        FilterRemoveDropped(inputs, i, Unmarked);
        inputs := inputs[..i] + inputs[i + 1..];
        i := 0;
      } else {
        i := i + 1;
      }
    }
    FilterAll(inputs, Unmarked);

    // cleanse outputs
    okToContinue := true;
    i := 0;
    while okToContinue
      invariant 0 <= i <= |outputs|
      invariant Live(outputs) == Live(n.outs)
      invariant forall k :: 0 <= k < i ==> outputs[k].script != DeleteMe
      invariant !okToContinue ==> i == |outputs|
      decreases okToContinue, |outputs|, |outputs| - i
    {
      if |outputs| == 0 || i >= |outputs| {
        okToContinue := false;
      } else if outputs[i].script == DeleteMe {
        FilterRemoveDropped(outputs, i, Unmarked);
        outputs := outputs[..i] + outputs[i + 1..];
        i := 0;
      } else {
        i := i + 1;
      }
    }
    FilterAll(outputs, Unmarked);

    r := n.(inputs := inputs, outs := outputs);
  }

  /** Cleansing the copy of tx marked outside page pi's window gives page pi. */
  lemma CleansedMarkedPage(tx: TxRecord, pageSize: int, pi: nat, m: TxRecord)
    requires pageSize >= 1
    requires m == tx.(inputs := MarkOutside(tx.inputs, pi * pageSize, (pi + 1) * pageSize),
                      outs := MarkOutside(tx.outs, pi * pageSize - |tx.inputs|, (pi + 1) * pageSize - |tx.inputs|))
    ensures m.(inputs := Live(m.inputs), outs := Live(m.outs)) == Page(tx, pageSize, pi)
  {
    var lo, hi := pi * pageSize, (pi + 1) * pageSize;
    assert hi == lo + pageSize;
    LiveOfMarked(tx.inputs, lo, hi);
    LiveOfMarked(tx.outs, lo - |tx.inputs|, hi - |tx.inputs|);
    PageSlices(tx, pageSize, pi, lo);
  }

  /**
   * The marking pass of one page: walks the combined index ri over the
   * inputs and then the outputs of a copy of tx, and writes the placeholder
   * into every entry whose combined index lies outside [lo, hi).
   */
  method MarkOutsidePage(tx: TxRecord, lo: int, hi: int) returns (n: TxRecord)
    ensures n == tx.(inputs := MarkOutside(tx.inputs, lo, hi),
                     outs := MarkOutside(tx.outs, lo - |tx.inputs|, hi - |tx.inputs|))
  {
    n := tx;
    var masterInputCount := |tx.inputs|;
    var masterOutputCount := |tx.outs|;
    var masterTxCount := masterInputCount + masterOutputCount;
    var ri := 0;
    while ri < masterTxCount
      invariant 0 <= ri <= masterTxCount
      invariant n == tx.(inputs := n.inputs, outs := n.outs)
      invariant |n.inputs| == masterInputCount && |n.outs| == masterOutputCount
      invariant forall k :: 0 <= k < masterInputCount ==>
        n.inputs[k] == if k < ri then MarkOutside(tx.inputs, lo, hi)[k] else tx.inputs[k]
      invariant forall j :: 0 <= j < masterOutputCount ==>
        n.outs[j] == if masterInputCount + j < ri
                     then MarkOutside(tx.outs, lo - masterInputCount, hi - masterInputCount)[j]
                     else tx.outs[j]
    {
      if ri < masterInputCount {
        // input: outside the window?
        if ri < lo || ri >= hi {
          n := n.(inputs := n.inputs[ri := n.inputs[ri].(script := DeleteMe)]);
        }
      } else if ri < masterInputCount + masterOutputCount {
        // output: same test on the combined index
        if ri < lo || ri >= hi {
          var localRi := ri - masterInputCount;
          n := n.(outs := n.outs[localRi := n.outs[localRi].(script := DeleteMe)]);
        }
      } else {
        // the program logs a warning here; the index never gets this far
        assert false;
      }
      ri := ri + 1;
    }
  }

  /**
   * Splits tx into pages of at most pageSize inputs and outputs together. Each
   * page is a copy of tx in which every entry whose combined index lies
   * outside the page's window is marked with the placeholder, after which the
   * marked entries are removed.
   */
  method ConvertTxToPagedTx(tx: TxRecord, pageSize: int) returns (txPages: seq<TxRecord>)
    requires pageSize >= 1
    ensures txPages == Pages(tx, pageSize)
    ensures |txPages| == PageCount(|tx.inputs| + |tx.outs|, pageSize)
  {
    txPages := [];
    var masterInputCount := |tx.inputs|;
    var masterOutputCount := |tx.outs|;
    var masterTxCount := masterInputCount + masterOutputCount;

    // how many pages?
    var loops := masterTxCount / pageSize;
    var remainder := masterTxCount % pageSize;
    if remainder > 0 {
      loops := loops + 1;
    }
    ghost var pages := Pages(tx, pageSize);
    assert loops == |pages|;

    var pi := 0;
    while pi < loops
      invariant 0 <= pi <= loops
      invariant txPages == pages[..pi]
    {
      // this page keeps the combined indices in [pi * pageSize, (pi + 1) * pageSize)
      var n := MarkOutsidePage(tx, pi * pageSize, (pi + 1) * pageSize);
      CleansedMarkedPage(tx, pageSize, pi, n);
      n := RemoveTheDeleteMeNodes(n);
      PrefixSnoc(pages, pi);
      txPages := txPages + [n];
      pi := pi + 1;
    }
    assert pages[..loops] == pages;
  }
}
