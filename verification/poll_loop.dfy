/** `evmTransaction`: the polling loop that watches the chain height and
    requests one webhook post per transaction of every block it fetches.
    The recursion is modelled as a step function from the watermark
    `lastBlock` and the outcome of one cycle's node calls to the next
    watermark, driven over a finite sequence of such outcomes. */
module PollLoop {
  import opened Wrappers
  import opened Records

  /** What the node calls of one cycle produced. `Threw`: the delay or the
      height read failed. `Observed`: the height read returned `height`;
      `block` is what fetching the block the cycle asks for produced, `None`
      when that call failed or returned no block. */
  datatype Outcome = Threw | Observed(height: int, block: Option<seq<Hash>>)

  /** The result of one cycle: the watermark passed to the next cycle, the
      height whose block was requested, if any, and the transaction hashes
      for which a fetch-and-post chain was started. */
  datatype Step = Step(lastBlock: int, fetched: Option<int>, requests: seq<Hash>)

  /** One cycle as written: an equal height polls again; any other height,
      lower or higher, is fetched directly and becomes the watermark; a
      failure anywhere keeps the old watermark. */
  function EvmStep(lastBlock: int, o: Outcome): (s: Step)
    ensures o.Threw? ==> s == Step(lastBlock, None, [])
    ensures o.Observed? && o.height == lastBlock ==> s == Step(lastBlock, None, [])
    ensures o.Observed? && o.height != lastBlock ==> s.fetched == Some(o.height)
    ensures o.Observed? && o.height != lastBlock && o.block.Some? ==>
              s.lastBlock == o.height && s.requests == o.block.value
    ensures o.Observed? && o.block.None? ==> s.lastBlock == lastBlock && s.requests == []
  {
    match o
    case Threw => Step(lastBlock, None, [])
    case Observed(h, block) =>
      if h == lastBlock then Step(lastBlock, None, [])
      else
        match block
        case None => Step(lastBlock, Some(h), [])
        case Some(hashes) => Step(h, Some(h), hashes)
  }

  /** The trace of a run: the final watermark, the heights whose blocks
      were processed (fetched successfully), in order, and all the
      transaction hashes a post was requested for. */
  datatype Trace = Trace(lastBlock: int, processed: seq<int>, requests: seq<Hash>)

  /** A step advanced exactly when it processed a block. */
  predicate Advanced(lastBlock: int, s: Step) {
    s.lastBlock != lastBlock
  }

  function Run(lastBlock: int, outcomes: seq<Outcome>): Trace
    decreases |outcomes|
  {
    if outcomes == [] then Trace(lastBlock, [], [])
    else
      var s := EvmStep(lastBlock, outcomes[0]);
      var t := Run(s.lastBlock, outcomes[1..]);
      Trace(t.lastBlock, (if Advanced(lastBlock, s) then [s.lastBlock] else []) + t.processed, s.requests + t.requests)
  }

  /** The heights the node reported during a run. */
  function Heights(outcomes: seq<Outcome>): set<int> {
    set i | 0 <= i < |outcomes| && outcomes[i].Observed? :: outcomes[i].height
  }

  lemma HeightsCons(outcomes: seq<Outcome>)
    requires outcomes != []
    ensures Heights(outcomes) == (if outcomes[0].Observed? then {outcomes[0].height} else {}) + Heights(outcomes[1..])
  {
    var rest := outcomes[1..];
    forall h | h in Heights(rest)
      ensures h in Heights(outcomes)
    {
      var i :| 0 <= i < |rest| && rest[i].Observed? && rest[i].height == h;
      assert outcomes[i + 1] == rest[i];
    }
    forall h | h in Heights(outcomes)
      ensures h in (if outcomes[0].Observed? then {outcomes[0].height} else {}) + Heights(rest)
    {
      var i :| 0 <= i < |outcomes| && outcomes[i].Observed? && outcomes[i].height == h;
      if i > 0 {
        assert rest[i - 1] == outcomes[i];
      }
    }
  }

  /** The watermark after a run is the initial one or a height the node
      reported, and every processed block is at a reported height, so a
      height the node never reported is never fetched. */
  lemma {:induction false} RunWatermarkIsObserved(lastBlock: int, outcomes: seq<Outcome>)
    ensures var t := Run(lastBlock, outcomes);
      && (t.lastBlock == lastBlock || t.lastBlock in Heights(outcomes))
      && forall i :: 0 <= i < |t.processed| ==> t.processed[i] in Heights(outcomes)
    decreases |outcomes|
  {
    if outcomes != [] {
      var s := EvmStep(lastBlock, outcomes[0]);
      HeightsCons(outcomes);
      RunWatermarkIsObserved(s.lastBlock, outcomes[1..]);
      var t := Run(lastBlock, outcomes);
      var head := if Advanced(lastBlock, s) then [s.lastBlock] else [];
      var tail := Run(s.lastBlock, outcomes[1..]).processed;
      assert t.processed == head + tail;
      forall i | 0 <= i < |t.processed|
        ensures t.processed[i] in Heights(outcomes)
      {
        if i >= |head| {
          assert t.processed[i] == tail[i - |head|];
        }
      }
    }
  }

  /** A cycle that makes no progress: the call failed, the height is
      unchanged, or the block could not be fetched. */
  predicate Stalls(lastBlock: int, o: Outcome) {
    o.Threw? || o.height == lastBlock || o.block.None?
  }

  /** When every cycle stalls the watermark never moves, no block is
      processed and no post is requested. */
  lemma {:induction false} RunStallsKeepWatermark(lastBlock: int, outcomes: seq<Outcome>)
    requires forall i :: 0 <= i < |outcomes| ==> Stalls(lastBlock, outcomes[i])
    ensures Run(lastBlock, outcomes) == Trace(lastBlock, [], [])
    decreases |outcomes|
  {
    if outcomes != [] {
      assert Stalls(lastBlock, outcomes[0]);
      RunStallsKeepWatermark(lastBlock, outcomes[1..]);
    }
  }

  /** A fetched block with no transactions requests no post and still
      moves the watermark to its height. */
  lemma EmptyBlockAdvances(lastBlock: int, h: int)
    requires h != lastBlock
    ensures EvmStep(lastBlock, Observed(h, Some([]))) == Step(h, Some(h), [])
  {
  }

  /** As written, a jump from 100 to 102 processes block 102 only, so block
      101 is never fetched, and a reported height below the watermark is
      processed and moves the watermark back. */
  lemma AsWrittenSkipsAndRegresses()
    ensures Run(100, [Observed(102, Some(["0xa"]))]) == Trace(102, [102], ["0xa"])
    ensures Run(100, [Observed(99, Some(["0xb"]))]) == Trace(99, [99], ["0xb"])
  {
  }

  /** One cycle that processes every new block, as the "check if there are
      new blocks" step means to: when the chain is ahead, the block
      right after the watermark is fetched (the outcome's `block` is then
      that block) and the watermark moves by one; a height at or below the
      watermark only polls again. */
  function SequentialStep(lastBlock: int, o: Outcome): (s: Step)
    ensures s.lastBlock == lastBlock || s.lastBlock == lastBlock + 1
    ensures s.lastBlock == lastBlock + 1 <==> o.Observed? && o.height > lastBlock && o.block.Some?
    ensures o.Observed? && o.height > lastBlock ==> s.fetched == Some(lastBlock + 1)
    ensures !(o.Observed? && o.height > lastBlock) ==> s == Step(lastBlock, None, [])
    ensures s.lastBlock == lastBlock + 1 ==> s.requests == o.block.value
    ensures s.lastBlock == lastBlock ==> s.requests == []
  {
    match o
    case Threw => Step(lastBlock, None, [])
    case Observed(h, block) =>
      if h <= lastBlock then Step(lastBlock, None, [])
      else
        match block
        case None => Step(lastBlock, Some(lastBlock + 1), [])
        case Some(hashes) => Step(lastBlock + 1, Some(lastBlock + 1), hashes)
  }

  function SequentialRun(lastBlock: int, outcomes: seq<Outcome>): Trace
    decreases |outcomes|
  {
    if outcomes == [] then Trace(lastBlock, [], [])
    else
      var s := SequentialStep(lastBlock, outcomes[0]);
      var t := SequentialRun(s.lastBlock, outcomes[1..]);
      Trace(t.lastBlock, (if Advanced(lastBlock, s) then [s.lastBlock] else []) + t.processed, s.requests + t.requests)
  }

  /** The corrected loop processes the heights after the initial watermark
      one by one, each exactly once, in increasing order and with none
      skipped, and its watermark is the last height processed. */
  lemma {:induction false} SequentialRunConsecutive(lastBlock: int, outcomes: seq<Outcome>)
    ensures var t := SequentialRun(lastBlock, outcomes);
      && t.lastBlock == lastBlock + |t.processed|
      && forall i :: 0 <= i < |t.processed| ==> t.processed[i] == lastBlock + 1 + i
    decreases |outcomes|
  {
    if outcomes != [] {
      var s := SequentialStep(lastBlock, outcomes[0]);
      SequentialRunConsecutive(s.lastBlock, outcomes[1..]);
      var t := SequentialRun(lastBlock, outcomes);
      var tail := SequentialRun(s.lastBlock, outcomes[1..]).processed;
      if Advanced(lastBlock, s) {
        assert t.processed == [lastBlock + 1] + tail;
        forall i | 0 <= i < |t.processed|
          ensures t.processed[i] == lastBlock + 1 + i
        {
          if i > 0 {
            assert t.processed[i] == tail[i - 1];
          }
        }
      } else {
        assert t.processed == tail;
      }
    }
  }

  /** A field-by-field record, standing for a JavaScript object. */
  type Fields<V> = map<string, V>

  /** `{ ...response, ...receipt }`: the receipt's keys take the receipt's
      values, the keys only the response has keep the response's values. A
      missing (`null`) receipt spreads nothing. */
  function MergeBody<V>(response: Fields<V>, receipt: Option<Fields<V>>): (b: Fields<V>)
    ensures receipt.None? ==> b == response
    ensures receipt.Some? ==> b.Keys == response.Keys + receipt.value.Keys
    ensures receipt.Some? ==> forall k :: k in receipt.value ==> b[k] == receipt.value[k]
    ensures receipt.Some? ==> forall k :: k in response && k !in receipt.value ==> b[k] == response[k]
  {
    match receipt
    case None => response
    case Some(rc) => response + rc
  }

  /** What the post chain started for one hash obtained: `Lost` when the
      transaction or receipt call failed (the rejection is not caught and
      no post follows), otherwise the transaction and the receipt, the
      latter absent for a pending transaction. */
  datatype Fetch<V> = Lost | Fetched(response: Fields<V>, receipt: Option<Fields<V>>)

  /** The bodies posted for the requested hashes, in request order, each
      the merge of its transaction and receipt; hashes whose chain was lost
      post nothing and do not affect the others. */
  function Bodies<V>(requests: seq<Hash>, fetch: Hash -> Fetch<V>): (r: seq<Fields<V>>)
    ensures |r| <= |requests|
    ensures (forall i :: 0 <= i < |requests| ==> fetch(requests[i]).Fetched?) ==>
              |r| == |requests| &&
              forall i :: 0 <= i < |requests| ==>
                r[i] == MergeBody(fetch(requests[i]).response, fetch(requests[i]).receipt)
    ensures (forall i :: 0 <= i < |requests| ==> fetch(requests[i]).Lost?) ==> r == []
    decreases |requests|
  {
    if requests == [] then []
    else
      var rest := Bodies(requests[1..], fetch);
      match fetch(requests[0])
      case Lost => rest
      case Fetched(response, receipt) => [MergeBody(response, receipt)] + rest
  }

  /** Each hash's chain runs on its own: the bodies for two runs of
      requests are the bodies of the first followed by those of the second. */
  lemma {:induction false} BodiesAppend<V>(a: seq<Hash>, b: seq<Hash>, fetch: Hash -> Fetch<V>)
    ensures Bodies(a + b, fetch) == Bodies(a, fetch) + Bodies(b, fetch)
    decreases |a|
  {
    if a == [] {
      assert a + b == b;
    } else {
      assert (a + b)[0] == a[0];
      assert (a + b)[1..] == a[1..] + b;
      BodiesAppend(a[1..], b, fetch);
    }
  }

  /** One hash posts one merged body when its chain succeeds and nothing
      when it is lost; with `BodiesAppend` this fixes the bodies of any
      mix of lost and fetched hashes. */
  lemma BodiesSingle<V>(h: Hash, fetch: Hash -> Fetch<V>)
    ensures fetch(h).Lost? ==> Bodies([h], fetch) == []
    ensures fetch(h).Fetched? ==> Bodies([h], fetch) == [MergeBody(fetch(h).response, fetch(h).receipt)]
  {
    assert [h][1..] == [];
  }
}
