/** Choosing the active chain (src/main.cpp): `ReceivedBlockTransactions`, `FindMostWorkChain`,
    `PruneBlockIndexCandidates`, `ActivateBestChainStep` and `ActivateBestChain`, for a verdict on
    each block that is fixed from the start.  The active chain appears by its tip; ActiveChain shows
    that membership and fork points are then what `IsAncestor` and `Fork` say. */
module ChainSelection {
  import opened Basics
  import opened BlockTree
  import opened ActiveChain

  type Verdict = Block -> bool

  /** The block and all below it pass `ConnectBlock`. */
  predicate AllValid(valid: Verdict, b: Block) {
    b != NoBlock && valid(b) && (b.prev == NoBlock || AllValid(valid, b.prev))
  }

  lemma {:induction false} AllValidBelow(valid: Verdict, a: Block, b: Block)
    requires AllValid(valid, b) && IsAncestor(a, b)
    ensures AllValid(valid, a)
  {
    if a != b {
      AllValidBelow(valid, a, b.prev);
    }
  }

  /** All data down to genesis has been received. */
  predicate Complete(haveData: set<Block>, b: Block) {
    b in haveData && b != NoBlock && (b.prev == NoBlock || Complete(haveData, b.prev))
  }

  // ----- the candidate order

  /** `CBlockIndexWorkComparator`.  Blocks with `nChainTx` set have different sequence numbers, so
      its last resort, the address, is never needed. */
  predicate Worse(nSequenceId: map<Block, nat>, a: Block, b: Block)
    requires a in nSequenceId && b in nSequenceId
  {
    ChainWork(a) < ChainWork(b) || (ChainWork(a) == ChainWork(b) && nSequenceId[a] > nSequenceId[b])
  }

  predicate Numbered(nSequenceId: map<Block, nat>, s: set<Block>) {
    && (forall a :: a in s ==> a in nSequenceId)
    && forall a, b :: a in s && b in s && a != b ==> nSequenceId[a] != nSequenceId[b]
  }

  predicate IsGreatest(nSequenceId: map<Block, nat>, s: set<Block>, m: Block)
    requires Numbered(nSequenceId, s)
  {
    m in s && forall a :: a in s ==> a == m || Worse(nSequenceId, a, m)
  }

  predicate IsLeast(nSequenceId: map<Block, nat>, s: set<Block>, m: Block)
    requires Numbered(nSequenceId, s)
  {
    m in s && forall a :: a in s ==> a == m || Worse(nSequenceId, m, a)
  }

  lemma {:induction false} GreatestExists(nSequenceId: map<Block, nat>, s: set<Block>) returns (m: Block)
    requires s != {} && Numbered(nSequenceId, s)
    ensures IsGreatest(nSequenceId, s, m)
    decreases |s|
  {
    var x :| x in s;
    if s == {x} {
      m := x;
    } else {
      var m' := GreatestExists(nSequenceId, s - {x});
      m := if Worse(nSequenceId, m', x) then x else m';
      forall a | a in s ensures a == m || Worse(nSequenceId, a, m) {
        assert a == x || a in s - {x};
      }
    }
  }

  lemma {:induction false} LeastExists(nSequenceId: map<Block, nat>, s: set<Block>) returns (m: Block)
    requires s != {} && Numbered(nSequenceId, s)
    ensures IsLeast(nSequenceId, s, m)
    decreases |s|
  {
    var x :| x in s;
    if s == {x} {
      m := x;
    } else {
      var m' := LeastExists(nSequenceId, s - {x});
      m := if Worse(nSequenceId, x, m') then x else m';
      forall a | a in s ensures a == m || Worse(nSequenceId, m, a) {
        assert a == x || a in s - {x};
      }
    }
  }

  lemma LeastNotWorse(nSequenceId: map<Block, nat>, s: set<Block>, m: Block, b: Block)
    requires Numbered(nSequenceId, s) && b in nSequenceId
    requires IsLeast(nSequenceId, s, m) && !Worse(nSequenceId, m, b)
    ensures forall a :: a in s ==> !Worse(nSequenceId, a, b)
  {
    forall a | a in s ensures !Worse(nSequenceId, a, b) {
      assert a == m || Worse(nSequenceId, m, a);
    }
  }

  // ----- blocks waiting for their parents

  /** The entries of the multimap under one key, in the order they were put in. */
  function ChildrenOf(unlinked: seq<(Block, Block)>, p: Block): seq<Block> {
    if unlinked == [] then []
    else (if unlinked[0].0 == p then [unlinked[0].1] else []) + ChildrenOf(unlinked[1..], p)
  }

  function Without(unlinked: seq<(Block, Block)>, p: Block): seq<(Block, Block)> {
    if unlinked == [] then []
    else (if unlinked[0].0 == p then [] else [unlinked[0]]) + Without(unlinked[1..], p)
  }

  lemma {:induction false} SplitMembers(unlinked: seq<(Block, Block)>, p: Block)
    ensures forall c :: c in ChildrenOf(unlinked, p) <==> (p, c) in unlinked
    ensures forall x :: x in Without(unlinked, p) <==> x in unlinked && x.0 != p
  {
    if unlinked != [] {
      SplitMembers(unlinked[1..], p);
      assert unlinked == [unlinked[0]] + unlinked[1..];
    }
  }

  lemma {:induction false} SplitDistinct(unlinked: seq<(Block, Block)>, p: Block)
    requires Distinct(unlinked)
    ensures Distinct(ChildrenOf(unlinked, p)) && Distinct(Without(unlinked, p))
  {
    if unlinked != [] {
      SplitDistinct(unlinked[1..], p);
      SplitMembers(unlinked[1..], p);
      assert unlinked[0] !in unlinked[1..];
      DistinctCons(unlinked[0].1, ChildrenOf(unlinked[1..], p), unlinked[0].0 == p);
      DistinctCons(unlinked[0], Without(unlinked[1..], p), unlinked[0].0 != p);
    }
  }

  lemma DistinctCons<T>(x: T, s: seq<T>, take: bool)
    requires Distinct(s) && (take ==> x !in s)
    ensures Distinct((if take then [x] else []) + s)
  {
  }

  lemma DistinctAppend<T>(a: seq<T>, b: seq<T>)
    requires Distinct(a) && Distinct(b) && forall x :: x in a ==> x !in b
    ensures Distinct(a + b)
  {
    forall i, j | 0 <= i < j < |a + b| ensures (a + b)[i] != (a + b)[j] {
      if i < |a| <= j {
        assert a[i] in a && b[j - |a|] in b;
      }
    }
  }

  // ----- the state and its invariant

  datatype State = State(haveData: set<Block>, nChainTx: map<Block, nat>, nSequenceId: map<Block, nat>, nBlockSequenceId: nat,
                         failedValid: set<Block>, failedChild: set<Block>,
                         candidates: set<Block>, unlinked: seq<(Block, Block)>, tip: Block) {

    /** `nStatus & BLOCK_FAILED_MASK`. */
    predicate Failed(b: Block) {
      b in failedValid || b in failedChild
    }

    /** The blocks with `nChainTx` set form a tree of received blocks, numbered as they were linked. */
    ghost predicate Links() {
      && nChainTx.Keys == nSequenceId.Keys && Numbered(nSequenceId, nChainTx.Keys)
      && (forall b :: b in nChainTx ==> b != NoBlock && b in haveData && (b.prev == NoBlock || b.prev in nChainTx))
      && (forall b :: b in nChainTx ==> nSequenceId[b] < nBlockSequenceId)
      && candidates <= nChainTx.Keys
      && NoBlock !in haveData
    }

    /** A failure flag is never wrong. */
    ghost predicate FlagsSound(valid: Verdict) {
      && (forall b :: b in failedValid ==> !AllValid(valid, b))
      && (forall b :: b in failedChild ==> !AllValid(valid, b))
    }

    /** A received block that is not linked waits under its parent, which is not linked either.
        `queue` holds the blocks about to be linked. */
    ghost predicate Waiting(valid: Verdict, queue: seq<Block>) {
      && (forall x :: x in unlinked ==> x.1 != NoBlock && x.1.prev == x.0 && x.1 in haveData && x.1 !in nChainTx && x.1 !in queue)
      && Distinct(unlinked)
      && (forall b :: b in haveData && b !in nChainTx && AllValid(valid, b) && b !in queue ==>
            (b.prev, b) in unlinked && b.prev != NoBlock && b.prev !in nChainTx)
    }

    /** The queue of `ReceivedBlockTransactions`: received blocks whose parent is linked. */
    ghost predicate Queued(queue: seq<Block>) {
      && Distinct(queue)
      && forall b :: b in queue ==> b in haveData && b !in nChainTx && b != NoBlock && (b.prev == NoBlock || b.prev in nChainTx)
    }

    /** `best` is a good candidate; a linked block that is not a candidate is bad or worse than it. */
    ghost predicate Anchored(valid: Verdict, best: Block)
      requires Links()
    {
      && (best != NoBlock ==> best in candidates && AllValid(valid, best))
      && (tip != NoBlock ==> tip in nChainTx && AllValid(valid, tip))
      && (forall b :: b in nChainTx && AllValid(valid, b) && b !in candidates ==> best != NoBlock && Worse(nSequenceId, b, best))
    }

    ghost predicate Inv(valid: Verdict, best: Block) {
      Links() && FlagsSound(valid) && Waiting(valid, []) && Anchored(valid, best)
    }

    /** Between activations the tip is no better than `best`. */
    ghost predicate Settled(best: Block)
      requires Links()
    {
      tip != NoBlock ==> tip in nChainTx && best in nChainTx && (tip == best || Worse(nSequenceId, tip, best))
    }

    /** `a` has less work than `b`, or the same and was linked later. */
    predicate Behind(a: Block, b: Block)
      requires a in nSequenceId && b in nSequenceId
    {
      ChainWork(a) <= ChainWork(b) && (ChainWork(a) == ChainWork(b) ==> nSequenceId[b] < nSequenceId[a])
    }

    /** What activation is for: among the blocks that are valid down to genesis and fully received,
        the tip is the one with most work, the one linked first among equals; and there is no tip
        only if there is no such block. */
    ghost predicate TipIsBest(valid: Verdict)
      requires Links()
    {
      && (tip != NoBlock ==> tip in nChainTx && AllValid(valid, tip) && Complete(haveData, tip))
      && (forall b :: AllValid(valid, b) && Complete(haveData, b) ==>
            b in nChainTx && tip != NoBlock && (b == tip || Behind(b, tip)))
    }

    lemma {:induction false} LinkedIsComplete(b: Block)
      requires Links() && b in nChainTx
      ensures Complete(haveData, b)
    {
      if b.prev != NoBlock {
        LinkedIsComplete(b.prev);
      }
    }

    /** No received block is forgotten: valid and complete blocks are linked. */
    lemma {:induction false} CompleteIsLinked(valid: Verdict, b: Block)
      requires Links() && Waiting(valid, []) && AllValid(valid, b) && Complete(haveData, b)
      ensures b in nChainTx
    {
      if b.prev != NoBlock {
        CompleteIsLinked(valid, b.prev);
      }
    }

    lemma {:induction false} LinkedBelow(a: Block, b: Block)
      requires Links() && b in nChainTx && IsAncestor(a, b)
      ensures a in nChainTx
    {
      if a != b {
        LinkedBelow(a, b.prev);
      }
    }

    /** A tip that is the greatest candidate is the best block there is. */
    lemma GreatestTipIsBest(valid: Verdict, best: Block)
      requires Inv(valid, best)
      requires if tip == NoBlock then candidates == {} else IsGreatest(nSequenceId, candidates, tip)
      ensures TipIsBest(valid)
    {
      if tip != NoBlock {
        LinkedIsComplete(tip);
      }
      forall b | AllValid(valid, b) && Complete(haveData, b)
        ensures b in nChainTx && tip != NoBlock && (b == tip || Behind(b, tip))
      {
        CompleteIsLinked(valid, b);
      }
    }

    /** The tip is only ever left for more work: a block linked later cannot displace it with the same. */
    lemma TipOnlyForMoreWork(valid: Verdict, after: State)
      requires Links() && TipIsBest(valid) && after.Links() && after.TipIsBest(valid)
      requires this.(haveData := after.haveData, tip := after.tip, failedValid := after.failedValid, failedChild := after.failedChild)
               .ExtendedBy(after)
      requires haveData <= after.haveData
      ensures tip == NoBlock || after.tip == tip || (after.tip != NoBlock && ChainWork(after.tip) > ChainWork(tip))
    {
      if tip != NoBlock {
        MoreData(after.haveData, tip);
        if after.tip != tip && after.tip in nChainTx {
          LinkedIsComplete(after.tip);
        }
      }
    }

    lemma {:induction false} MoreData(more: set<Block>, b: Block)
      requires Complete(haveData, b) && haveData <= more
      ensures Complete(more, b)
    {
      if b.prev != NoBlock {
        MoreData(more, b.prev);
      }
    }

    /** A new tip, reached by connecting a good block, with the candidates pruned below it. */
    lemma ConnectKeepsInv(valid: Verdict, best: Block, b: Block, after: State) returns (best': Block)
      requires Inv(valid, best) && b in nChainTx && AllValid(valid, b)
      requires after == this.(tip := b, candidates := set c | c in candidates && !Worse(nSequenceId, c, b))
      ensures after.Inv(valid, best')
      ensures best' in after.candidates && (best' == best || best' == b)
      ensures best != NoBlock ==> best' == best || Worse(nSequenceId, best, best')
    {
      best' := if best == NoBlock || Worse(nSequenceId, best, b) then b else best;
      assert best' in after.candidates;
    }

    /** Flagging a block whose data has not been received disturbs nothing. */
    lemma FlagUnseen(valid: Verdict, best: Block, b: Block)
      requires Inv(valid, best) && Settled(best) && TipIsBest(valid) && !AllValid(valid, b) && b !in haveData
      ensures var after := this.(failedValid := failedValid + {b});
        after.Inv(valid, best) && after.Settled(best) && after.TipIsBest(valid)
    {
    }

    /** Connecting the block that follows the tip keeps the invariant, and finds a candidate to keep. */
    lemma ConnectNext(valid: Verdict, best: Block, b: Block) returns (best': Block)
      requires Inv(valid, best) && b in nChainTx && b.prev == tip && valid(b)
      ensures this.(tip := b).Links() && best' in candidates && !Worse(nSequenceId, best', b)
      ensures this.(tip := b, candidates := set c | c in candidates && !Worse(nSequenceId, c, b)).Inv(valid, best')
    {
      best' := ConnectKeepsInv(valid, best, b, this.(tip := b, candidates := set c | c in candidates && !Worse(nSequenceId, c, b)));
    }

    /** Marking a bad block and dropping it. */
    lemma InvalidKeepsInv(valid: Verdict, best: Block, b: Block)
      requires Inv(valid, best) && !AllValid(valid, b)
      ensures this.(failedValid := failedValid + {b}, candidates := candidates - {b}).Inv(valid, best)
    {
    }

    /** The state once block `b` is linked as number `n` of its chain's transactions. */
    function Link(b: Block, n: nat): State
      requires tip != NoBlock ==> tip in nSequenceId
    {
      var ids := nSequenceId[b := nBlockSequenceId];
      this.(nChainTx := nChainTx[b := n], nSequenceId := ids, nBlockSequenceId := nBlockSequenceId + 1,
            candidates := if tip == NoBlock || !Worse(ids, b, tip) then candidates + {b} else candidates,
            unlinked := Without(unlinked, b))
    }

    lemma LinkKeepsLinks(b: Block, n: nat)
      requires Links() && b in haveData && b !in nChainTx && b != NoBlock && (b.prev == NoBlock || b.prev in nChainTx)
      requires tip != NoBlock ==> tip in nChainTx
      ensures Link(b, n).Links()
    {
    }

    lemma LinkKeepsWaiting(valid: Verdict, queue: seq<Block>, n: nat)
      requires Links() && Waiting(valid, queue) && Queued(queue) && queue != []
      requires tip != NoBlock ==> tip in nChainTx
      ensures var queue' := queue[1..] + ChildrenOf(unlinked, queue[0]);
        Link(queue[0], n).Waiting(valid, queue') && Link(queue[0], n).Queued(queue')
    {
      var b, after := queue[0], Link(queue[0], n);
      var children := ChildrenOf(unlinked, b);
      SplitDistinct(unlinked, b);
      SplitMembers(unlinked, b);
      forall x | x in queue[1..] ensures x in queue && x !in children && x != b {
        assert (b, x) in unlinked ==> x !in queue;
      }
      DistinctAppend(queue[1..], children);
      var queue' := queue[1..] + children;
      forall x | x in after.unlinked ensures x.1 !in queue' {
        assert x in unlinked && x.0 != b && x.1.prev == x.0;
      }
      forall c | c in haveData && c !in after.nChainTx && AllValid(valid, c) && c !in queue'
        ensures (c.prev, c) in after.unlinked && c.prev != NoBlock && c.prev !in after.nChainTx
      {
        assert c !in queue;
        assert (c.prev, c) in unlinked;
      }
    }

    lemma LinkKeepsAnchor(valid: Verdict, best: Block, b: Block, n: nat)
      requires Links() && Anchored(valid, best) && Settled(best)
      requires b in haveData && b !in nChainTx && b != NoBlock && (b.prev == NoBlock || b.prev in nChainTx)
      ensures Link(b, n).Links() && Link(b, n).Anchored(valid, best) && Link(b, n).Settled(best)
    {
      hide AllValid, ChainWork, Without;
      LinkKeepsLinks(b, n);
      var after := Link(b, n);
      assert candidates <= after.candidates && after.tip == tip;
      assert b !in after.candidates ==> tip != NoBlock && Worse(after.nSequenceId, b, tip);
      assert forall x :: x in nChainTx ==> after.nSequenceId[x] == nSequenceId[x];
      hide Links, Link, Numbered;
      forall x | x in after.nChainTx && AllValid(valid, x) && x !in after.candidates
        ensures best != NoBlock && Worse(after.nSequenceId, x, best)
      {
        assert x != b ==> Worse(nSequenceId, x, best);
      }
    }

    /** What linking more blocks leaves as it was, the new ones being numbered after the old, and
        children after parents. */
    ghost predicate ExtendedBy(after: State) {
      && after.haveData == haveData && after.tip == tip
      && after.failedValid == failedValid && after.failedChild == failedChild
      && nSequenceId.Keys <= after.nSequenceId.Keys && nBlockSequenceId <= after.nBlockSequenceId
      && (forall b :: b in nSequenceId ==> after.nSequenceId[b] == nSequenceId[b])
      && (forall b :: b in after.nSequenceId && b !in nSequenceId ==>
            nBlockSequenceId <= after.nSequenceId[b] < after.nBlockSequenceId
            && (b != NoBlock && b.prev != NoBlock && b.prev in after.nSequenceId ==> after.nSequenceId[b.prev] < after.nSequenceId[b]))
    }

    lemma ExtendedTwice(mid: State, after: State)
      requires ExtendedBy(mid) && mid.ExtendedBy(after)
      requires mid.Links()
      ensures ExtendedBy(after)
    {
      forall b | b in after.nSequenceId && b !in nSequenceId
        ensures b != NoBlock && b.prev != NoBlock && b.prev in after.nSequenceId ==> after.nSequenceId[b.prev] < after.nSequenceId[b]
      {
        if b in mid.nSequenceId {
          assert b in mid.nChainTx;
        }
      }
    }

    /** The invariant while `queue` is being worked off. */
    ghost predicate Linking(valid: Verdict, best: Block, queue: seq<Block>) {
      Links() && FlagsSound(valid) && Anchored(valid, best) && Settled(best) && Waiting(valid, queue) && Queued(queue)
    }

    lemma LinkingFront(valid: Verdict, best: Block, queue: seq<Block>)
      requires Linking(valid, best, queue) && queue != []
      ensures var b := queue[0];
        b in haveData && b !in nChainTx && b != NoBlock && (b.prev == NoBlock || b.prev in nChainTx)
      ensures tip != NoBlock ==> tip in nSequenceId
    {
    }

    lemma LinkKeepsLinking(valid: Verdict, best: Block, queue: seq<Block>, n: nat)
      requires Linking(valid, best, queue) && queue != [] && (tip != NoBlock ==> tip in nSequenceId)
      ensures Link(queue[0], n).Linking(valid, best, queue[1..] + ChildrenOf(unlinked, queue[0]))
      ensures ExtendedBy(Link(queue[0], n))
    {
      LinkKeepsAnchor(valid, best, queue[0], n);
      LinkKeepsWaiting(valid, queue, n);
      LinkExtends(queue[0], n);
    }

    lemma LinkExtends(b: Block, n: nat)
      requires Links() && b in haveData && b !in nChainTx && b != NoBlock && (b.prev == NoBlock || b.prev in nChainTx)
      requires tip != NoBlock ==> tip in nChainTx
      ensures ExtendedBy(Link(b, n))
    {
    }

    /** A block just received, not yet linked: either it goes to the queue or it waits. */
    lemma ReceiveKeepsWaiting(valid: Verdict, best: Block, b: Block)
      requires Inv(valid, best) && Settled(best) && b != NoBlock && b !in haveData
      ensures var got := this.(haveData := haveData + {b});
        && got.Links() && got.FlagsSound(valid) && got.Anchored(valid, best) && got.Settled(best)
        && (b.prev == NoBlock || b.prev in nChainTx ==> got.Waiting(valid, [b]) && got.Queued([b]))
        && (b.prev != NoBlock && b.prev !in nChainTx ==>
              && (!Failed(b.prev) ==> got.(unlinked := unlinked + [(b.prev, b)]).Waiting(valid, []))
              && (Failed(b.prev) ==> got.Waiting(valid, [])))
    {
      var got := this.(haveData := haveData + {b});
      assert (b.prev, b) !in unlinked;
      if Failed(b.prev) && b.prev != NoBlock && AllValid(valid, b) {
        AllValidBelow(valid, b.prev, b);
      }
    }

    /** The state once the data of a block is in, before anything is linked. */
    function Received(b: Block): State
      requires b != NoBlock
    {
      var got := this.(haveData := haveData + {b});
      if b.prev == NoBlock || b.prev in nChainTx || Failed(b.prev) then got
      else got.(unlinked := unlinked + [(b.prev, b)])
    }

    lemma ReceiveKeeps(valid: Verdict, best: Block, b: Block)
      requires Inv(valid, best) && Settled(best) && b != NoBlock && b !in haveData
      ensures if b.prev == NoBlock || b.prev in nChainTx then Received(b).Linking(valid, best, [b])
              else Received(b).Inv(valid, best) && Received(b).Settled(best)
      ensures this.(haveData := haveData + {b}).ExtendedBy(Received(b))
    {
      ReceiveKeepsWaiting(valid, best, b);
    }

    /** Flagging a block above a flagged one and dropping it. */
    lemma ChildKeepsInv(valid: Verdict, best: Block, b: Block, bad: Block)
      requires Inv(valid, best) && Failed(bad) && IsAncestor(bad, b)
      ensures this.(failedChild := failedChild + {b}, candidates := candidates - {b}).Inv(valid, best)
      ensures this.(candidates := candidates - {bad}).Inv(valid, best)
    {
      if AllValid(valid, b) {
        AllValidBelow(valid, bad, b);
      }
    }

    lemma DisconnectKeepsInv(valid: Verdict, best: Block)
      requires Inv(valid, best) && tip != NoBlock
      ensures this.(tip := tip.prev).Inv(valid, best)
    {
    }

    /** What activation has left to try: blocks not flagged yet, and blocks better than the tip. */
    ghost function Unflagged(): nat {
      |nChainTx.Keys - failedValid|
    }

    ghost function BetterThanTip(): set<Block> {
      set b | b in nChainTx && b in nSequenceId && (tip in nSequenceId ==> Worse(nSequenceId, tip, b))
    }

    lemma ActivationProgress(after: State)
      requires Links() && (tip != NoBlock ==> tip in nChainTx) && (after.tip != NoBlock ==> after.tip in nChainTx)
      requires after.Links() && after.nChainTx == nChainTx && after.nSequenceId == nSequenceId
      requires || (exists b :: b in nChainTx && b !in failedValid && after.failedValid == failedValid + {b})
               || (after.failedValid == failedValid && after.tip != NoBlock && (tip == NoBlock || ChainWork(after.tip) > ChainWork(tip)))
      ensures || after.Unflagged() < Unflagged()
              || (after.Unflagged() == Unflagged() && |after.BetterThanTip()| < |BetterThanTip()|)
    {
      if after.failedValid != failedValid {
        var b :| b in nChainTx && b !in failedValid && after.failedValid == failedValid + {b};
        assert nChainTx.Keys - failedValid == (nChainTx.Keys - after.failedValid) + {b};
      } else {
        WorseThan(after);
        SmallerSet(after.BetterThanTip(), BetterThanTip(), after.tip);
      }
    }

    lemma WorseThan(after: State)
      requires Links() && after.Links() && after.nChainTx == nChainTx && after.nSequenceId == nSequenceId
      requires (tip != NoBlock ==> tip in nChainTx) && after.tip in nChainTx
      requires tip == NoBlock || ChainWork(after.tip) > ChainWork(tip)
      ensures after.BetterThanTip() <= BetterThanTip() && after.tip in BetterThanTip() && after.tip !in after.BetterThanTip()
    {
    }

    lemma SmallerSet(a: set<Block>, b: set<Block>, x: Block)
      requires a <= b && x in b && x !in a
      ensures |a| < |b|
    {
      assert |a| <= |b - {x}| by {
        SubsetSize(a, b - {x});
      }
    }

    lemma {:induction false} SubsetSize(a: set<Block>, b: set<Block>)
      requires a <= b
      ensures |a| <= |b|
    {
      assert b == a + (b - a);
    }

    /** Once the tip is the greatest candidate it can serve as `best` itself. */
    lemma TipAnchors(valid: Verdict, best: Block)
      requires Inv(valid, best)
      requires if tip == NoBlock then candidates == {} else IsGreatest(nSequenceId, candidates, tip)
      ensures Inv(valid, tip) && Settled(tip)
    {
    }
  }
}
