/** The chain state as an object, with the methods of src/main.cpp that change it.  `best` is the
    ghost block that ChainSelection's invariant speaks of. */
module ChainActivation {
  import opened BlockTree
  import opened ActiveChain
  import opened ChainSelection

  lemma {:induction false} AncestorPrev(b: Block, h: int)
    requires 0 <= h <= Height(b)
    ensures AncestorAt(b, h).prev == AncestorAt(b, h - 1)
  {
    if h < Height(b) {
      AncestorPrev(b.prev, h);
    }
  }

  /** A block above the fork point is neither in the chain nor flagged. */
  lemma NewOnPath(top: Block, tip: Block, h: int, linked: set<Block>, flagged: set<Block>)
    requires Height(Fork(top, tip)) < h <= Height(top)
    requires forall x :: IsAncestor(x, top) ==> x in linked && (IsAncestor(x, tip) || x !in flagged)
    ensures AncestorAt(top, h) in linked && AncestorAt(top, h) !in flagged
  {
    AncestorAtIsAncestor(top, h);
    ForkIsHighest(top, tip, AncestorAt(top, h));
  }

  lemma ExtendedBySelf(s: State)
    ensures s.ExtendedBy(s)
  {
  }

  lemma ExtendedAgain(s: State, mid: State, after: State, valid: Verdict, best: Block, queue: seq<Block>)
    requires s.ExtendedBy(mid) && mid.ExtendedBy(after) && mid.Linking(valid, best, queue)
    ensures s.ExtendedBy(after)
  {
    s.ExtendedTwice(mid, after);
  }

  lemma LinkingDone(s: State, valid: Verdict, best: Block)
    requires s.Linking(valid, best, [])
    ensures s.Inv(valid, best) && s.Settled(best)
  {
  }

  lemma Shrinks(all: set<Block>, before: set<Block>, after: set<Block>, b: Block)
    requires after == before + {b} && b in all && b !in before
    ensures |all - after| < |all - before|
  {
    assert all - before == (all - after) + {b};
  }

  lemma WaitingStep(all: seq<(Block, Block)>, i: nat, p: Block)
    requires i < |all|
    ensures ChildrenOf(all[i..], p) == (if all[i].0 == p then [all[i].1] else []) + ChildrenOf(all[i + 1..], p)
    ensures Without(all[i..], p) == (if all[i].0 == p then [] else [all[i]]) + Without(all[i + 1..], p)
  {
    assert all[i..][0] == all[i] && all[i..][1..] == all[i + 1..];
  }

  lemma NoneWaiting(p: Block)
    ensures ChildrenOf([], p) == [] && Without([], p) == []
  {
  }

  /** `nChainTx` counts the transactions from genesis up to the block. */
  ghost predicate Counted(nTx: map<Block, nat>, nChainTx: map<Block, nat>) {
    forall b :: b in nChainTx ==>
      b in nTx && b != NoBlock && nChainTx[b] == (if b.prev != NoBlock && b.prev in nChainTx then nChainTx[b.prev] else 0) + nTx[b]
  }

  lemma CountedLinked(s: State, nTx: map<Block, nat>, b: Block)
    requires s.Links() && Counted(nTx, s.nChainTx)
    requires b in nTx && b !in s.nChainTx && b != NoBlock && (b.prev == NoBlock || b.prev in s.nChainTx)
    ensures Counted(nTx, s.nChainTx[b := (if b.prev != NoBlock then s.nChainTx[b.prev] else 0) + nTx[b]])
  {
    assert b.prev != b;
  }

  lemma CountedReceived(s: State, nTx: map<Block, nat>, b: Block, n: nat)
    requires s.Links() && Counted(nTx, s.nChainTx) && b !in s.haveData
    ensures Counted(nTx[b := n], s.nChainTx)
  {
  }

  class ChainState {
    const valid: Verdict
    ghost var best: Block
    var haveData: set<Block>
    var nTx: map<Block, nat>
    var nChainTx: map<Block, nat>
    var nSequenceId: map<Block, nat>
    var nBlockSequenceId: nat
    var failedValid: set<Block>
    var failedChild: set<Block>
    var candidates: set<Block>
    var unlinked: seq<(Block, Block)>
    var tip: Block

    ghost function View(): State
      reads this
    {
      State(haveData, nChainTx, nSequenceId, nBlockSequenceId, failedValid, failedChild, candidates, unlinked, tip)
    }

    ghost predicate Valid()
      reads this
    {
      View().Inv(valid, best) && forall b :: b in haveData ==> b in nTx && nTx[b] > 0
    }

    ghost predicate Ready()
      reads this
    {
      Valid() && View().Settled(best) && Counted(nTx, nChainTx)
    }

    constructor (valid: Verdict)
      ensures Ready() && this.valid == valid && View().TipIsBest(valid)
      ensures View() == State({}, map[], map[], 1, {}, {}, {}, [], NoBlock)
    {
      this.valid := valid;
      best := NoBlock;
      haveData, nTx, nChainTx, nSequenceId, nBlockSequenceId := {}, map[], map[], map[], 1;
      failedValid, failedChild, candidates, unlinked, tip := {}, {}, {}, [], NoBlock;
    }

    predicate Failed(b: Block)
      reads this
    {
      b in failedValid || b in failedChild
    }

    // ----- receiving blocks

    /** Moves the blocks that wait for `p` out of the multimap. */
    method TakeChildren(p: Block) returns (children: seq<Block>)
      modifies this`unlinked
      ensures children == ChildrenOf(old(unlinked), p) && unlinked == Without(old(unlinked), p)
    {
      hide ChildrenOf, Without;
      var all, rest: seq<(Block, Block)> := unlinked, [];
      children := [];
      assert all[0..] == all;
      for i := 0 to |all|
        invariant unlinked == all
        invariant ChildrenOf(all, p) == children + ChildrenOf(all[i..], p)
        invariant Without(all, p) == rest + Without(all[i..], p)
      {
        WaitingStep(all, i, p);
        if all[i].0 == p {
          children := children + [all[i].1];
        } else {
          rest := rest + [all[i]];
        }
      }
      assert all[|all|..] == [];
      NoneWaiting(p);
      unlinked := rest;
    }

    /** Gives one block its `nChainTx` and its sequence number, and offers it as a candidate. */
    method LinkOne(b: Block) returns (children: seq<Block>)
      requires b != NoBlock && b in nTx && (b.prev != NoBlock ==> b.prev in nChainTx) && (tip != NoBlock ==> tip in nSequenceId)
      modifies this
      ensures View() == old(View().Link(b, (if b.prev != NoBlock then nChainTx[b.prev] else 0) + nTx[b]))
      ensures children == old(ChildrenOf(unlinked, b)) && nTx == old(nTx) && best == old(best)
    {
      nChainTx := nChainTx[b := (if b.prev != NoBlock then nChainTx[b.prev] else 0) + nTx[b]];
      nSequenceId := nSequenceId[b := nBlockSequenceId];
      nBlockSequenceId := nBlockSequenceId + 1;
      if tip == NoBlock || !Worse(nSequenceId, b, tip) {
        candidates := candidates + {b};
      }
      children := TakeChildren(b);
    }

    ghost predicate Linking(queue: seq<Block>)
      reads this
    {
      View().Linking(valid, best, queue) && Counted(nTx, nChainTx) && forall b :: b in haveData ==> b in nTx && nTx[b] > 0
    }

    /** One turn of the loop in `ReceivedBlockTransactions`. */
    method LinkFront(queue: seq<Block>) returns (queue': seq<Block>)
      requires Linking(queue) && queue != []
      modifies this
      ensures Linking(queue') && nTx == old(nTx) && best == old(best) && haveData == old(haveData)
      ensures nChainTx.Keys == old(nChainTx.Keys) + {queue[0]} && queue[0] !in old(nChainTx) && queue[0] in haveData
      ensures old(View()).ExtendedBy(View())
    {
      hide State.Linking, State.ExtendedBy, Counted;
      ghost var b, before := queue[0], View();
      before.LinkingFront(valid, best, queue);
      ghost var n := (if b.prev != NoBlock then nChainTx[b.prev] else 0) + nTx[b];
      before.LinkKeepsLinking(valid, best, queue, n);
      CountedFront(queue);
      var children := LinkOne(queue[0]);
      queue' := queue[1..] + children;
    }

    lemma CountedFront(queue: seq<Block>)
      requires Linking(queue) && queue != []
      ensures var b := queue[0];
        && b in nTx && b !in nChainTx && b != NoBlock && (b.prev == NoBlock || b.prev in nChainTx)
        && Counted(nTx, nChainTx[b := (if b.prev != NoBlock then nChainTx[b.prev] else 0) + nTx[b]])
    {
      View().LinkingFront(valid, best, queue);
      CountedLinked(View(), nTx, queue[0]);
    }

    /** `ReceivedBlockTransactions`: the data of a block arrives; it and whatever waited for it are
        linked, in breadth-first order, or it waits for its parent in turn. */
    method ReceivedBlockTransactions(b: Block, nTxIn: nat)
      requires Ready() && b != NoBlock && b !in haveData && nTxIn > 0
      modifies this
      ensures Ready() && haveData == old(haveData) + {b} && nTx == old(nTx)[b := nTxIn]
      ensures old(View()).(haveData := haveData).ExtendedBy(View())
    {
      hide State.Inv, State.Linking, State.ExtendedBy, State.Settled, Counted;
      ghost var before := View();
      before.ReceiveKeeps(valid, best, b);
      CountedBefore(b, nTxIn);
      haveData := haveData + {b};
      nTx := nTx[b := nTxIn];
      if b.prev == NoBlock || b.prev in nChainTx {
        LinkAll([b]);
      } else if !Failed(b.prev) {
        unlinked := unlinked + [(b.prev, b)];
      }
    }

    lemma CountedBefore(b: Block, n: nat)
      requires Ready() && b !in haveData
      ensures Counted(nTx[b := n], nChainTx)
    {
      CountedReceived(View(), nTx, b, n);
    }

    method LinkAll(start: seq<Block>)
      requires Linking(start)
      modifies this
      ensures Ready() && old(View()).ExtendedBy(View()) && nTx == old(nTx) && haveData == old(haveData)
    {
      hide State.Linking, State.ExtendedBy, Counted;
      var queue := start;
      ExtendedBySelf(View());
      while queue != []
        invariant Linking(queue) && old(View()).ExtendedBy(View()) && nTx == old(nTx) && haveData == old(haveData)
        decreases |haveData - nChainTx.Keys|
      {
        ghost var mid, front, was := View(), queue[0], queue;
        queue := LinkFront(queue);
        ExtendedAgain(old(View()), mid, View(), valid, best, was);
        Shrinks(haveData, mid.nChainTx.Keys, nChainTx.Keys, front);
      }
      LinkingDone(View(), valid, best);
    }

    /** `AcceptBlock`, and `ActivateBestChain` if the block was accepted.  `fChecked` is the outcome of the
        checks that need no context, `fContext` that of those made before a block is stored; a block
        that can be connected passes both. */
    method ProcessNewBlock(b: Block, nTxIn: nat, fChecked: bool, fContext: bool) returns (accepted: bool)
      requires Ready() && View().TipIsBest(valid)
      requires b != NoBlock && nTxIn > 0 && (valid(b) ==> fChecked && fContext)
      modifies this
      ensures Ready() && View().TipIsBest(valid)
      ensures accepted == old(fChecked && (b.prev != NoBlock ==> !Failed(b.prev)) && !Failed(b) && (b in haveData || fContext))
      ensures AllValid(valid, b) ==> accepted
      ensures tip == old(tip) || old(tip) == NoBlock || ChainWork(tip) > ChainWork(old(tip))
      ensures haveData == if accepted then old(haveData) + {b} else old(haveData)
      ensures !accepted ==>
        View() == old(View().(failedValid := failedValid +
          if fChecked && (b.prev != NoBlock ==> !Failed(b.prev)) && !Failed(b) then {b} else {}))
    {
      hide Counted, State.Inv, State.ExtendedBy, State.TipIsBest;
      ghost var before, best0 := View(), best;
      if AllValid(valid, b) {
        NotFailed(b);
      }
      if !fChecked || (b.prev != NoBlock && Failed(b.prev)) || Failed(b) {
        return false;
      }
      if b !in haveData {
        if !fContext {
          View().FlagUnseen(valid, best, b);
          failedValid := failedValid + {b};
          return false;
        }
        ReceivedBlockTransactions(b, nTxIn);
      } else {
        ExtendedBySelf(before);
      }
      ghost var received := View();
      ActivateBestChain();
      accepted := true;
      TipKept(before, best0, received, View(), best);
    }

    lemma TipKept(before: State, best0: Block, received: State, after: State, best1: Block)
      requires before.Inv(valid, best0) && before.TipIsBest(valid) && after.Inv(valid, best1) && after.TipIsBest(valid)
      requires before.(haveData := received.haveData).ExtendedBy(received) && before.haveData <= received.haveData
      requires after == received.(failedValid := after.failedValid, failedChild := after.failedChild, candidates := after.candidates, tip := after.tip)
      ensures after.tip == before.tip || before.tip == NoBlock || ChainWork(after.tip) > ChainWork(before.tip)
    {
      before.TipOnlyForMoreWork(valid, after);
    }

    /** No block that is valid down to genesis is flagged, nor its parent. */
    lemma NotFailed(b: Block)
      requires Valid() && AllValid(valid, b)
      ensures !Failed(b) && (b.prev != NoBlock ==> !Failed(b.prev))
    {
    }

    // ----- finding the best candidate

    /** Flags the blocks from `top` down to a failed ancestor and drops them from the candidates. */
    method MarkFailedChain(top: Block, bad: Block)
      requires Valid() && Failed(bad) && IsAncestor(bad, top)
      modifies this`failedChild, this`candidates
      ensures Valid()
      ensures failedChild == old(failedChild) + Above(bad, top)
      ensures candidates == old(candidates) - Above(bad, top) - {bad} && top !in candidates
    {
      hide State.Inv;
      var pindexFailed := top;
      while pindexFailed != bad
        invariant Valid() && Failed(bad) && IsAncestor(bad, pindexFailed)
        invariant failedChild + Above(bad, pindexFailed) == old(failedChild) + Above(bad, top)
        invariant candidates - Above(bad, pindexFailed) == old(candidates) - Above(bad, top)
        invariant pindexFailed == top || top !in candidates
        decreases Height(pindexFailed)
      {
        View().ChildKeepsInv(valid, best, pindexFailed, bad);
        failedChild := failedChild + {pindexFailed};
        candidates := candidates - {pindexFailed};
        pindexFailed := pindexFailed.prev;
      }
      View().ChildKeepsInv(valid, best, bad, bad);
      candidates := candidates - {bad};
    }

    /** Walks down from a candidate until the active chain, or a failed block, is met. */
    method FailedAncestor(pindexNew: Block) returns (fInvalidAncestor: bool, pindexTest: Block)
      requires View().Links() && pindexNew in nChainTx
      ensures fInvalidAncestor ==> Failed(pindexTest) && IsAncestor(pindexTest, pindexNew)
      ensures !fInvalidAncestor ==> forall x :: IsAncestor(x, pindexNew) && !IsAncestor(x, tip) ==> !Failed(x)
    {
      pindexTest, fInvalidAncestor := pindexNew, false;
      while pindexTest != NoBlock && !IsAncestor(pindexTest, tip)
        invariant pindexTest == NoBlock || (IsAncestor(pindexTest, pindexNew) && pindexTest in nChainTx)
        invariant forall x :: IsAncestor(x, pindexNew) ==> (pindexTest != NoBlock && IsAncestor(x, pindexTest)) || !Failed(x)
        decreases Height(pindexTest)
      {
        assert pindexTest in nChainTx;         // the source's assertion
        var fFailedChain := Failed(pindexTest);
        var fMissingData := pindexTest !in haveData;
        assert !fMissingData;                  // linked blocks have their data
        if fFailedChain {
          return true, pindexTest;
        }
        ghost var p := pindexTest;
        pindexTest := pindexTest.prev;
        if pindexTest != NoBlock {
          AncestorTransitive(pindexTest, p, pindexNew);
        }
      }
      forall x | IsAncestor(x, pindexNew) && !IsAncestor(x, tip) ensures !Failed(x) {
        if pindexTest != NoBlock && IsAncestor(x, pindexTest) {
          AncestorTransitive(x, pindexTest, tip);
        }
      }
    }

    /** Whatever is dropped is flagged by now, and what was not flagged before has a flagged parent. */
    ghost predicate FlaggedOnly(before: State, after: State) {
      && before.failedChild <= after.failedChild && after.candidates <= before.candidates
      && (forall c :: c in before.candidates && c !in after.candidates ==> after.Failed(c))
      && (forall x :: x in after.failedChild && x !in before.failedChild ==> x != NoBlock && x.prev != NoBlock && after.Failed(x.prev))
    }

    lemma MoreFlagged(before: State, mid: State, after: State, bad: Block, top: Block)
      requires FlaggedOnly(before, mid) && IsAncestor(bad, top) && mid.Failed(bad)
      requires after == mid.(failedChild := mid.failedChild + Above(bad, top), candidates := mid.candidates - Above(bad, top) - {bad})
      ensures FlaggedOnly(before, after)
    {
      AboveExactly(bad, top);
    }

    /** `FindMostWorkChain`: the greatest candidate with no failed block between it and the active
        chain.  Candidates above a failed block are flagged and dropped on the way. */
    method FindMostWorkChain() returns (pindexNew: Block)
      requires Valid()
      modifies this`failedChild, this`candidates
      ensures Valid()
      ensures pindexNew == NoBlock ==> candidates == {}
      ensures pindexNew != NoBlock ==> IsGreatest(nSequenceId, candidates, pindexNew)
      ensures pindexNew != NoBlock ==>
        forall x :: IsAncestor(x, pindexNew) ==> x in nChainTx && (IsAncestor(x, tip) || !Failed(x))
      ensures FlaggedOnly(old(View()), View())
    {
      ghost var before := View();
      assert FlaggedOnly(before, before);
      hide FlaggedOnly, Above;
      while true
        invariant Valid() && FlaggedOnly(before, View())
        decreases candidates
      {
        if candidates == {} {
          return NoBlock;
        }
        ghost var g := GreatestExists(nSequenceId, candidates);
        pindexNew :| pindexNew in candidates && IsGreatest(nSequenceId, candidates, pindexNew);
        var fInvalidAncestor, pindexTest := FailedAncestor(pindexNew);
        if !fInvalidAncestor {
          forall x | IsAncestor(x, pindexNew) ensures x in nChainTx {
            View().LinkedBelow(x, pindexNew);
          }
          return;
        }
        ghost var mid := View();
        MarkFailedChain(pindexNew, pindexTest);
        MoreFlagged(before, mid, View(), pindexTest, pindexNew);
      }
    }

    // ----- moving the tip

    /** `PruneBlockIndexCandidates`: erases from the bottom of the order all candidates worse than the tip. */
    method PruneBlockIndexCandidates()
      requires View().Links() && tip in nChainTx
      requires exists c :: c in candidates && !Worse(nSequenceId, c, tip)
      modifies this`candidates
      ensures candidates == set c | c in old(candidates) && !Worse(nSequenceId, c, tip)
    {
      while candidates != {}
        invariant candidates <= old(candidates)
        invariant forall c :: c in old(candidates) && !Worse(nSequenceId, c, tip) ==> c in candidates
        decreases |candidates|
      {
        ghost var l := LeastExists(nSequenceId, candidates);
        var it :| it in candidates && IsLeast(nSequenceId, candidates, it);
        if !Worse(nSequenceId, it, tip) {
          LeastNotWorse(nSequenceId, candidates, it, tip);
          break;
        }
        candidates := candidates - {it};
      }
      assert candidates != {};                 // the source's assertion
    }

    method DisconnectTip()
      requires Valid() && tip != NoBlock
      modifies this`tip
      ensures Valid() && tip == old(tip).prev
    {
      View().DisconnectKeepsInv(valid, best);
      tip := tip.prev;
    }

    /** `ConnectTip`: if the block fails, `InvalidBlockFound` flags it and drops it. */
    method ConnectTip(b: Block) returns (ok: bool)
      requires Valid() && b in nChainTx && b.prev == tip
      modifies this`tip, this`failedValid, this`candidates
      ensures ok == valid(b)
      ensures ok ==> View() == old(View()).(tip := b)
      ensures !ok ==> View() == old(View()).(failedValid := old(failedValid) + {b}, candidates := old(candidates) - {b}) && Valid()
    {
      if !valid(b) {
        View().InvalidKeepsInv(valid, best, b);
        failedValid := failedValid + {b};
        candidates := candidates - {b};
        return false;
      }
      tip := b;
      ok := true;
    }

    /** A successful `ConnectTip` and the pruning that follows it. */
    method ConnectAndPrune(b: Block) returns (ok: bool)
      requires Valid() && b in nChainTx && b.prev == tip
      modifies this
      ensures Valid() && ok == valid(b)
      ensures haveData == old(haveData) && nTx == old(nTx) && nChainTx == old(nChainTx) && nSequenceId == old(nSequenceId)
      ensures nBlockSequenceId == old(nBlockSequenceId) && failedChild == old(failedChild) && unlinked == old(unlinked)
      ensures candidates <= old(candidates)
      ensures ok ==> tip == b && failedValid == old(failedValid)
      ensures !ok ==> tip == old(tip) && failedValid == old(failedValid) + {b}
    {
      hide State.Inv, State.Links;
      ghost var before := View();
      ok := ConnectTip(b);
      if ok {
        ghost var best' := before.ConnectNext(valid, best, b);
        assert View() == before.(tip := b);
        PruneBlockIndexCandidates();
        best := best';
      }
    }

    /** The fields no step of activation touches. */
    ghost predicate SameTree(before: State)
      reads this
    {
      && haveData == before.haveData && nChainTx == before.nChainTx && nSequenceId == before.nSequenceId
      && nBlockSequenceId == before.nBlockSequenceId && unlinked == before.unlinked
    }

    /** Rolls the chain back to the fork point. */
    method DisconnectTo(fork: Block)
      requires Valid() && (fork == NoBlock || IsAncestor(fork, tip))
      modifies this`tip
      ensures Valid() && tip == fork
    {
      while tip != NoBlock && tip != fork
        invariant Valid() && (fork == NoBlock || IsAncestor(fork, tip))
        decreases Height(tip)
      {
        DisconnectTip();
      }
    }

    /** The blocks between two heights below `pindexMostWork`, highest first. */
    method ListToConnect(pindexMostWork: Block, nHeight: int, nTargetHeight: int) returns (vpindexToConnect: seq<Block>)
      requires -1 <= nHeight < nTargetHeight <= Height(pindexMostWork)
      ensures |vpindexToConnect| == nTargetHeight - nHeight
      ensures forall i :: 0 <= i < |vpindexToConnect| ==> vpindexToConnect[i] == AncestorAt(pindexMostWork, nTargetHeight - i)
    {
      vpindexToConnect := [];
      var pindexIter := AncestorAt(pindexMostWork, nTargetHeight);
      while pindexIter != NoBlock && Height(pindexIter) != nHeight
        invariant nHeight <= Height(pindexIter) <= nTargetHeight && |vpindexToConnect| == nTargetHeight - Height(pindexIter)
        invariant Height(pindexIter) >= 0 ==> pindexIter == AncestorAt(pindexMostWork, Height(pindexIter))
        invariant forall i :: 0 <= i < |vpindexToConnect| ==> vpindexToConnect[i] == AncestorAt(pindexMostWork, nTargetHeight - i)
        decreases Height(pindexIter)
      {
        vpindexToConnect := vpindexToConnect + [pindexIter];
        AncestorPrev(pindexMostWork, Height(pindexIter));
        pindexIter := pindexIter.prev;
      }
    }

    /** Connects one batch in order of height, until a block fails or the old tip is beaten. */
    method ConnectBatch(pindexMostWork: Block, pindexOldTip: Block, vpindexToConnect: seq<Block>, nTargetHeight: int)
      returns (fContinue: bool, fInvalidFound: bool)
      requires Valid() && nTargetHeight <= Height(pindexMostWork)
      requires -1 <= nTargetHeight - |vpindexToConnect| && tip == AncestorAt(pindexMostWork, nTargetHeight - |vpindexToConnect|)
      requires forall i :: 0 <= i < |vpindexToConnect| ==>
        && vpindexToConnect[i] == AncestorAt(pindexMostWork, nTargetHeight - i)
        && vpindexToConnect[i] in nChainTx && vpindexToConnect[i] !in failedValid
      modifies this
      ensures Valid() && SameTree(old(View())) && nTx == old(nTx) && failedChild == old(failedChild)
      ensures candidates <= old(candidates)
      ensures fInvalidFound ==> !fContinue && exists b :: b in nChainTx && b !in old(failedValid) && failedValid == old(failedValid) + {b}
      ensures !fInvalidFound ==> failedValid == old(failedValid)
      ensures fContinue ==> tip == AncestorAt(pindexMostWork, nTargetHeight)
      ensures !fContinue && !fInvalidFound ==>
        tip != NoBlock && (pindexOldTip == NoBlock || ChainWork(tip) > ChainWork(pindexOldTip))
    {
      hide Valid;
      fContinue, fInvalidFound := true, false;
      var i := |vpindexToConnect|;
      while i > 0
        invariant 0 <= i <= |vpindexToConnect| && tip == AncestorAt(pindexMostWork, nTargetHeight - i)
        invariant Valid() && SameTree(old(View())) && nTx == old(nTx) && failedChild == old(failedChild)
        invariant candidates <= old(candidates) && failedValid == old(failedValid)
      {
        i := i - 1;
        var pindexConnect := vpindexToConnect[i];
        AncestorPrev(pindexMostWork, nTargetHeight - i);
        var ok := ConnectAndPrune(pindexConnect);
        if !ok {
          return false, true;
        }
        if pindexOldTip == NoBlock || ChainWork(tip) > ChainWork(pindexOldTip) {
          return false, false;
        }
      }
    }

    /** `ActivateBestChainStep`.  It either finds a bad block that was not known to be bad, or reaches
        the target, or at least gets past the old tip. */
    method ActivateBestChainStep(pindexMostWork: Block)
      requires Valid() && pindexMostWork != NoBlock
      requires forall x :: IsAncestor(x, pindexMostWork) ==> x in nChainTx && (IsAncestor(x, tip) || !Failed(x))
      modifies this
      ensures Valid() && SameTree(old(View())) && nTx == old(nTx) && failedChild == old(failedChild)
      ensures candidates <= old(candidates)
      ensures || (exists b :: b in nChainTx && b !in old(failedValid) && failedValid == old(failedValid) + {b})
              || (failedValid == old(failedValid) &&
                  (tip == pindexMostWork || (tip != NoBlock && (old(tip) == NoBlock || ChainWork(tip) > ChainWork(old(tip))))))
    {
      hide Valid;
      var pindexOldTip := tip;
      var pindexFork := Fork(pindexMostWork, tip);
      ForkIsHighest(pindexMostWork, tip, NoBlock);
      DisconnectTo(pindexFork);
      var fContinue, fInvalidFound := true, false;
      var nHeight := Height(pindexFork);
      if pindexFork != NoBlock {
        AncestorIffAt(pindexFork, pindexMostWork);
      }
      while fContinue && nHeight != Height(pindexMostWork)
        invariant Valid() && SameTree(old(View())) && nTx == old(nTx) && failedChild == old(failedChild)
        invariant candidates <= old(candidates)
        invariant Height(pindexFork) <= nHeight <= Height(pindexMostWork)
        invariant fInvalidFound ==> !fContinue && exists b :: b in nChainTx && b !in old(failedValid) && failedValid == old(failedValid) + {b}
        invariant !fInvalidFound ==> failedValid == old(failedValid)
        invariant fContinue ==> tip == AncestorAt(pindexMostWork, nHeight)
        invariant !fContinue && !fInvalidFound ==>
          tip != NoBlock && (pindexOldTip == NoBlock || ChainWork(tip) > ChainWork(pindexOldTip))
        decreases fContinue, Height(pindexMostWork) - nHeight
      {
        var nTargetHeight := if nHeight + 32 < Height(pindexMostWork) then nHeight + 32 else Height(pindexMostWork);
        var vpindexToConnect := ListToConnect(pindexMostWork, nHeight, nTargetHeight);
        forall i | 0 <= i < |vpindexToConnect| ensures vpindexToConnect[i] in nChainTx && vpindexToConnect[i] !in failedValid {
          NewOnPath(pindexMostWork, pindexOldTip, nTargetHeight - i, nChainTx.Keys, old(failedValid) + old(failedChild));
        }
        nHeight := nTargetHeight;
        fContinue, fInvalidFound := ConnectBatch(pindexMostWork, pindexOldTip, vpindexToConnect, nTargetHeight);
      }
    }

    /** A greatest candidate that becomes the tip is still a candidate, so still the greatest. */
    lemma TargetStaysGreatest(before: set<Block>, target: Block)
      requires Valid() && Numbered(nSequenceId, before) && IsGreatest(nSequenceId, before, target)
      requires candidates <= before && tip == target
      ensures IsGreatest(nSequenceId, candidates, tip)
    {
      assert best in candidates ==> best in before;
    }

    lemma Finish()
      requires Valid() && if tip == NoBlock then candidates == {} else IsGreatest(nSequenceId, candidates, tip)
      ensures View().TipIsBest(valid) && View().Inv(valid, tip) && View().Settled(tip)
    {
      View().GreatestTipIsBest(valid, best);
      View().TipAnchors(valid, best);
    }

    /** An empty candidate set means that there is no tip either. */
    lemma NoCandidates()
      requires Valid() && candidates == {}
      ensures tip == NoBlock
    {
    }

    /** `ActivateBestChain`: terminates, and leaves the best block there is as the tip. */
    method ActivateBestChain()
      requires Ready()
      modifies this
      ensures Ready() && View().TipIsBest(valid)
      ensures SameTree(old(View())) && nTx == old(nTx)
    {
      hide Valid, Counted;
      var pindexMostWork := NoBlock;
      while true
        invariant Valid() && SameTree(old(View())) && nTx == old(nTx)
        decreases View().Unflagged(), |View().BetterThanTip()|
      {
        pindexMostWork := FindMostWorkChain();
        if pindexMostWork == NoBlock || pindexMostWork == tip {
          break;
        }
        ActivateTowards(pindexMostWork);
        if pindexMostWork == tip {
          break;
        }
      }
      if pindexMostWork == NoBlock {
        NoCandidates();
      }
      Anchor();
    }

    /** One step, with what the loop around it needs to know. */
    method ActivateTowards(pindexMostWork: Block)
      requires Valid() && pindexMostWork != NoBlock && IsGreatest(nSequenceId, candidates, pindexMostWork)
      requires forall x :: IsAncestor(x, pindexMostWork) ==> x in nChainTx && (IsAncestor(x, tip) || !Failed(x))
      modifies this
      ensures Valid() && SameTree(old(View())) && nTx == old(nTx)
      ensures tip == pindexMostWork ==> IsGreatest(nSequenceId, candidates, tip)
      ensures || tip == pindexMostWork || View().Unflagged() < old(View().Unflagged())
              || (View().Unflagged() == old(View().Unflagged()) && |View().BetterThanTip()| < |old(View().BetterThanTip())|)
    {
      ghost var before := View();
      ActivateBestChainStep(pindexMostWork);
      if pindexMostWork == tip {
        TargetStaysGreatest(before.candidates, pindexMostWork);
      } else {
        before.ActivationProgress(View());
      }
    }

    /** From here on the tip itself is the block the invariant speaks of. */
    ghost method Anchor()
      requires Valid() && if tip == NoBlock then candidates == {} else IsGreatest(nSequenceId, candidates, tip)
      requires Counted(nTx, nChainTx)
      modifies this`best
      ensures Ready() && View().TipIsBest(valid)
    {
      Finish();
      best := tip;
    }
  }
}
