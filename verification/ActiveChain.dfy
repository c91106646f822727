/** The active chain (`CChain`, src/chain.h and src/chain.cpp) and the search for a fork point from a
    locator (src/main.cpp). */
module ActiveChain {
  import opened Basics
  import opened BlockTree
  import opened SkipList

  lemma PathPrev(b: Block, h: int)
    requires 0 < h <= Height(b)
    ensures Path(b)[h - 1] == Path(b)[h].prev && Height(Path(b)[h]) == h
  {
    PathAt(b, h);
    PathAt(b, h - 1);
    AncestorOfAncestor(b, h, h - 1);
  }

  /** Two paths that meet at one height agree below it. */
  lemma {:induction false} SamePathBelow(a: Block, b: Block, h: int)
    requires 0 <= h <= Height(a) && h <= Height(b) && Path(a)[h] == Path(b)[h]
    ensures forall i :: 0 <= i <= h ==> Path(a)[i] == Path(b)[i]
  {
    if h > 0 {
      PathPrev(a, h);
      PathPrev(b, h);
      SamePathBelow(a, b, h - 1);
    }
  }

  /** Whether an index lookup finds the block where its height says it should be. */
  predicate InPath(vChain: seq<Block>, b: Block)
    requires b != NoBlock
  {
    Height(b) < |vChain| && vChain[Height(b)] == b
  }

  lemma InPathIffAncestor(tip: Block, b: Block)
    requires b != NoBlock
    ensures InPath(Path(tip), b) <==> IsAncestor(b, tip)
  {
    AncestorIffAt(b, tip);
    if Height(b) <= Height(tip) {
      PathAt(tip, Height(b));
    }
  }

  /** The first block met on the way down from `b` that also lies below `tip`. */
  function Fork(b: Block, tip: Block): Block {
    if b == NoBlock || IsAncestor(b, tip) then b else Fork(b.prev, tip)
  }

  /** It is the highest block the two have in common, and there is none only if they have none. */
  lemma {:induction false} ForkIsHighest(b: Block, tip: Block, x: Block)
    ensures Fork(b, tip) != NoBlock ==> IsAncestor(Fork(b, tip), b) && IsAncestor(Fork(b, tip), tip)
    ensures IsAncestor(x, b) && IsAncestor(x, tip) ==> Fork(b, tip) != NoBlock && Height(x) <= Height(Fork(b, tip))
  {
    if b != NoBlock {
      if IsAncestor(b, tip) {
        if IsAncestor(x, b) {
          AncestorIffAt(x, b);
        }
      } else {
        ForkIsHighest(b.prev, tip, x);
      }
    }
  }

  /** Blocks above the height of `tip` cannot lie below it, so the search may skip them. */
  lemma {:induction false} ForkFromHeight(b: Block, tip: Block)
    requires Height(b) > Height(tip)
    ensures Fork(b, tip) == Fork(AncestorAt(b, Height(tip)), tip)
  {
    AncestorIffAt(b, tip);
    if Height(b.prev) > Height(tip) {
      ForkFromHeight(b.prev, tip);
    }
  }

  /** Two chains that agree up to the height of `b` share the same of it. */
  lemma {:induction false} ForkSameBelow(b: Block, s: Block, t: Block)
    requires forall x :: Height(x) <= Height(b) ==> (IsAncestor(x, s) <==> IsAncestor(x, t))
    ensures Fork(b, s) == Fork(b, t)
  {
    if b != NoBlock {
      ForkSameBelow(b.prev, s, t);
    }
  }

  /** Cutting a chain down to a height leaves what lies below. */
  lemma CutKeepsBelow(b: Block, h: int)
    requires 0 <= h <= Height(b)
    ensures forall x :: Height(x) <= h ==> (IsAncestor(x, AncestorAt(b, h)) <==> IsAncestor(x, b))
  {
    forall x | Height(x) <= h ensures IsAncestor(x, AncestorAt(b, h)) <==> IsAncestor(x, b) {
      if x != NoBlock {
        AncestorIffAt(x, b);
        AncestorIffAt(x, AncestorAt(b, h));
        AncestorOfAncestor(b, h, Height(x));
      }
    }
  }

  /** One step down on both sides. */
  lemma ForkBothDown(a: Block, b: Block)
    requires a != b && a != NoBlock && b != NoBlock && Height(a) == Height(b)
    ensures Fork(a, b) == Fork(a.prev, b.prev)
  {
    AncestorIffAt(a, b);
    if b.prev != NoBlock {
      CutKeepsBelow(b, Height(b.prev));
    }
    ForkSameBelow(a.prev, b, b.prev);
  }

  /** `LastCommonAncestor`: the highest block that both have below them, or none; the assertion that
      the two walks meet holds. */
  method LastCommonAncestor(index: CBlockIndexMap, pa: Block, pb: Block) returns (r: Block)
    requires pa != NoBlock && pb != NoBlock && SkipsBuilt(index.pskip, pa) && SkipsBuilt(index.pskip, pb)
    ensures r == Fork(pa, pb)
    ensures r != NoBlock ==> IsAncestor(r, pa) && IsAncestor(r, pb)
    ensures forall x :: IsAncestor(x, pa) && IsAncestor(x, pb) ==> r != NoBlock && Height(x) <= Height(r)
  {
    hide Fork;
    var a, b := pa, pb;
    ghost var steps;
    if Height(a) > Height(b) {
      a, steps := index.GetAncestor(a, Height(b));
      ForkFromHeight(pa, pb);
    } else if Height(b) > Height(a) {
      b, steps := index.GetAncestor(b, Height(a));
      CutKeepsBelow(pb, Height(pa));
      ForkSameBelow(pa, pb, b);
    }
    while a != b && a != NoBlock && b != NoBlock
      invariant Height(a) == Height(b) && Fork(a, b) == Fork(pa, pb)
      decreases Height(a)
    {
      ForkBothDown(a, b);
      a, b := a.prev, b.prev;
    }
    assert a == b;
    ForkSelf(a);
    r := a;
    forall x ensures IsAncestor(x, pa) && IsAncestor(x, pb) ==> r != NoBlock && Height(x) <= Height(r) {
      ForkIsHighest(pa, pb, x);
    }
    ForkIsHighest(pa, pb, NoBlock);
  }

  lemma ForkSelf(a: Block)
    ensures Fork(a, a) == a
  {
  }

  lemma {:induction false} Pow2Bits(k: nat, n: nat)
    requires Pow2(k) <= n
    ensures k < BitLength(n)
  {
    if k > 0 {
      Pow2Bits(k - 1, n / 2);
    }
  }

  /** How far below entry `i` of a locator the next one is, genesis permitting: one block for the
      first eleven, then twice as far each time. */
  function Gap(i: nat): nat {
    Pow2(if i > 10 then i - 10 else 0)
  }

  lemma GapExactly(i: nat)
    ensures i <= 10 ==> Gap(i) == 1
    ensures i >= 10 ==> Gap(i + 1) == 2 * Gap(i)
  {
  }

  function Lower(h: int, nStep: int): int {
    if h - nStep > 0 then h - nStep else 0
  }

  /** The blocks a locator of `start` lists: ancestors at these distances, down to genesis. */
  ghost predicate IsLocator(blocks: seq<Block>, start: Block) {
    && |blocks| > 0 && blocks[0] == start
    && (forall i :: 0 <= i < |blocks| ==> IsAncestor(blocks[i], start))
    && (forall i :: 0 <= i < |blocks| - 1 ==> Height(blocks[i + 1]) < Height(blocks[i]))
    && (forall i :: 0 <= i < |blocks| - 1 ==> Height(blocks[i + 1]) == Lower(Height(blocks[i]), Gap(i)))
    && Height(blocks[|blocks| - 1]) == 0
  }

  /** The entries so far, all above `p`, which comes next. */
  ghost predicate Listed(blocks: seq<Block>, vHave: seq<nat>, start: Block, p: Block) {
    && |vHave| == |blocks|
    && (forall i :: 0 <= i < |blocks| ==> IsAncestor(blocks[i], start) && vHave[i] == blocks[i].hash)
    && (forall i :: 0 <= i < |blocks| - 1 ==> Height(blocks[i + 1]) < Height(blocks[i]))
    && (forall i :: 0 <= i < |blocks| - 1 ==> Height(blocks[i + 1]) == Lower(Height(blocks[i]), Gap(i)))
    && (if blocks == [] then p == start
        else
          var last := Height(blocks[|blocks| - 1]);
          blocks[0] == start && Height(p) < last && Height(p) == Lower(last, Gap(|blocks| - 1)))
  }

  lemma ListedNext(blocks: seq<Block>, vHave: seq<nat>, start: Block, p: Block, next: Block)
    requires Listed(blocks, vHave, start, p) && IsAncestor(p, start)
    requires Height(next) < Height(p) && Height(next) == Lower(Height(p), Gap(|blocks|))
    ensures Listed(blocks + [p], vHave + [p.hash], start, next)
  {
    hide Gap, Lower, IsAncestor;
    var more := blocks + [p];
    assert forall i :: 0 <= i < |blocks| ==> more[i] == blocks[i];
  }

  /** How far down a locator has come when `n` entries are listed: one block at a time for the first
      eleven, then doubling. */
  ghost predicate FarDown(n: nat, nStep: int, h: int, start: int) {
    && nStep == Gap(n)
    && (h > 0 && n <= 10 ==> h == start - n)
    && (h > 0 && n > 10 ==> h + Pow2(n - 10) + 9 <= start)
  }

  lemma FarDownNext(n: nat, nStep: int, h: int, start: int)
    requires FarDown(n, nStep, h, start) && 0 < h <= start && n <= 11 + BitLength(start)
    ensures FarDown(n + 1, if n + 1 > 10 then nStep * 2 else nStep, Lower(h, nStep), start) && n + 1 <= 11 + BitLength(start)
    ensures nStep > 0
  {
    if n > 10 {
      Pow2Bits(n - 10, start);
    }
  }

  lemma StepIsGap(n: nat, nStep: int, h: int, start: int)
    requires FarDown(n, nStep, h, start)
    ensures nStep == Gap(n)
  {
  }

  /** A chain vector cut or padded to another length. */
  ghost predicate Resized(resized: seq<Block>, before: seq<Block>) {
    forall i :: 0 <= i < |resized| ==> resized[i] == if i < |before| then before[i] else NoBlock
  }

  /** Entries above `h` are as wanted, the others as they were. */
  ghost predicate Filled(now: seq<Block>, resized: seq<Block>, want: seq<Block>, h: int) {
    && |now| == |resized| == |want|
    && (forall i :: 0 <= i <= h < |now| ==> now[i] == resized[i])
    && (forall i :: h < i < |now| && 0 <= i ==> now[i] == want[i])
  }

  lemma FilledNext(now: seq<Block>, resized: seq<Block>, want: seq<Block>, h: nat)
    requires Filled(now, resized, want, h) && h < |now|
    ensures Filled(now[h := want[h]], resized, want, h - 1)
  {
  }

  lemma AllFilled(now: seq<Block>, resized: seq<Block>, want: seq<Block>, h: int)
    requires Filled(now, resized, want, h) && h < |now| && forall i :: 0 <= i <= h ==> resized[i] == want[i]
    ensures now == want
  {
    assert forall i :: 0 <= i < |now| ==> now[i] == want[i];
  }

  /** An entry found right has only right ones below it. */
  lemma FillDone(now: seq<Block>, resized: seq<Block>, pindex: Block, tip: Block, p: Block)
    requires Filled(now, resized, Path(pindex), Height(p)) && Resized(resized, Path(tip)) && Height(p) <= Height(pindex)
    requires p != NoBlock ==> now[Height(p)] == p == Path(pindex)[Height(p)]
    ensures now == Path(pindex)
  {
    hide Path;
    var h := Height(p);
    if p != NoBlock {
      ResizedBelow(now, resized, Path(pindex), Path(tip), h);
      SamePathBelow(tip, pindex, h);
    }
    assert h < |now|;
    hide Filled, Resized;
    AllFilled(now, resized, Path(pindex), h);
  }

  /** Below an entry that holds a block nothing was padded. */
  lemma ResizedBelow(now: seq<Block>, resized: seq<Block>, want: seq<Block>, before: seq<Block>, h: int)
    requires Filled(now, resized, want, h) && Resized(resized, before) && 0 <= h < |now| && now[h] != NoBlock
    ensures h < |before| && now[h] == resized[h] && forall i :: 0 <= i <= h ==> resized[i] == before[i]
  {
    assert resized[h] == now[h];
  }

  /** A locator at its start and at its end. */
  lemma LocatorStart(start: Block)
    requires start != NoBlock
    ensures Listed([], [], start, start) && FarDown(0, 1, Height(start), Height(start)) && IsAncestor(start, start)
  {
  }

  lemma LocatorEnd(blocks: seq<Block>, vHave: seq<nat>, start: Block, p: Block)
    requires Listed(blocks, vHave, start, p) && IsAncestor(p, start) && Height(p) == 0
    ensures IsLocator(blocks + [p], start)
    ensures forall i :: 0 <= i < |blocks + [p]| ==> (blocks + [p])[i] != NoBlock && (vHave + [p.hash])[i] == (blocks + [p])[i].hash
  {
  }

  class CChain {
    var vChain: seq<Block>

    ghost predicate Valid()
      reads this
    {
      vChain == Path(Tip())
    }

    function Tip(): Block
      reads this
    {
      if |vChain| < 1 then NoBlock else vChain[|vChain| - 1]
    }

    function Genesis(): Block
      reads this
    {
      if |vChain| > 0 then vChain[0] else NoBlock
    }

    /** `operator[]`. */
    function At(nHeight: int): Block
      reads this
    {
      if nHeight < 0 || nHeight >= |vChain| then NoBlock else vChain[nHeight]
    }

    predicate Contains(b: Block)
      requires b != NoBlock
      reads this
    {
      At(Height(b)) == b
    }

    function ChainHeight(): int
      reads this
    {
      |vChain| - 1
    }

    lemma ContainsIffAncestor(b: Block)
      requires Valid() && b != NoBlock
      ensures Contains(b) <==> IsAncestor(b, Tip())
    {
      InPathIffAncestor(Tip(), b);
    }

    constructor ()
      ensures Valid() && vChain == []
    {
      vChain := [];
    }

    /** Stops at the first entry that is already right; all below it are right as well. */
    method SetTip(pindex: Block)
      requires Valid()
      modifies this
      ensures vChain == Path(pindex) && Valid() && Tip() == pindex
    {
      if pindex == NoBlock {
        vChain := [];
        return;
      }
      ghost var tip, want := Tip(), Path(pindex);
      var size := Height(pindex) + 1;
      vChain := if size <= |vChain| then vChain[..size] else vChain + seq(size - |vChain|, _ => NoBlock);
      ghost var resized := vChain;
      assert Resized(resized, Path(tip));
      var p := pindex;
      hide Path, AncestorAt, Filled, Resized;
      while p != NoBlock && vChain[Height(p)] != p
        invariant |vChain| == size && Height(p) < size && (p != NoBlock ==> p == want[Height(p)])
        invariant Filled(vChain, resized, want, Height(p))
        decreases Height(p)
      {
        FilledNext(vChain, resized, want, Height(p));
        vChain := vChain[Height(p) := p];
        if p.prev != NoBlock {
          PathPrev(pindex, Height(p));
        }
        p := p.prev;
      }
      FillDone(vChain, resized, pindex, tip, p);
    }

    method FindFork(index: CBlockIndexMap, pindex: Block) returns (r: Block)
      requires Valid() && pindex != NoBlock && SkipsBuilt(index.pskip, pindex)
      ensures r == Fork(pindex, Tip())
    {
      r := pindex;
      if Height(pindex) > ChainHeight() {
        ghost var steps;
        r, steps := index.GetAncestor(pindex, ChainHeight());
        ForkFromHeight(pindex, Tip());
      }
      while r != NoBlock && !Contains(r)
        invariant Fork(r, Tip()) == Fork(pindex, Tip())
        decreases Height(r)
      {
        ContainsIffAncestor(r);
        r := r.prev;
      }
      if r != NoBlock {
        ContainsIffAncestor(r);
      }
    }

    /** Ancestors of the start, at distances that double after the eleventh, down to genesis: in
        logarithmically many entries. */
    method GetLocator(index: CBlockIndexMap, pindex: Block) returns (vHave: seq<nat>, ghost blocks: seq<Block>)
      requires Valid() && SkipsBuilt(index.pskip, if pindex == NoBlock then Tip() else pindex)
      ensures |vHave| == |blocks| && forall i :: 0 <= i < |blocks| ==> blocks[i] != NoBlock && vHave[i] == blocks[i].hash
      ensures var start := if pindex == NoBlock then Tip() else pindex;
        && (start == NoBlock ==> vHave == [])
        && (start != NoBlock ==> IsLocator(blocks, start) && |vHave| <= 12 + BitLength(Height(start)))
    {
      hide Listed, FarDown, Gap, IsLocator, IsAncestor, AncestorAt, SkipsBuilt, BitLength, Path;
      var nStep := 1;
      vHave, blocks := [], [];
      var p := if pindex == NoBlock then Tip() else pindex;
      if p == NoBlock {
        return;
      }
      var start := p;
      LocatorStart(start);
      while Height(p) != 0
        invariant p != NoBlock && IsAncestor(p, start) && SkipsBuilt(index.pskip, p) && Height(p) <= Height(start)
        invariant |vHave| == |blocks| && Listed(blocks, vHave, start, p)
        invariant FarDown(|blocks|, nStep, Height(p), Height(start)) && |blocks| <= 11 + BitLength(Height(start))
        decreases Height(p)
      {
        FarDownNext(|blocks|, nStep, Height(p), Height(start));
        StepIsGap(|blocks|, nStep, Height(p), Height(start));
        ghost var had := vHave;
        vHave := vHave + [p.hash];
        var nHeight := if Height(p) - nStep > 0 then Height(p) - nStep else 0;
        var next := StepDown(index, p, nHeight);
        ListedNext(blocks, had, start, p, next);
        AncestorTransitive(next, p, start);
        blocks := blocks + [p];
        p := next;
        if |vHave| > 10 {
          nStep := nStep * 2;
        }
      }
      LocatorEnd(blocks, vHave, start, p);
      vHave, blocks := vHave + [p.hash], blocks + [p];
    }

    /** The next entry: looked up in the chain if `p` is in it, through the skip list if not. */
    method StepDown(index: CBlockIndexMap, p: Block, nHeight: int) returns (next: Block)
      requires Valid() && SkipsBuilt(index.pskip, p) && 0 <= nHeight < Height(p)
      ensures next == AncestorAt(p, nHeight) && IsAncestor(next, p) && SkipsBuilt(index.pskip, next)
    {
      if Contains(p) {
        next := At(nHeight);
        ContainsIffAncestor(p);
        ChainAncestor(p, nHeight);
      } else {
        ghost var steps;
        next, steps := index.GetAncestor(p, nHeight);
      }
      AncestorAtIsAncestor(p, nHeight);
      SkipsBuiltBelow(index.pskip, p, nHeight);
    }

    lemma ChainAncestor(b: Block, h: int)
      requires Valid() && IsAncestor(b, Tip()) && 0 <= h <= Height(b)
      ensures At(h) == AncestorAt(b, h)
    {
      AncestorIffAt(b, Tip());
      PathAt(Tip(), h);
      AncestorOfAncestor(Tip(), Height(b), h);
    }

    /** `FindForkInGlobalIndex`: the first listed block that is known and in the chain, or genesis. */
    method FindForkInGlobalIndex(mapBlockIndex: map<nat, Block>, vHave: seq<nat>) returns (r: Block)
      requires forall hash :: hash in mapBlockIndex ==> mapBlockIndex[hash] != NoBlock
      ensures r == FirstKnown(mapBlockIndex, vHave)
    {
      for i := 0 to |vHave|
        invariant FirstKnown(mapBlockIndex, vHave) == FirstKnown(mapBlockIndex, vHave[i..])
      {
        assert vHave[i..][1..] == vHave[i + 1..];
        if vHave[i] in mapBlockIndex {
          var pindex := mapBlockIndex[vHave[i]];
          if Contains(pindex) {
            return pindex;
          }
        }
      }
      r := Genesis();
    }

    function FirstKnown(mapBlockIndex: map<nat, Block>, vHave: seq<nat>): Block
      requires forall hash :: hash in mapBlockIndex ==> mapBlockIndex[hash] != NoBlock
      reads this
    {
      if vHave == [] then Genesis()
      else if vHave[0] in mapBlockIndex && Contains(mapBlockIndex[vHave[0]]) then mapBlockIndex[vHave[0]]
      else FirstKnown(mapBlockIndex, vHave[1..])
    }

    /** Fed with a locator of any block over the same genesis, the search yields a block that both
        lie above, and no listed block higher than that is known and in the chain. */
    lemma {:induction false} LocatorFindsCommonAncestor(mapBlockIndex: map<nat, Block>, blocks: seq<Block>, vHave: seq<nat>, b: Block)
      requires Valid() && vChain != [] && IsAncestor(Genesis(), b)
      requires forall hash :: hash in mapBlockIndex ==> mapBlockIndex[hash] != NoBlock
      requires forall i, j :: 0 <= i < j < |blocks| ==> Height(blocks[j]) < Height(blocks[i])
      requires |blocks| == |vHave| && forall i :: 0 <= i < |blocks| ==> IsAncestor(blocks[i], b)
      requires forall i :: 0 <= i < |blocks| ==> (vHave[i] in mapBlockIndex ==> mapBlockIndex[vHave[i]] == blocks[i])
      ensures var r := FirstKnown(mapBlockIndex, vHave);
        && IsAncestor(r, b) && IsAncestor(r, Tip())
        && forall i :: 0 <= i < |blocks| ==> (vHave[i] in mapBlockIndex && Contains(blocks[i]) ==> Height(blocks[i]) <= Height(r))
      decreases |vHave|
    {
      if vHave == [] {
        assert Genesis() == Path(Tip())[0];
        PathAt(Tip(), 0);
        AncestorAtIsAncestor(Tip(), 0);
      } else if vHave[0] in mapBlockIndex && Contains(mapBlockIndex[vHave[0]]) {
        ContainsIffAncestor(blocks[0]);
      } else {
        LocatorFindsCommonAncestor(mapBlockIndex, blocks[1..], vHave[1..], b);
        assert forall i :: 1 <= i < |blocks| ==> blocks[i] == blocks[1..][i - 1] && vHave[i] == vHave[1..][i - 1];
      }
    }
  }
}
