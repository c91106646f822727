/** The tree of block headers (src/chain.h).  A `Block` stands for a `CBlockIndex` pointer together
    with what never changes behind it: its hash, its parent and its own work.  The fields that do
    change are kept in maps from blocks by the classes that change them. */
module BlockTree {

  datatype Block = NoBlock | Block(hash: nat, prev: Block, proof: nat)

  /** `nHeight`; the genesis block is at 0. */
  function Height(b: Block): (h: int)
    ensures h >= -1 && (h == -1 <==> b == NoBlock)
  {
    if b == NoBlock then -1 else Height(b.prev) + 1
  }

  /** `nChainWork`. */
  function ChainWork(b: Block): nat {
    if b == NoBlock then 0 else ChainWork(b.prev) + b.proof
  }

  /** The block reached from `b` by following `pprev` down to height `h`. */
  function AncestorAt(b: Block, h: int): (r: Block)
    ensures 0 <= h <= Height(b) ==> Height(r) == h
    ensures h == Height(b) ==> r == b
    ensures h > Height(b) || h < 0 ==> r == NoBlock
  {
    if b == NoBlock || h > Height(b) then NoBlock
    else if h == Height(b) then b
    else AncestorAt(b.prev, h)
  }

  /** `a` is `b` or one of its ancestors. */
  predicate IsAncestor(a: Block, b: Block) {
    a != NoBlock && (a == b || (b != NoBlock && IsAncestor(a, b.prev)))
  }

  /** The blocks from genesis to `b`; this is what an active chain with tip `b` must hold. */
  function Path(b: Block): (p: seq<Block>)
    ensures |p| == Height(b) + 1
    ensures b != NoBlock ==> p[|p| - 1] == b
    ensures forall i :: 0 <= i < |p| ==> p[i] != NoBlock
  {
    if b == NoBlock then [] else Path(b.prev) + [b]
  }

  lemma {:induction false} PathAt(b: Block, h: int)
    requires 0 <= h <= Height(b)
    ensures Path(b)[h] == AncestorAt(b, h)
  {
    if h < Height(b) {
      PathAt(b.prev, h);
    }
  }

  lemma {:induction false} AncestorIffAt(a: Block, b: Block)
    requires a != NoBlock
    ensures IsAncestor(a, b) <==> AncestorAt(b, Height(a)) == a
    ensures IsAncestor(a, b) ==> Height(a) <= Height(b)
  {
    if b != NoBlock && a != b {
      AncestorIffAt(a, b.prev);
      if Height(a) == Height(b) {
        assert !IsAncestor(a, b.prev);
      }
    }
  }

  lemma {:induction false} AncestorTransitive(a: Block, b: Block, c: Block)
    requires IsAncestor(a, b) && IsAncestor(b, c)
    ensures IsAncestor(a, c)
  {
    if b != c {
      AncestorTransitive(a, b, c.prev);
    }
  }

  /** Going down in two strides is going down. */
  lemma {:induction false} AncestorOfAncestor(b: Block, h: int, k: int)
    requires 0 <= k <= h <= Height(b)
    ensures AncestorAt(AncestorAt(b, h), k) == AncestorAt(b, k)
  {
    if h < Height(b) {
      AncestorOfAncestor(b.prev, h, k);
    }
  }

  lemma {:induction false} AncestorAtIsAncestor(b: Block, h: int)
    requires 0 <= h <= Height(b)
    ensures IsAncestor(AncestorAt(b, h), b)
  {
    if h < Height(b) {
      AncestorAtIsAncestor(b.prev, h);
    }
  }

  lemma {:induction false} AncestorWork(a: Block, b: Block)
    requires IsAncestor(a, b)
    ensures ChainWork(a) <= ChainWork(b)
  {
    if a != b {
      AncestorWork(a, b.prev);
    }
  }

  /** The blocks from `top` down to, but not including, its ancestor `bad`. */
  function Above(bad: Block, top: Block): set<Block>
    requires IsAncestor(bad, top)
  {
    if top == bad then {} else Above(bad, top.prev) + {top}
  }

  lemma {:induction false} AboveExactly(bad: Block, top: Block)
    requires IsAncestor(bad, top)
    ensures forall x :: x in Above(bad, top) <==> IsAncestor(bad, x) && IsAncestor(x, top) && x != bad
    ensures forall x :: x in Above(bad, top) ==> x != NoBlock && (x.prev == bad || x.prev in Above(bad, top))
  {
    if top != bad {
      AboveExactly(bad, top.prev);
      forall x ensures x in Above(bad, top) <==> IsAncestor(bad, x) && IsAncestor(x, top) && x != bad {
        assert IsAncestor(x, top) <==> x == top || IsAncestor(x, top.prev);
      }
    } else {
      forall x | IsAncestor(bad, x) && IsAncestor(x, bad) ensures x == bad {
        AncestorIffAt(bad, x);
        AncestorIffAt(x, bad);
      }
    }
  }

  /** The proofs of a run of blocks, together. */
  function TotalProof(path: seq<Block>): nat {
    if path == [] then 0 else (if path[0] == NoBlock then 0 else path[0].proof) + TotalProof(path[1..])
  }

  lemma {:induction false} TotalProofAppend(path: seq<Block>, b: Block)
    requires b != NoBlock
    ensures TotalProof(path + [b]) == TotalProof(path) + b.proof
  {
    if path == [] {
      assert [] + [b] == [b];
    } else {
      TotalProofAppend(path[1..], b);
      assert (path + [b])[1..] == path[1..] + [b];
    }
  }

  /** The work of a block is what all blocks from genesis up to it have proved. */
  lemma {:induction false} WorkIsTotalProof(b: Block)
    ensures ChainWork(b) == TotalProof(Path(b))
  {
    if b != NoBlock {
      WorkIsTotalProof(b.prev);
      TotalProofAppend(Path(b.prev), b);
    }
  }
}
