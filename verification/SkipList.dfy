/** Skip pointers over the block tree: `GetSkipHeight`, `BuildSkip` and `GetAncestor`
    (src/main.cpp), with the bound on the number of steps a lookup takes. */
module SkipList {
  import opened BlockTree

  // ----- bits

  /** The bitwise `&`. */
  function BitAnd(a: nat, b: nat): nat {
    if a == 0 || b == 0 then 0 else (a % 2) * (b % 2) + 2 * BitAnd(a / 2, b / 2)
  }

  /** `n & (n - 1)`; at zero the left operand alone decides. */
  function InvertLowestOne(n: nat): nat {
    if n == 0 then 0 else BitAnd(n, n - 1)
  }

  function PopCount(n: nat): nat {
    if n == 0 then 0 else n % 2 + PopCount(n / 2)
  }

  function BitLength(n: nat): nat {
    if n == 0 then 0 else 1 + BitLength(n / 2)
  }

  function GetSkipHeight(height: nat): nat {
    if height < 2 then 0
    else if height % 2 == 1 then InvertLowestOne(InvertLowestOne(height - 1)) + 1
    else InvertLowestOne(height)
  }

  lemma {:induction false} BitAndSelf(n: nat)
    ensures BitAnd(n, n) == n
  {
    if n != 0 {
      BitAndSelf(n / 2);
    }
  }

  lemma InvertHalves(n: nat)
    requires n > 0
    ensures n % 2 == 1 ==> InvertLowestOne(n) == n - 1
    ensures n % 2 == 0 ==> InvertLowestOne(n) == 2 * InvertLowestOne(n / 2)
  {
    if n % 2 == 1 {
      BitAndSelf(n / 2);
    }
  }

  /** It clears exactly one bit. */
  lemma {:induction false} InvertClears(n: nat)
    requires n > 0
    ensures InvertLowestOne(n) < n && InvertLowestOne(n) % 2 == 0
    ensures PopCount(InvertLowestOne(n)) == PopCount(n) - 1
  {
    hide InvertLowestOne, PopCount;
    InvertHalves(n);
    var m := n / 2;
    PopCountDouble(m);
    if n % 2 == 0 {
      InvertClears(m);
      PopCountDouble(InvertLowestOne(m));
      assert n == 2 * m;
    } else {
      assert n == 2 * m + 1;
    }
  }

  lemma PopCountDouble(h: nat)
    ensures PopCount(2 * h) == PopCount(h) && PopCount(2 * h + 1) == PopCount(h) + 1
  {
  }

  lemma SkipIsLower(height: nat)
    requires height > 0
    ensures GetSkipHeight(height) < height
  {
    if height >= 2 {
      if height % 2 == 1 {
        InvertClears(height - 1);
        if InvertLowestOne(height - 1) > 0 {
          InvertClears(InvertLowestOne(height - 1));
        }
      } else {
        InvertClears(height);
      }
    }
  }

  // ----- how far two heights are apart, in bits

  /** The number of low bits to drop until `w` and `t` agree. */
  function Level(w: nat, t: nat): nat
    decreases w + t
  {
    if w == t then 0 else 1 + Level(w / 2, t / 2)
  }

  function Drop(n: nat, e: nat): nat {
    if e == 0 then n else Drop(n / 2, e - 1)
  }

  lemma {:induction false} LevelShrinks(w: nat, x: nat, t: nat)
    requires t <= x <= w
    ensures Level(x, t) <= Level(w, t)
    decreases w
  {
    if x != t {
      LevelShrinks(w / 2, x / 2, t / 2);
    }
  }

  lemma {:induction false} LevelBits(w: nat, t: nat)
    requires t <= w
    ensures Level(w, t) <= BitLength(w)
    decreases w
  {
    if t != w {
      LevelBits(w / 2, t / 2);
    }
  }

  /** Between `t` and `w` the bits above the level are those of `t`. */
  lemma {:induction false} PopCountBetween(w: nat, x: nat, t: nat)
    requires t <= x <= w
    ensures var e := Level(w, t); PopCount(Drop(t, e)) <= PopCount(x) <= PopCount(Drop(t, e)) + e
    decreases w
  {
    if w != t {
      PopCountBetween(w / 2, x / 2, t / 2);
    }
  }

  /** Stepping down from an even height whose skip would overshoot brings the two closer. */
  lemma {:induction false} StepDropsLevel(w: nat, t: nat)
    requires w > 0 && w % 2 == 0 && InvertLowestOne(w) <= t < w
    ensures Level(w - 1, t) < Level(w, t)
    decreases w
  {
    InvertHalves(w);
    var a := w / 2;
    if a % 2 == 1 {
      InvertHalves(a);
      assert t == w - 1 || t == w - 2;
      assert Level(w, t) == 1 + Level(a, a - 1) && Level(a, a - 1) == 1;
    } else {
      StepDropsLevel(a, t / 2);
      assert (w - 1) / 2 == a - 1;
    }
  }

  // ----- the walk

  /** The choice `GetAncestor` makes at height `w` on its way to `t`. */
  predicate TakesSkip(w: nat, t: nat)
    requires w > t
  {
    var heightSkip, heightSkipPrev := GetSkipHeight(w), GetSkipHeight(w - 1);
    heightSkip == t || (heightSkip > t && !(heightSkipPrev < heightSkip - 2 && heightSkipPrev >= t))
  }

  function NextHeight(w: nat, t: nat): nat
    requires w > t
  {
    if TakesSkip(w, t) then GetSkipHeight(w) else w - 1
  }

  /** How much is left to do at the present level: three for each bit still to clear, and a
      correction for where in the pattern of steps the walk is. */
  function Rest(w: nat, t: nat): int
    requires w > t
  {
    var bits := PopCount(if w % 2 == 0 then w else w - 1) - PopCount(Drop(t, Level(w, t)));
    3 * bits + (if w % 2 == 0 then 2 else if GetSkipHeight(w) >= t then 1 else 3)
  }

  /** The most that all levels below `e` can cost together. */
  function Below(e: nat): nat {
    if e == 0 then 0 else Below(e - 1) + 3 * e + 1
  }

  /** A bound on the steps left. */
  function Budget(w: nat, t: nat): int
    requires w >= t
  {
    if w == t then 0 else Below(Level(w, t)) + Rest(w, t)
  }

  lemma {:induction false} BelowClosed(e: nat)
    ensures 2 * Below(e) == 3 * e * e + 5 * e
  {
    if e > 0 {
      BelowClosed(e - 1);
    }
  }

  lemma {:induction false} BelowGrows(d: nat, e: nat)
    requires d < e
    ensures Below(d) + 3 * d + 4 <= Below(e)
  {
    if d < e - 1 {
      BelowGrows(d, e - 1);
    }
  }

  lemma RestBounds(w: nat, t: nat)
    requires w > t
    ensures 1 <= Rest(w, t) <= 3 * Level(w, t) + 3
  {
    PopCountBetween(w, if w % 2 == 0 then w else w - 1, t);
  }

  /** A step pays if it reaches a lower level or gets on at the present one. */
  lemma LevelPays(w: nat, x: nat, t: nat)
    requires t < x < w && (Level(x, t) == Level(w, t) ==> Rest(x, t) < Rest(w, t))
    ensures Budget(x, t) < Budget(w, t)
  {
    LevelShrinks(w, x, t);
    RestBounds(w, t);
    RestBounds(x, t);
    if Level(x, t) < Level(w, t) {
      BelowGrows(Level(x, t), Level(w, t));
    }
  }

  /** The case in which `GetAncestor` prefers one step down over a possible skip: the skip it gains
      that way clears no fewer bits. */
  lemma PreferredStep(w: nat)
    requires w >= 2 && w % 2 == 0 && GetSkipHeight(w - 1) < GetSkipHeight(w) - 2
    ensures PopCount(w - 2) <= PopCount(w)
  {
    hide PopCount, GetSkipHeight;
    var a := w / 2;
    PopCountDouble(a);
    PopCountDouble(a - 1);
    if a % 2 == 1 {
      PopCountDouble(a / 2);
    } else {
      var c := a / 2;
      if c % 2 == 0 {
        SkipsAroundEight(c / 2, w);
        assert false;
      }
      PopCountDouble(c);
      PopCountDouble(c - 1);
      PopCountDouble(c / 2);
    }
  }

  lemma InvertDouble(n: nat, d: nat)
    requires n > 0 && d == 2 * n
    ensures InvertLowestOne(d) == 2 * InvertLowestOne(n) && InvertLowestOne(d - 1) == d - 2
  {
    InvertHalves(d);
    InvertHalves(d - 1);
  }

  lemma InvertedBelowEight(m: nat, w: nat)
    requires m > 0 && w == 8 * m
    ensures InvertLowestOne(w - 2) == w - 4 && InvertLowestOne(w - 4) == w - 8 && InvertLowestOne(w) <= w - 8
  {
    hide InvertLowestOne;
    var n2, n4 := 2 * m, 4 * m;
    InvertDouble(m, n2);
    InvertDouble(n2, n4);
    InvertDouble(n4, w);
    InvertClears(m);
    InvertDouble(n4 - 1, w - 2);
    InvertDouble(n2 - 1, n4 - 2);
    InvertDouble(n4 - 2, w - 4);
  }

  /** At a multiple of eight the skip reaches below that of the height before. */
  lemma SkipsAroundEight(m: nat, w: nat)
    requires m > 0 && w == 8 * m
    ensures GetSkipHeight(w - 1) == w - 7 && GetSkipHeight(w) <= w - 8
  {
    hide InvertLowestOne, GetSkipHeight;
    InvertedBelowEight(m, w);
    SkipAroundEven(4 * m, w);
  }

  lemma SkipAroundEven(h: nat, w: nat)
    requires h > 1 && w == 2 * h
    ensures GetSkipHeight(w) == InvertLowestOne(w)
    ensures GetSkipHeight(w - 1) == InvertLowestOne(InvertLowestOne(w - 2)) + 1
  {
    hide InvertLowestOne;
  }

  lemma EvenStepPays(w: nat, t: nat)
    requires w > t && w % 2 == 0 && NextHeight(w, t) > t
    ensures Budget(NextHeight(w, t), t) < Budget(w, t)
  {
    var x := NextHeight(w, t);
    InvertClears(w);
    if !TakesSkip(w, t) {
      if GetSkipHeight(w) < t {
        StepDropsLevel(w, t);
      } else {
        PreferredStep(w);
      }
    }
    LevelPays(w, x, t);
  }

  lemma OddStepPays(w: nat, t: nat)
    requires w > t && w % 2 == 1 && NextHeight(w, t) > t
    ensures Budget(NextHeight(w, t), t) < Budget(w, t)
  {
    hide PopCount, Level, Drop, InvertLowestOne, Budget;
    var x := NextHeight(w, t);
    if w > 1 {
      InvertClears(w - 1);
      var y := InvertLowestOne(w - 1);
      if y > 0 {
        InvertClears(y);
      } else {
        NothingToInvert();
        if TakesSkip(w, t) {
          LevelOfOne(w);
        }
      }
      LevelPays(w, x, t);
    }
  }

  lemma NothingToInvert()
    ensures InvertLowestOne(0) == 0
  {
  }

  lemma LevelOfOne(w: nat)
    requires w > 1
    ensures Level(1, 0) == 1 < Level(w, 0)
  {
    assert Level(w, 0) == 2 + Level(w / 2 / 2, 0);
  }

  /** Every step of the walk uses up some of the budget. */
  lemma StepPays(w: nat, t: nat)
    requires w > t
    ensures t <= NextHeight(w, t) < w
    ensures Budget(NextHeight(w, t), t) < Budget(w, t)
  {
    SkipIsLower(w);
    var x := NextHeight(w, t);
    if x == t {
      RestBounds(w, t);
    } else if w % 2 == 0 {
      EvenStepPays(w, t);
    } else {
      OddStepPays(w, t);
    }
  }

  lemma SquareMonotone(e: nat, l: nat)
    requires e <= l
    ensures 3 * e * e <= 3 * l * l
  {
    assert e * e <= e * l <= l * l;
  }

  /** The budget is quadratic in the number of bits of the starting height. */
  lemma BudgetBound(w: nat, t: nat)
    requires w >= t
    ensures var l := BitLength(w); 2 * Budget(w, t) <= 3 * l * l + 11 * l + 6
  {
    if w > t {
      var e, l := Level(w, t), BitLength(w);
      RestBounds(w, t);
      LevelBits(w, t);
      BelowClosed(e);
      SquareMonotone(e, l);
    }
  }

  // ----- the pointers

  /** Every block down from `b` has the skip pointer `BuildSkip` gives it. */
  ghost predicate SkipsBuilt(pskip: map<Block, Block>, b: Block) {
    b == NoBlock ||
    (b in pskip && pskip[b] == AncestorAt(b.prev, GetSkipHeight(Height(b))) && SkipsBuilt(pskip, b.prev))
  }

  lemma {:induction false} SkipsBuiltBelow(pskip: map<Block, Block>, b: Block, h: int)
    requires SkipsBuilt(pskip, b) && 0 <= h <= Height(b)
    ensures SkipsBuilt(pskip, AncestorAt(b, h))
  {
    if h < Height(b) {
      SkipsBuiltBelow(pskip, b.prev, h);
    }
  }

  /** A new pointer leaves the others built. */
  lemma {:induction false} SkipsKept(pskip: map<Block, Block>, b: Block, p: Block, c: Block)
    requires SkipsBuilt(pskip, c) && b !in pskip
    ensures SkipsBuilt(pskip[b := p], c)
  {
    if c != NoBlock {
      SkipsKept(pskip, b, p, c.prev);
    }
  }

  /** What a step of the walk finds at height `w`. */
  lemma WalkStep(pskip: map<Block, Block>, b: Block, w: nat)
    requires b != NoBlock && 0 < w <= Height(b) && SkipsBuilt(pskip, AncestorAt(b, w))
    ensures var p := AncestorAt(b, w);
      && p != NoBlock && p in pskip
      && p.prev == AncestorAt(b, w - 1) && SkipsBuilt(pskip, p.prev)
      && pskip[p] == AncestorAt(b, GetSkipHeight(w)) != NoBlock && SkipsBuilt(pskip, pskip[p])
  {
    hide GetSkipHeight, AncestorAt, SkipsBuilt;
    var p, skip := AncestorAt(b, w), GetSkipHeight(w);
    SkipIsLower(w);
    SkipsBuiltAt(pskip, p);
    AncestorOfAncestor(b, w, w - 1);
    AncestorOfAncestor(b, w, skip);
    SkipsBuiltBelow(pskip, p, skip);
  }

  lemma SkipsBuiltAt(pskip: map<Block, Block>, p: Block)
    requires p != NoBlock && SkipsBuilt(pskip, p) && Height(p) > 0
    ensures p in pskip && SkipsBuilt(pskip, p.prev)
    ensures pskip[p] == AncestorAt(p, GetSkipHeight(Height(p)))
    ensures AncestorAt(p, Height(p) - 1) == p.prev
  {
    hide GetSkipHeight;
    SkipIsLower(Height(p));
  }

  lemma NothingLeft(t: nat)
    ensures Budget(t, t) == 0
  {
  }

  class CBlockIndexMap {
    var pskip: map<Block, Block>

    /** `GetAncestor`: the block that following `pprev` would reach, in a number of steps quadratic
        in the length of the height.  No null skip pointer is followed. */
    method GetAncestor(b: Block, height: int) returns (r: Block, ghost steps: nat)
      requires b != NoBlock && SkipsBuilt(pskip, b)
      ensures r == AncestorAt(b, height)
      ensures var l := BitLength(Height(b)); 2 * steps <= 3 * l * l + 11 * l + 6
    {
      hide BitLength, Budget, AncestorAt, SkipsBuilt, GetSkipHeight;
      steps := 0;
      if height > Height(b) || height < 0 {
        return NoBlock, steps;
      }
      var pindexWalk, heightWalk := b, Height(b);
      while heightWalk > height
        invariant height <= heightWalk <= Height(b)
        invariant pindexWalk == AncestorAt(b, heightWalk) && SkipsBuilt(pskip, pindexWalk)
        invariant steps + Budget(heightWalk, height) <= Budget(Height(b), height)
      {
        StepPays(heightWalk, height);
        WalkStep(pskip, b, heightWalk);
        var heightSkip := GetSkipHeight(heightWalk);
        var heightSkipPrev := GetSkipHeight(heightWalk - 1);
        if heightSkip == height ||
           (heightSkip > height && !(heightSkipPrev < heightSkip - 2 && heightSkipPrev >= height)) {
          assert pskip[pindexWalk] != NoBlock;
          pindexWalk := pskip[pindexWalk];
          heightWalk := heightSkip;
        } else {
          pindexWalk := pindexWalk.prev;
          heightWalk := heightWalk - 1;
        }
        steps := steps + 1;
      }
      BudgetBound(Height(b), height);
      NothingLeft(height);
      r := pindexWalk;
    }

    /** Run once, when a block whose parent is known joins the tree. */
    method BuildSkip(b: Block)
      requires b != NoBlock && SkipsBuilt(pskip, b.prev) && b !in pskip
      modifies this
      ensures SkipsBuilt(pskip, b)
      ensures pskip == old(pskip)[b := AncestorAt(b.prev, GetSkipHeight(Height(b)))]
    {
      var p := NoBlock;
      if b.prev != NoBlock {
        ghost var steps;
        p, steps := GetAncestor(b.prev, GetSkipHeight(Height(b)));
      }
      SkipsKept(pskip, b, p, b.prev);
      pskip := pskip[b := p];
    }
  }
}
