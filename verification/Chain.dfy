/**
 The block tree with skip pointers and the active chain. The plain walk along `pprev` is the
 reference for every fast form.
 */
module Chain {
  import opened BitOps

  class BlockIndex {
    const pprev: BlockIndex?
    const nHeight: nat
    var pskip: BlockIndex?

    constructor (prev: BlockIndex?)
      ensures pprev == prev && pskip == null
      ensures nHeight == if prev == null then 0 else prev.nHeight + 1
    {
      pprev := prev;
      nHeight := if prev == null then 0 else prev.nHeight + 1;
      pskip := null;
    }

    /** Heights count the blocks back to the genesis block. */
    ghost predicate Rooted()
      decreases nHeight
    {
      if pprev == null then nHeight == 0 else nHeight == pprev.nHeight + 1 && pprev.Rooted()
    }

    /** The plain walk. */
    ghost function Ancestor(height: nat): (b: BlockIndex)
      requires Rooted() && height <= nHeight
      ensures b.Rooted() && b.nHeight == height
      decreases nHeight
    {
      if height == nHeight then this else pprev.Ancestor(height)
    }

    /** What BuildSkip promises; a block it has not reached yet has no skip pointer. */
    ghost predicate SkipOk()
      requires Rooted()
      reads this
    {
      pskip == null || (pprev != null && pskip == pprev.Ancestor(GetSkipHeight(nHeight)))
    }

    method GetAncestor(height: int, ghost tree: set<BlockIndex>) returns (b: BlockIndex?)
      requires this in tree && Tree(tree)
      ensures if 0 <= height <= nHeight then b == Ancestor(height) else b == null
    {
      if height > nHeight || height < 0 { return null; }
      var walk: BlockIndex := this;
      var heightWalk := nHeight;
      while heightWalk > height
        invariant walk in tree && heightWalk == walk.nHeight >= height
        invariant walk.Ancestor(height) == Ancestor(height)
      {
        var heightSkip := GetSkipHeight(heightWalk);
        var heightSkipPrev := GetSkipHeight(heightWalk - 1);
        if walk.pskip != null &&
           (heightSkip == height ||
            (heightSkip > height && !(heightSkipPrev < heightSkip - 2 && heightSkipPrev >= height))) {
          AncestorOfAncestor(walk.pprev, heightSkip, height);
          AncestorInTree(walk.pprev, heightSkip, tree);
          walk := walk.pskip;
          heightWalk := heightSkip;
        } else {
          walk := walk.pprev;
          heightWalk := heightWalk - 1;
        }
      }
      b := walk;
    }

    /** BuildSkip leaves the whole tree consistent, blocks above this one included. */
    method BuildSkip(ghost tree: set<BlockIndex>)
      requires this in tree && Tree(tree)
      modifies this`pskip
      ensures Tree(tree)
      ensures pskip == if pprev == null then old(pskip) else pprev.Ancestor(GetSkipHeight(nHeight))
    {
      if pprev != null {
        var target := GetSkipHeight(nHeight);
        pskip := pprev.GetAncestor(target, tree);
      }
    }
  }

  /** A set of blocks that contains the predecessors of its members, with sound skip pointers. */
  ghost predicate Tree(tree: set<BlockIndex>)
    reads tree
  {
    && (forall b :: b in tree ==> b.Rooted() && (b.pprev != null ==> b.pprev in tree))
    && (forall b :: b in tree ==> b.SkipOk())
  }

  // ---------------------------------------------------------------------------
  // Skip heights
  // ---------------------------------------------------------------------------

  /** n & (n - 1), where 0 & -1 is 0. */
  function InvertLowestOne(n: nat): (r: nat) { if n == 0 then 0 else And(n, n - 1) }

  /** The lowest 1 bit is taken away. */
  lemma {:induction false} InvertLowestOneClears(n: nat, k: nat, m: nat)
    requires n == Pow2(k) * (2 * m + 1)
    ensures InvertLowestOne(n) == Pow2(k) * (2 * m)
    decreases k
  {
    hide InvertLowestOne;
    if k == 0 {
      InvertOdd(m);
    } else {
      var p := Pow2(k - 1);
      var half := p * (2 * m + 1);
      TwiceProducts(p, Pow2(k), m);
      InvertLowestOneClears(half, k - 1, m);
      InvertTwice(half);
    }
  }

  lemma {:induction false} InvertOdd(m: nat)
    ensures InvertLowestOne(2 * m + 1) == 2 * m
  {
    AndSame(m);
  }

  lemma TwiceProducts(p: nat, q: nat, m: nat)
    requires p > 0 && q == 2 * p
    ensures q * (2 * m + 1) == 2 * (p * (2 * m + 1)) && q * (2 * m) == 2 * (p * (2 * m)) && p * (2 * m + 1) > 0
  {
    assert p * (2 * m + 1) == 2 * (p * m) + p;
    assert p * m >= 0;
  }

  lemma InvertTwice(half: nat)
    requires half > 0
    ensures InvertLowestOne(2 * half) == 2 * InvertLowestOne(half)
  {
    assert (2 * half - 1) / 2 == half - 1;
  }

  lemma {:induction false} AndSame(m: nat)
    ensures And(m, m) == m
    decreases m
  {
    if m > 0 { AndSame(m / 2); }
  }

  lemma {:induction false} InvertLowestOneLess(n: nat)
    ensures n > 0 ==> InvertLowestOne(n) < n
  {
    if n > 0 { AndAtMost(n, n - 1); AndBelow(n, n - 1); }
  }

  lemma {:induction false} AndBelow(a: nat, b: nat)
    ensures And(a, b) <= b
    decreases a
  {
    if a > 0 { AndBelow(a / 2, b / 2); }
  }

  /** The height that the skip pointer of a block at `height` leads to. */
  function GetSkipHeight(height: int): (r: nat)
    ensures height < 2 ==> r == 0
    ensures height > 0 ==> r < height
  {
    if height < 2 then 0
    else if height % 2 == 1 then
      InvertLowestOneLess(height - 1);
      InvertLowestOneLess(InvertLowestOne(height - 1));
      InvertLowestOne(InvertLowestOne(height - 1)) + 1
    else
      InvertLowestOneLess(height);
      InvertLowestOne(height)
  }

  /** An even height loses its lowest 1 bit. */
  lemma {:induction false} SkipFromEven(k: nat, m: nat)
    requires k > 0
    ensures GetSkipHeight(Pow2(k) * (2 * m + 1)) == Pow2(k) * (2 * m)
  {
    hide InvertLowestOne;
    TwiceProducts(Pow2(k - 1), Pow2(k), m);
    InvertLowestOneClears(Pow2(k) * (2 * m + 1), k, m);
  }

  /** An odd height keeps bit 0 and loses its next two 1 bits, or the only one there is. */
  lemma {:induction false} SkipFromOdd(k: nat, m: nat, j: nat, q: nat)
    requires k > 0 && if m == 0 then q == 0 else Pow2(k) * (2 * m) == Pow2(j) * (2 * q + 1)
    ensures GetSkipHeight(Pow2(k) * (2 * m + 1) + 1) == Pow2(j) * (2 * q) + 1
  {
    hide InvertLowestOne;
    var n := Pow2(k) * (2 * m + 1);
    TwiceProducts(Pow2(k - 1), Pow2(k), m);
    InvertLowestOneClears(n, k, m);
    if m == 0 {
      assert InvertLowestOne(0) == 0 by { InvertZero(); }
      assert Pow2(j) * (2 * q) == 0;
    } else {
      InvertLowestOneClears(Pow2(k) * (2 * m), j, q);
    }
    SkipOfOdd(n);
  }

  lemma InvertZero()
    ensures InvertLowestOne(0) == 0
  {
  }

  lemma SkipOfOdd(n: nat)
    requires n > 0 && n % 2 == 0
    ensures GetSkipHeight(n + 1) == InvertLowestOne(InvertLowestOne(n)) + 1
  {
    hide InvertLowestOne;
  }

  // ---------------------------------------------------------------------------
  // Ancestors
  // ---------------------------------------------------------------------------

  lemma {:induction false} AncestorOfAncestor(b: BlockIndex, k: nat, h: nat)
    requires b.Rooted() && h <= k <= b.nHeight
    ensures b.Ancestor(k).Ancestor(h) == b.Ancestor(h)
    decreases b.nHeight
  {
    if k < b.nHeight { AncestorOfAncestor(b.pprev, k, h); }
  }

  lemma {:induction false} AncestorInTree(b: BlockIndex, h: nat, tree: set<BlockIndex>)
    requires b in tree && Tree(tree) && h <= b.nHeight
    ensures b.Ancestor(h) in tree
    decreases b.nHeight
  {
    if h < b.nHeight { AncestorInTree(b.pprev, h, tree); }
  }

  ghost predicate IsAncestor(a: BlockIndex, b: BlockIndex)
    requires b.Rooted()
  {
    a.nHeight <= b.nHeight && b.Ancestor(a.nHeight) == a
  }

  // ---------------------------------------------------------------------------
  // The active chain
  // ---------------------------------------------------------------------------

  class CChain {
    var vChain: seq<BlockIndex?>

    /** vChain[h] is the tip's ancestor at height h, for every h. */
    ghost predicate Valid()
      reads this
    {
      vChain != [] ==> IsChainOf(vChain, vChain[|vChain| - 1])
    }

    constructor ()
      ensures Valid() && vChain == []
    {
      vChain := [];
    }

    function Tip(): (b: BlockIndex?)
      reads this
    {
      if vChain == [] then null else vChain[|vChain| - 1]
    }

    function At(height: int): (b: BlockIndex?)
      reads this
    {
      if height < 0 || height >= |vChain| then null else vChain[height]
    }

    function Contains(b: BlockIndex): (r: bool)
      reads this
    {
      At(b.nHeight) == b
    }

    function Height(): (h: int)
      reads this
    {
      |vChain| - 1
    }

    /** SetTip stops as soon as it meets a block that is already in place. */
    method SetTip(block: BlockIndex)
      requires Valid() && block.Rooted()
      modifies this
      ensures Valid() && Tip() == block && |vChain| == block.nHeight + 1
    {
      ghost var before := vChain;
      var pindex: BlockIndex? := block;
      var n := block.nHeight + 1;
      vChain := if n <= |vChain| then vChain[..n] else vChain + seq(n - |vChain|, i => null);
      while pindex != null && vChain[pindex.nHeight] != pindex
        invariant |vChain| == n
        invariant pindex != null ==> pindex.Rooted() && IsAncestor(pindex, block)
        invariant forall h :: (if pindex == null then 0 else pindex.nHeight + 1) <= h < n ==>
                    vChain[h] == block.Ancestor(h)
        invariant forall h :: 0 <= h < n && pindex != null && h <= pindex.nHeight ==>
                    vChain[h] == if h < |before| then before[h] else null
        decreases if pindex == null then 0 else pindex.nHeight + 1
      {
        vChain := vChain[pindex.nHeight := pindex];
        if pindex.pprev != null { ParentIsAncestor(pindex, block); }
        pindex := pindex.pprev;
      }
      if pindex != null {
        OldPrefixFits(before, pindex, block);
      }
    }

    /** FindFork returns the highest block that this chain and `start` have in common, null if there is none. */
    method FindFork(start: BlockIndex?, ghost tree: set<BlockIndex>) returns (fork: BlockIndex?)
      requires Valid() && Tree(tree) && (start != null ==> start in tree)
      ensures fork != null ==> start != null && Contains(fork) && IsAncestor(fork, start)
      ensures start != null ==> NoSharedAbove(vChain, start, if fork == null then -1 else fork.nHeight)
    {
      if start == null { return null; }
      hide BlockIndex.Ancestor, BlockIndex.SkipOk, NoSharedAbove;
      NoSharedAtTop(vChain, start);
      var pindex: BlockIndex? := start;
      if start.nHeight > Height() {
        pindex := start.GetAncestor(Height(), tree);
        if pindex != null { AncestorInTree(start, Height(), tree); }
      } else {
        SelfIsAncestor(start);
      }
      while pindex != null && !Contains(pindex)
        invariant pindex != null ==> pindex in tree && IsAncestor(pindex, start)
        invariant NoSharedAbove(vChain, start, if pindex == null then -1 else pindex.nHeight)
        decreases if pindex == null then 0 else pindex.nHeight + 1
      {
        NoSharedStep(vChain, start, pindex);
        if pindex.pprev != null { ParentIsAncestor(pindex, start); }
        pindex := pindex.pprev;
      }
      fork := pindex;
    }
  }

  /** Above `height`, the chain and the history of `b` have no block in common. */
  ghost predicate NoSharedAbove(chain: seq<BlockIndex?>, b: BlockIndex, height: int)
    requires b.Rooted() && height >= -1
  {
    forall h :: height < h <= b.nHeight && h < |chain| ==> chain[h] != b.Ancestor(h)
  }

  lemma NoSharedAtTop(chain: seq<BlockIndex?>, b: BlockIndex)
    requires b.Rooted()
    ensures NoSharedAbove(chain, b, if b.nHeight < |chain| then b.nHeight else |chain| - 1)
  {
  }

  lemma NoSharedStep(chain: seq<BlockIndex?>, b: BlockIndex, a: BlockIndex)
    requires b.Rooted() && IsAncestor(a, b) && NoSharedAbove(chain, b, a.nHeight)
    requires !(a.nHeight < |chain| && chain[a.nHeight] == a)
    ensures NoSharedAbove(chain, b, a.nHeight - 1)
  {
  }

  lemma SelfIsAncestor(b: BlockIndex)
    requires b.Rooted()
    ensures IsAncestor(b, b)
  {
  }

  ghost predicate PartedAbove(a: BlockIndex, b: BlockIndex, height: nat)
    requires a.Rooted() && b.Rooted()
  {
    forall h: nat :: height < h <= a.nHeight && h <= b.nHeight ==> a.Ancestor(h) != b.Ancestor(h)
  }

  /**
   LastCommonAncestor returns the highest block in both histories, and null exactly when the
   two start from different genesis blocks; the assertion at its end never fails.
   */
  method LastCommonAncestor(a: BlockIndex, b: BlockIndex, ghost tree: set<BlockIndex>) returns (last: BlockIndex?)
    requires Tree(tree) && a in tree && b in tree
    ensures last == null <==> a.Ancestor(0) != b.Ancestor(0)
    ensures last != null ==> IsAncestor(last, a) && IsAncestor(last, b) && PartedAbove(a, b, last.nHeight)
  {
    hide BlockIndex.Ancestor, BlockIndex.SkipOk, PartedAbove;
    var pa: BlockIndex? := a;
    var pb: BlockIndex? := b;
    SelfIsAncestor(a);
    SelfIsAncestor(b);
    if a.nHeight > b.nHeight {
      pa := a.GetAncestor(b.nHeight, tree);
      AncestorInTree(a, b.nHeight, tree);
    } else if b.nHeight > a.nHeight {
      pb := b.GetAncestor(a.nHeight, tree);
      AncestorInTree(b, a.nHeight, tree);
    }
    PartedAtTop(a, b, pa.nHeight);
    while pa != pb && pa != null && pb != null
      invariant (pa == null) == (pb == null)
      invariant pa != null ==> pa in tree && IsAncestor(pa, a) && PartedAbove(a, b, pa.nHeight)
      invariant pb != null ==> pb in tree && IsAncestor(pb, b) && pa.nHeight == pb.nHeight
      invariant pa == null ==> a.Ancestor(0) != b.Ancestor(0)
      decreases if pa == null then 0 else pa.nHeight + 1
    {
      if pa.pprev != null {
        ParentIsAncestor(pa, a);
        ParentIsAncestor(pb, b);
        PartedLower(a, b, pa.nHeight);
      }
      pa := pa.pprev;
      pb := pb.pprev;
    }
    assert pa == pb;
    if pa != null { SharedGenesis(a, b, pa); }
    last := pa;
  }

  lemma SharedGenesis(a: BlockIndex, b: BlockIndex, shared: BlockIndex)
    requires a.Rooted() && b.Rooted() && IsAncestor(shared, a) && IsAncestor(shared, b)
    ensures a.Ancestor(0) == b.Ancestor(0)
  {
    AncestorOfAncestor(a, shared.nHeight, 0);
    AncestorOfAncestor(b, shared.nHeight, 0);
  }

  ghost predicate IsChainOf(chain: seq<BlockIndex?>, tip: BlockIndex?) {
    && tip != null && tip.Rooted() && |chain| == tip.nHeight + 1
    && forall h :: 0 <= h < |chain| ==> chain[h] == tip.Ancestor(h)
  }

  lemma PartedAtTop(a: BlockIndex, b: BlockIndex, height: nat)
    requires a.Rooted() && b.Rooted() && (height >= a.nHeight || height >= b.nHeight)
    ensures PartedAbove(a, b, height)
  {
  }

  lemma PartedLower(a: BlockIndex, b: BlockIndex, height: nat)
    requires a.Rooted() && b.Rooted() && PartedAbove(a, b, height) && 0 < height <= a.nHeight && height <= b.nHeight
    requires a.Ancestor(height) != b.Ancestor(height)
    ensures PartedAbove(a, b, height - 1)
  {
  }

  lemma ParentIsAncestor(a: BlockIndex, b: BlockIndex)
    requires b.Rooted() && IsAncestor(a, b) && a.Rooted() && a.pprev != null
    ensures IsAncestor(a.pprev, b)
  {
    AncestorOfAncestor(b, a.nHeight, a.nHeight - 1);
  }

  /** A block found in place brings its whole history with it. */
  lemma OldPrefixFits(chain: seq<BlockIndex?>, a: BlockIndex, b: BlockIndex)
    requires chain != [] ==> IsChainOf(chain, chain[|chain| - 1])
    requires b.Rooted() && IsAncestor(a, b) && a.nHeight < |chain| && chain[a.nHeight] == a
    ensures forall h :: 0 <= h <= a.nHeight ==> chain[h] == b.Ancestor(h)
  {
    var tip := chain[|chain| - 1];
    forall h | 0 <= h <= a.nHeight ensures chain[h] == b.Ancestor(h) {
      AncestorOfAncestor(b, a.nHeight, h);
      AncestorOfAncestor(tip, a.nHeight, h);
    }
  }
}
