/**
 The block index: a tree of headers with skip pointers, and the active chain through it.
 */
module Chain {
  import opened Bits

  // ----- skip heights

  function InvertLowestOne(n: nat): nat {
    if n == 0 then 0 else BitAnd(n, n - 1)
  }

  /** The largest power of two that divides a number. */
  function LowestOne(n: nat): (r: nat)
    requires n > 0
    ensures 1 <= r <= n
  {
    if n % 2 == 1 then 1 else 2 * LowestOne(n / 2)
  }

  /** n & (n - 1) takes away the lowest one bit. */
  lemma {:induction false} InvertLowestOneSubtracts(n: nat)
    requires n > 0
    ensures InvertLowestOne(n) == n - LowestOne(n)
  {
    if n % 2 == 1 {
      assert (n - 1) / 2 == n / 2;
      BitAndSelf(n / 2);
    } else {
      InvertLowestOneSubtracts(n / 2);
      assert (n - 1) / 2 == n / 2 - 1;
    }
  }

  /** A skip never stays at its own height. */
  function GetSkipHeight(height: nat): (r: nat)
    ensures height > 0 ==> r < height
  {
    if height < 2 then 0
    else if height % 2 == 1 then
      InvertLowestOneSubtracts(height - 1);
      InvertLowestOne(InvertLowestOne(height - 1)) + 1
    else
      InvertLowestOneSubtracts(height);
      InvertLowestOne(height)
  }

  /** An even height skips over its lowest one bit; an odd one, past the one below it, over the two lowest of the rest. */
  lemma SkipHeightMeans(height: nat)
    requires height >= 2
    ensures height % 2 == 0 ==> GetSkipHeight(height) == height - LowestOne(height)
    ensures height % 2 == 1 ==> var rest := height - 1 - LowestOne(height - 1);
      GetSkipHeight(height) == 1 + if rest == 0 then 0 else rest - LowestOne(rest)
  {
    hide InvertLowestOne;
    var n := if height % 2 == 0 then height else height - 1;
    InvertLowestOneSubtracts(n);
    if n - LowestOne(n) > 0 { InvertLowestOneSubtracts(n - LowestOne(n)); } else { InvertNothing(); }
  }

  lemma InvertNothing()
    ensures InvertLowestOne(0) == 0
  {
  }

  // ----- the tree

  class BlockIndex {
    const hash: int
    const pprev: BlockIndex?
    const nHeight: nat
    var pskip: BlockIndex?

    constructor (hash: int, prev: BlockIndex?)
      requires prev != null ==> prev.Linked()
      ensures this.hash == hash && pprev == prev && pskip == null && Linked()
    {
      this.hash := hash;
      pprev := prev;
      nHeight := if prev == null then 0 else prev.nHeight + 1;
      pskip := null;
    }

    /** Heights count the blocks below. */
    ghost predicate Linked()
      decreases nHeight
    {
      if pprev == null then nHeight == 0 else nHeight == pprev.nHeight + 1 && pprev.Linked()
    }

    /** Walking pprev down to a height. */
    ghost function Ancestor(height: nat): (r: BlockIndex)
      requires Linked() && height <= nHeight
      ensures r.Linked() && r.nHeight == height
      decreases nHeight
    {
      if height == nHeight then this else pprev.Ancestor(height)
    }

    ghost predicate SkipOk()
      requires Linked()
      reads this
    {
      pskip != null ==> nHeight > 0 && pskip == Ancestor(GetSkipHeight(nHeight))
    }

    method GetAncestor(height: int, ghost tree: set<BlockIndex>) returns (r: BlockIndex?)
      requires this in tree && TreeOk(tree)
      ensures r == if 0 <= height <= nHeight then Ancestor(height) else null
    {
      hide GetSkipHeight;
      if height > nHeight || height < 0 { return null; }
      var walk, heightWalk := this, nHeight;
      while heightWalk > height
        invariant walk in tree && walk.nHeight == heightWalk >= height
        invariant walk.Ancestor(height) == Ancestor(height)
      {
        var heightSkip := GetSkipHeight(heightWalk);
        var heightSkipPrev := GetSkipHeight(heightWalk - 1);
        if walk.pskip != null
           && (heightSkip == height
               || (heightSkip > height && !(heightSkipPrev < heightSkip - 2 && heightSkipPrev >= height))) {
          AncestorTwice(walk, heightSkip, height);
          AncestorInTree(tree, walk, heightSkip);
          walk, heightWalk := walk.pskip, heightSkip;
        } else {
          walk, heightWalk := walk.pprev, heightWalk - 1;
        }
      }
      return walk;
    }

    method BuildSkip(ghost tree: set<BlockIndex>)
      requires this in tree && TreeOk(tree)
      modifies `pskip
      ensures TreeOk(tree)
      ensures pskip == if pprev == null then old(pskip) else Ancestor(GetSkipHeight(nHeight))
    {
      if pprev != null {
        pskip := pprev.GetAncestor(GetSkipHeight(nHeight), tree);
      }
    }
  }

  /** Closed under pprev, with every skip pointer at the ancestor of its skip height. */
  ghost predicate TreeOk(tree: set<BlockIndex>)
    reads tree
  {
    forall b :: b in tree ==> b.Linked() && b.SkipOk() && (b.pprev != null ==> b.pprev in tree)
  }

  lemma Members(tree: set<BlockIndex>, b: BlockIndex)
    requires TreeOk(tree) && b in tree
    ensures b.Linked() && (b.pprev != null ==> b.pprev in tree)
  {
  }

  lemma {:induction false} AncestorTwice(b: BlockIndex, middle: nat, low: nat)
    requires b.Linked() && low <= middle <= b.nHeight
    ensures b.Ancestor(middle).Ancestor(low) == b.Ancestor(low)
    decreases b.nHeight
  {
    if middle < b.nHeight { AncestorTwice(b.pprev, middle, low); }
  }

  lemma {:induction false} AncestorInTree(tree: set<BlockIndex>, b: BlockIndex, height: nat)
    requires TreeOk(tree) && b in tree && height <= b.nHeight
    ensures b.Ancestor(height) in tree
    decreases b.nHeight
  {
    if height < b.nHeight { AncestorInTree(tree, b.pprev, height); }
  }

  /** A new leaf. */
  method AddToBlockIndex(hash: int, prev: BlockIndex?, ghost tree: set<BlockIndex>) returns (b: BlockIndex)
    requires TreeOk(tree) && (prev != null ==> prev in tree)
    ensures fresh(b) && TreeOk(tree + {b})
    ensures b.hash == hash && b.pprev == prev && b.nHeight == (if prev == null then 0 else prev.nHeight + 1)
  {
    b := new BlockIndex(hash, prev);
    b.BuildSkip(tree + {b});
  }

  // ----- common ancestors

  ghost predicate IsAncestor(x: BlockIndex, b: BlockIndex)
    requires b.Linked()
  {
    x.nHeight <= b.nHeight && b.Ancestor(x.nHeight) == x
  }

  /**
   The highest common ancestor, or none when the blocks have different roots. The two walks
   always end together, so the final assertion of the source cannot fail.
   */
  method LastCommonAncestor(a: BlockIndex, b: BlockIndex, ghost tree: set<BlockIndex>) returns (r: BlockIndex?)
    requires TreeOk(tree) && a in tree && b in tree
    ensures r != null ==> IsAncestor(r, a) && IsAncestor(r, b)
    ensures forall x :: x in tree && IsAncestor(x, a) && IsAncestor(x, b) ==> r != null && x.nHeight <= r.nHeight
    ensures r == null <==> a.Ancestor(0) != b.Ancestor(0)
  {
    hide TreeOk, BlockIndex.SkipOk;
    Members(tree, a);
    Members(tree, b);
    var pa: BlockIndex?, pb: BlockIndex? := a, b;
    if a.nHeight > b.nHeight {
      pa := a.GetAncestor(b.nHeight, tree);
      AncestorInTree(tree, a, b.nHeight);
    } else if b.nHeight > a.nHeight {
      pb := b.GetAncestor(a.nHeight, tree);
      AncestorInTree(tree, b, a.nHeight);
    }
    ghost var top := pa.nHeight;
    while pa != pb && pa != null && pb != null
      invariant pa == null <==> pb == null
      invariant pa != null ==> pa in tree && pb in tree && pa.nHeight == pb.nHeight <= top && IsAncestor(pa, a) && IsAncestor(pb, b)
      invariant forall h :: (if pa == null then 0 else pa.nHeight + 1) <= h <= top ==> a.Ancestor(h) != b.Ancestor(h)
      decreases if pa == null then 0 else pa.nHeight + 1
    {
      Members(tree, pa);
      Members(tree, pb);
      if pa.pprev != null {
        AncestorTwice(a, pa.nHeight, pa.nHeight - 1);
        AncestorTwice(b, pa.nHeight, pa.nHeight - 1);
      }
      pa := pa.pprev;
      pb := pb.pprev;
    }
    assert pa == pb;
    if pa != null {
      AncestorTwice(a, pa.nHeight, 0);
      AncestorTwice(b, pa.nHeight, 0);
    }
    return pa;
  }

  // ----- the active chain

  class ActiveChain {
    var vChain: seq<BlockIndex?>

    /** Empty, or exactly the ancestors of the last entry. */
    ghost predicate Valid(tree: set<BlockIndex>)
      reads this, tree
    {
      TreeOk(tree) && (vChain != [] ==> Last(vChain) in tree && Follows(vChain, Last(vChain)))
    }

    constructor ()
      ensures vChain == []
    {
      vChain := [];
    }

    function Height(): (r: int)
      reads this
    {
      |vChain| - 1
    }

    function At(height: int): (r: BlockIndex?)
      reads this
    {
      if height < 0 || height >= |vChain| then null else vChain[height]
    }

    predicate Contains(b: BlockIndex)
      reads this
    {
      At(b.nHeight) == b
    }

    /** On a valid chain membership means being an ancestor of the tip. */
    lemma ContainsMeans(tree: set<BlockIndex>, b: BlockIndex)
      requires Valid(tree)
      ensures Contains(b) <==> vChain != [] && IsAncestor(b, Last(vChain))
    {
    }

    method SetTip(block: BlockIndex, ghost tree: set<BlockIndex>)
      requires Valid(tree) && block in tree
      modifies this
      ensures Valid(tree)
      ensures |vChain| == block.nHeight + 1 && Follows(vChain, block)
    {
      ghost var before := vChain;
      vChain := Resized(vChain, block.nHeight + 1);
      var b: BlockIndex? := block;
      while b != null && vChain[b.nHeight] != b
        invariant |vChain| == block.nHeight + 1
        invariant b != null ==> b in tree && IsAncestor(b, block)
        invariant forall i :: (if b == null then 0 else b.nHeight + 1) <= i < |vChain| ==> vChain[i] == block.Ancestor(i)
        invariant forall i :: 0 <= i < (if b == null then 0 else b.nHeight + 1) && i < |before| ==> vChain[i] == before[i]
        invariant forall i :: |before| <= i < (if b == null then 0 else b.nHeight + 1) ==> vChain[i] == null
        decreases if b == null then 0 else b.nHeight + 1
      {
        if b.pprev != null { AncestorTwice(block, b.nHeight, b.nHeight - 1); }
        vChain := vChain[b.nHeight := b];
        b := b.pprev;
      }
      if b != null { EarlyStop(before, block, b, tree); }
      assert Last(vChain) == block;
    }

    /** The highest ancestor of a block that is in the chain. */
    method FindFork(block: BlockIndex?, ghost tree: set<BlockIndex>) returns (r: BlockIndex?)
      requires Valid(tree) && (block != null ==> block in tree)
      ensures block == null ==> r == null
      ensures r != null ==> Contains(r) && IsAncestor(r, block)
      ensures block != null ==> forall x :: x in tree && Contains(x) && IsAncestor(x, block) ==> r != null && x.nHeight <= r.nHeight
    {
      hide Follows, TreeOk, BlockIndex.SkipOk;
      if block == null { return null; }
      Members(tree, block);
      r := block;
      if block.nHeight > Height() {
        r := block.GetAncestor(Height(), tree);
        if r != null { AncestorInTree(tree, block, Height()); }
      }
      while r != null && !Contains(r)
        invariant r != null ==> r in tree && IsAncestor(r, block)
        invariant forall h :: (if r == null then 0 else r.nHeight + 1) <= h <= block.nHeight ==> At(h) != block.Ancestor(h)
        decreases if r == null then 0 else r.nHeight + 1
      {
        Members(tree, r);
        if r.pprev != null { AncestorTwice(block, r.nHeight, r.nHeight - 1); }
        r := r.pprev;
      }
    }
  }

  ghost function Last(s: seq<BlockIndex?>): BlockIndex?
    requires s != []
  {
    s[|s| - 1]
  }

  /** Every entry is the tip's ancestor of its height. */
  ghost predicate Follows(s: seq<BlockIndex?>, tip: BlockIndex?) {
    && tip != null && tip.Linked() && |s| == tip.nHeight + 1
    && forall i :: 0 <= i < |s| ==> s[i] == tip.Ancestor(i)
  }

  function Resized(s: seq<BlockIndex?>, n: nat): (r: seq<BlockIndex?>)
    ensures |r| == n && forall i :: 0 <= i < n ==> r[i] == if i < |s| then s[i] else null
  {
    if n <= |s| then s[..n] else s + seq(n - |s|, i => null)
  }

  /** Two chains that meet at a block agree below it, so SetTip may stop there. */
  lemma EarlyStop(s: seq<BlockIndex?>, block: BlockIndex, b: BlockIndex, tree: set<BlockIndex>)
    requires TreeOk(tree) && block in tree && b in tree && IsAncestor(b, block)
    requires b.nHeight < |s| && s[b.nHeight] == b && Follows(s, Last(s))
    ensures forall i :: 0 <= i <= b.nHeight ==> s[i] == block.Ancestor(i)
  {
    forall i | 0 <= i <= b.nHeight ensures s[i] == block.Ancestor(i) {
      AncestorTwice(block, b.nHeight, i);
      AncestorTwice(Last(s), b.nHeight, i);
    }
  }

  // ----- block locators

  /** How far below the n-th entry the next one lies. */
  function Stride(n: nat): nat {
    if n <= 10 then 1 else Pow2(n - 10)
  }

  function Below(height: nat, n: nat): nat {
    if height <= Stride(n) then 0 else height - Stride(n)
  }

  /** The heights of a locator whose first entry is number n. */
  function LocatorHeights(height: nat, n: nat): (hs: seq<nat>)
    ensures hs != [] && hs[0] == height
    decreases height
  {
    if height == 0 then [0] else [height] + LocatorHeights(Below(height, n), n + 1)
  }

  /** A locator descends strictly to the genesis block, by ones at first and then by doubling strides. */
  lemma {:induction false} LocatorShape(height: nat, n: nat)
    ensures var hs := LocatorHeights(height, n);
      && hs[|hs| - 1] == 0
      && forall i :: 0 <= i < |hs| - 1 ==> hs[i + 1] == Below(hs[i], n + i) && hs[i + 1] < hs[i] <= height
    decreases height
  {
    if height != 0 {
      LocatorShape(Below(height, n), n + 1);
      var hs, rest := LocatorHeights(height, n), LocatorHeights(Below(height, n), n + 1);
      forall i | 0 <= i < |hs| - 1 ensures hs[i + 1] == Below(hs[i], n + i) && hs[i + 1] < hs[i] <= height {
        if i > 0 { assert hs[i] == rest[i - 1] && hs[i + 1] == rest[i] && n + 1 + (i - 1) == n + i; }
      }
    }
  }

  lemma Halve(p: nat, q: nat)
    requires q > 0
    ensures p * (2 * q - 1) - p == (2 * p) * (q - 1) >= 0
  {
  }

  /** Past the tenth entry, k more entries cover a distance that doubles with k. */
  lemma {:induction false} LocatorDoubles(height: nat, n: nat, k: nat)
    requires n >= 10 && height <= Pow2(n - 10) * (Pow2(k) - 1)
    ensures |LocatorHeights(height, n)| <= k + 1
    decreases k
  {
    if k > 0 && height > 0 {
      var p, q := Pow2(n - 10), Pow2(k - 1);
      assert Pow2(n + 1 - 10) == 2 * p;
      Halve(p, q);
      LocatorDoubles(Below(height, n), n + 1, k - 1);
    }
  }

  /** The length of a locator is logarithmic: eleven entries and k more reach back past 2^k blocks. */
  lemma {:induction false} LocatorShort(height: nat, n: nat, k: nat)
    requires n <= 10 && height < 10 - n + Pow2(k)
    ensures |LocatorHeights(height, n)| <= 11 - n + k
    decreases 10 - n
  {
    if n == 10 {
      assert Pow2(0) == 1;
      LocatorDoubles(height, n, k);
    } else if height > 0 {
      LocatorShort(Below(height, n), n + 1, k);
    }
  }

  ghost function LocatorHashes(b: BlockIndex, n: nat): seq<int>
    requires b.Linked()
    decreases b.nHeight
  {
    [b.hash] + if b.nHeight == 0 then [] else LocatorHashes(b.Ancestor(Below(b.nHeight, n)), n + 1)
  }

  /** The hashes are those of the block's own ancestors at the locator heights. */
  lemma {:induction false} LocatorNamesAncestors(b: BlockIndex, n: nat, i: nat)
    requires b.Linked() && i < |LocatorHeights(b.nHeight, n)|
    ensures |LocatorHashes(b, n)| == |LocatorHeights(b.nHeight, n)|
    ensures LocatorHeights(b.nHeight, n)[i] <= b.nHeight
    ensures LocatorHashes(b, n)[i] == b.Ancestor(LocatorHeights(b.nHeight, n)[i]).hash
    decreases b.nHeight
  {
    if b.nHeight > 0 {
      var next := b.Ancestor(Below(b.nHeight, n));
      LocatorNamesAncestors(next, n + 1, if i == 0 then 0 else i - 1);
      if i > 0 { AncestorTwice(b, next.nHeight, LocatorHeights(next.nHeight, n + 1)[i - 1]); }
    }
  }

  lemma LocatorNext(have: seq<int>, b: BlockIndex)
    requires b.Linked()
    ensures b.nHeight == 0 ==> have + LocatorHashes(b, |have|) == have + [b.hash]
    ensures b.nHeight > 0 ==>
      have + LocatorHashes(b, |have|) == (have + [b.hash]) + LocatorHashes(b.Ancestor(Below(b.nHeight, |have|)), |have| + 1)
    ensures Stride(0) == 1 && Stride(|have|) > 0 && Stride(|have| + 1) == if |have| + 1 > 10 then 2 * Stride(|have|) else Stride(|have|)
  {
  }

  method LocatorEntries(index: BlockIndex?, ghost tree: set<BlockIndex>) returns (have: seq<int>)
    requires TreeOk(tree) && (index != null ==> index in tree)
    ensures have == if index == null then [] else LocatorHashes(index, 0)
  {
    hide TreeOk, BlockIndex.Linked, BlockIndex.Ancestor, LocatorHashes, Stride;
    have := [];
    if index == null { return; }
    var step := 1;
    var walk := index;
    Members(tree, walk);
    LocatorNext(have, walk);
    while true
      invariant walk in tree && walk.Linked() && step == Stride(|have|)
      invariant have + LocatorHashes(walk, |have|) == LocatorHashes(index, 0)
      decreases walk.nHeight
    {
      LocatorNext(have, walk);
      have := have + [walk.hash];
      if walk.nHeight == 0 { break; }
      var height := if walk.nHeight - step > 0 then walk.nHeight - step else 0;
      AncestorInTree(tree, walk, height);
      walk := walk.GetAncestor(height, tree);
      if |have| > 10 { step := step * 2; }
    }
  }
}
