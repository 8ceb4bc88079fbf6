/**
 The merged-mining check: a parent block's coinbase commits to one block of this chain.
 */
module AuxPow {
  import opened Bits
  import opened Limbs

  type Byte = x: int | 0 <= x < 256

  type Digest = s: seq<Byte> | |s| == 32 witness seq(32, i => 0)

  const TWO_64 := BASE * BASE
  const MAX_CHAIN_BRANCH := 30
  const MERGED_MINING_HEADER: seq<Byte> := [0xfa, 0xbe, 0x6d, 0x6d]

  function ZeroDigest(): Digest { seq(32, i => 0) }

  /** The hash of two concatenated digests. */
  type PairHash = (Digest, Digest) -> Digest

  // ----- merkle branches

  /** The two digests hashed together at the lowest level of a branch. */
  function PairOf(hash: Digest, sibling: Digest, index: int): (Digest, Digest) {
    if index % 2 == 1 then (sibling, hash) else (hash, sibling)
  }

  function Apply(h: PairHash, pair: (Digest, Digest)): Digest { h(pair.0, pair.1) }

  function Fold(h: PairHash, hash: Digest, branch: seq<Digest>, index: int): Digest
    decreases |branch|
  {
    if branch == [] then hash
    else Fold(h, Apply(h, PairOf(hash, branch[0], index)), branch[1..], index / 2)
  }

  /** What CheckMerkleBranch returns. */
  function BranchRoot(h: PairHash, hash: Digest, branch: seq<Digest>, index: int): Digest {
    if index == -1 then ZeroDigest() else Fold(h, hash, branch, index)
  }

  method CheckMerkleBranch(h: PairHash, hash: Digest, branch: seq<Digest>, index: int) returns (r: Digest)
    ensures r == BranchRoot(h, hash, branch, index)
  {
    if index == -1 { return ZeroDigest(); }
    r := hash;
    var n := index;
    for i := 0 to |branch|
      invariant Fold(h, r, branch[i..], n) == Fold(h, hash, branch, index)
    {
      assert branch[i..][0] == branch[i] && branch[i..][1..] == branch[i + 1..];
      if n % 2 == 1 {
        r := h(branch[i], r);
      } else {
        r := h(r, branch[i]);
      }
      n := n / 2;
    }
  }

  /** The pair hashed at a level of a branch. */
  function PairAt(h: PairHash, hash: Digest, branch: seq<Digest>, index: int, level: nat): (Digest, Digest)
    requires level < |branch|
    decreases level
  {
    var pair := PairOf(hash, branch[0], index);
    if level == 0 then pair else PairAt(h, Apply(h, pair), branch[1..], index / 2, level - 1)
  }

  /** At this level the two branches hash different pairs to the same digest. */
  predicate CollisionAt(h: PairHash, x: Digest, xs: seq<Digest>, y: Digest, ys: seq<Digest>, index: int, level: nat) {
    && level < |xs| && level < |ys|
    && PairAt(h, x, xs, index, level) != PairAt(h, y, ys, index, level)
    && Apply(h, PairAt(h, x, xs, index, level)) == Apply(h, PairAt(h, y, ys, index, level))
  }

  /** Two different branches of one length to one root at one slot contain a hash collision. */
  lemma {:induction false} FindCollision(h: PairHash, x: Digest, xs: seq<Digest>, y: Digest, ys: seq<Digest>, index: int)
    returns (level: nat)
    requires |xs| == |ys| && Fold(h, x, xs, index) == Fold(h, y, ys, index) && (x != y || xs != ys)
    ensures CollisionAt(h, x, xs, y, ys, index, level)
    decreases |xs|
  {
    var p, q := PairOf(x, xs[0], index), PairOf(y, ys[0], index);
    if p != q && Apply(h, p) == Apply(h, q) {
      level := 0;
    } else {
      assert xs == [xs[0]] + xs[1..] && ys == [ys[0]] + ys[1..];
      var above := FindCollision(h, Apply(h, p), xs[1..], Apply(h, q), ys[1..], index / 2);
      level := above + 1;
    }
  }

  /** The level of a tree above some digests: each pair hashed, left before right. */
  function Above(h: PairHash, level: seq<Digest>): (r: seq<Digest>)
    requires |level| % 2 == 0
    ensures |r| == |level| / 2 && forall i :: 0 <= i < |r| ==> r[i] == h(level[2 * i], level[2 * i + 1])
  {
    seq(|level| / 2, i requires 0 <= i < |level| / 2 => h(level[2 * i], level[2 * i + 1]))
  }

  /** The root of a full tree. */
  function TreeRoot(h: PairHash, leaves: seq<Digest>, height: nat): Digest
    requires |leaves| == Pow2(height)
    decreases height
  {
    if height == 0 then leaves[0] else TreeRoot(h, Above(h, leaves), height - 1)
  }

  /** The siblings on the way from a leaf to the root. */
  function TreeBranch(h: PairHash, leaves: seq<Digest>, height: nat, i: nat): (b: seq<Digest>)
    requires |leaves| == Pow2(height) && i < |leaves|
    ensures |b| == height
    decreases height
  {
    if height == 0 then [] else
    [leaves[if i % 2 == 0 then i + 1 else i - 1]] + TreeBranch(h, Above(h, leaves), height - 1, i / 2)
  }

  /** From any leaf of a full tree its branch leads to the root. */
  lemma {:induction false} BranchLeadsToRoot(h: PairHash, leaves: seq<Digest>, height: nat, i: nat)
    requires |leaves| == Pow2(height) && i < |leaves|
    ensures BranchRoot(h, leaves[i], TreeBranch(h, leaves, height, i), i) == TreeRoot(h, leaves, height)
    decreases height
  {
    hide PairOf, Above, Apply, Pow2;
    Levels(height);
    if height > 0 {
      var up := Above(h, leaves);
      BranchLeadsToRoot(h, up, height - 1, i / 2);
      ParentOf(h, leaves, i);
      var sibling := leaves[if i % 2 == 0 then i + 1 else i - 1];
      hide Fold;
      FoldOnce(h, leaves[i], sibling, TreeBranch(h, up, height - 1, i / 2), i);
    }
  }

  lemma Levels(height: nat)
    ensures Pow2(height) == if height == 0 then 1 else 2 * Pow2(height - 1)
  {
  }

  lemma ParentOf(h: PairHash, level: seq<Digest>, i: nat)
    requires |level| % 2 == 0 && i < |level|
    ensures Above(h, level)[i / 2] == Apply(h, PairOf(level[i], level[if i % 2 == 0 then i + 1 else i - 1], i))
  {
  }

  lemma FoldOnce(h: PairHash, hash: Digest, sibling: Digest, rest: seq<Digest>, index: int)
    ensures Fold(h, hash, [sibling] + rest, index) == Fold(h, Apply(h, PairOf(hash, sibling, index)), rest, index / 2)
  {
    assert ([sibling] + rest)[1..] == rest;
  }

  // ----- numbers in the coinbase

  function LittleEndian(bytes: seq<Byte>): (r: nat)
    ensures r < Pow2(8 * |bytes|)
  {
    if bytes == [] then 0 else
    Pow2Add(8, 8 * (|bytes| - 1));
    Pow2Values();
    bytes[0] + 256 * LittleEndian(bytes[1..])
  }

  method DecodeLE32(bytes: seq<Byte>) returns (res: nat)
    requires |bytes| >= 4
    ensures res == LittleEndian(bytes[..4]) < BASE
  {
    hide BitOr;
    res := 0;
    ghost var word := bytes[..4];
    Pow2Values();
    for i := 0 to 4
      invariant res == LittleEndian(word[4 - i..])
    {
      assert word[3 - i..][0] == bytes[3 - i] && word[3 - i..][1..] == word[4 - i..];
      OrDisjoint(res, 8, bytes[3 - i]);
      res := BitOr(res * 256, bytes[3 - i]);
    }
    assert word[0..] == word;
  }

  // ----- the slot of a chain

  const MULTIPLIER := 1103515245
  const INCREMENT := 12345

  /** The slot, in unbounded integers. */
  function Slot(nonce: nat, chainId: int, height: nat): int {
    (((nonce * MULTIPLIER + INCREMENT) % Pow2(height) + chainId) * MULTIPLIER + INCREMENT) % Pow2(height)
  }

  /** The slot in one step: linear in the nonce and in the chain id. */
  lemma SlotLinear(nonce: nat, chainId: int, height: nat)
    ensures Slot(nonce, chainId, height) == (nonce * 1217745895947410025 + chainId * 1103515245 + 13622895711870) % Pow2(height)
  {
    hide Pow2;
    var m := Pow2(height);
    var x := nonce * MULTIPLIER + INCREMENT;
    SumScaled(x, chainId, m);
    TwoSteps(nonce, chainId);
  }

  /** The remainder of a summand may be left out before a linear step. */
  lemma SumScaled(x: int, c: int, m: nat)
    requires m > 0
    ensures ((x % m + c) * MULTIPLIER + INCREMENT) % m == ((x + c) * MULTIPLIER + INCREMENT) % m
  {
    PartialMod(x, c, m);
    SameStep(x % m + c, x + c, m);
  }

  lemma PartialMod(x: int, c: int, m: nat)
    requires m > 0
    ensures (x % m + c) % m == (x + c) % m
  {
    var q, r := x / m, x % m;
    RemainderSkips(r + c, q, m);
  }

  lemma SameStep(x: int, y: int, m: nat)
    requires m > 0 && x % m == y % m
    ensures (x * MULTIPLIER + INCREMENT) % m == (y * MULTIPLIER + INCREMENT) % m
  {
    LinearMod(x, m);
    LinearMod(y, m);
  }

  lemma TwoSteps(nonce: int, c: int)
    ensures (nonce * MULTIPLIER + INCREMENT + c) * MULTIPLIER + INCREMENT == nonce * 1217745895947410025 + c * 1103515245 + 13622895711870
  {
  }

  /** An odd factor can be cancelled modulo a power of two. */
  lemma {:induction false} OddCancels(k: int, d: int, height: nat)
    requires k % 2 == 1 && k * d % Pow2(height) == 0
    ensures d % Pow2(height) == 0
    decreases height
  {
    if height > 0 {
      var m := Pow2(height - 1);
      var q := k * d / Pow2(height);
      Reorder(q, 2, m);
      assert k * d == 2 * (q * m);
      EvenFactor(k, d, q * m);
      var half := d / 2;
      assert k * half == q * m;
      DivModUnique(k * half, q, 0, m);
      OddCancels(k, half, height - 1);
      assert half == half / m * m;
      Reorder(half / m, 2, m);
      DivModUnique(d, half / m, 0, Pow2(height));
    }
  }

  lemma EvenFactor(k: int, d: int, x: int)
    requires k % 2 == 1 && k * d == 2 * x
    ensures d % 2 == 0 && k * (d / 2) == x
  {
    var j := k / 2;
    assert k == 2 * j + 1;
    assert k * d == 2 * (j * d) + d;
    assert d == 2 * (x - j * d);
    assert k * d == 2 * (k * (d / 2));
  }

  lemma Congruent(a: int, b: int, m: nat)
    requires m > 0
    ensures a % m == b % m <==> (a - b) % m == 0
  {
    var qa, qb := a / m, b / m;
    if a % m == b % m {
      Distribute(qa, -qb, m);
      DivModUnique(a - b, qa - qb, 0, m);
    }
    if (a - b) % m == 0 {
      var q := (a - b) / m;
      assert a == q * m + b;
      RemainderSkips(b, q, m);
    }
  }

  lemma Scaled(k: int, d: int, height: nat)
    requires k % 2 == 1
    ensures k * d % Pow2(height) == 0 <==> d % Pow2(height) == 0
  {
    hide Pow2;
    var m := Pow2(height);
    if d % m == 0 {
      Reorder(k, d / m, m);
      DivModUnique(k * d, k * (d / m), 0, m);
    }
    if k * d % m == 0 { OddCancels(k, d, height); }
  }

  /** Two chains share a slot exactly when their ids agree modulo the size of the tree. */
  lemma SlotsClash(nonce: nat, chainId: int, chainId2: int, height: nat)
    ensures Slot(nonce, chainId, height) == Slot(nonce, chainId2, height) <==> (chainId - chainId2) % Pow2(height) == 0
  {
    hide Pow2, Slot;
    SlotLinear(nonce, chainId, height);
    SlotLinear(nonce, chainId2, height);
    var c := nonce * 1217745895947410025 + 13622895711870;
    Congruent(c + chainId * MULTIPLIER, c + chainId2 * MULTIPLIER, Pow2(height));
    Scaled(MULTIPLIER, chainId - chainId2, height);
  }

  /** Two nonces give a chain the same slot exactly when they agree modulo the size of the tree. */
  lemma NoncesClash(nonce: nat, nonce2: nat, chainId: int, height: nat)
    ensures Slot(nonce, chainId, height) == Slot(nonce2, chainId, height) <==> (nonce - nonce2) % Pow2(height) == 0
  {
    hide Pow2, Slot;
    SlotLinear(nonce, chainId, height);
    SlotLinear(nonce2, chainId, height);
    var c := chainId * MULTIPLIER + 13622895711870;
    Congruent(c + nonce * 1217745895947410025, c + nonce2 * 1217745895947410025, Pow2(height));
    Scaled(1217745895947410025, nonce - nonce2, height);
  }

  /** A remainder modulo 2^64 may be taken first. */
  lemma WrapHarmless(x: int, height: nat)
    requires height <= 64
    ensures x % TWO_64 % Pow2(height) == x % Pow2(height)
  {
    hide Pow2;
    Pow2Values();
    Pow2Add(32, 32);
    Pow2Add(height, 64 - height);
    ModMod(x, Pow2(height), Pow2(64 - height));
  }

  lemma ModMod(x: int, m: nat, k: nat)
    requires m > 0 && k > 0 && m * k > 0
    ensures x % (m * k) % m == x % m
  {
    var q, r := x / (m * k), x % (m * k);
    assert x == q * (m * k) + r;
    Reorder(q, m, k);
    RemainderSkips(r, q * k, m);
  }

  lemma RemainderSkips(r: int, k: int, m: nat)
    requires m > 0
    ensures (k * m + r) % m == r % m
  {
    Distribute(k, r / m, m);
    DivModUnique(k * m + r, k + r / m, r % m, m);
  }

  /** A remainder may be taken before a linear step. */
  lemma LinearMod(x: int, m: nat)
    requires m > 0
    ensures (x % m * MULTIPLIER + INCREMENT) % m == (x * MULTIPLIER + INCREMENT) % m
  {
    var q, r := x / m, x % m;
    assert x == q * m + r;
    StepSkips(q, m, r, MULTIPLIER, INCREMENT);
  }

  lemma StepSkips(q: int, m: nat, r: int, k: int, c: int)
    requires m > 0
    ensures ((q * m + r) * k + c) % m == (r * k + c) % m
  {
    Stepped(q, m, r, k, c);
    RemainderSkips(r * k + c, q * k, m);
  }

  lemma Stepped(q: int, m: int, r: int, k: int, c: int)
    ensures (q * m + r) * k + c == q * k * m + (r * k + c)
  {
    Distribute(q * m, r, k);
    Reorder(q, m, k);
  }

  /** The source computes in wrapping 64-bit arithmetic, also for a negative chain id; the slot is unaffected. */
  method GetExpectedIndex(nonce: nat, chainId: int, height: nat) returns (r: nat)
    requires nonce < BASE && height < 32
    ensures r == Slot(nonce, chainId, height) < Pow2(height)
  {
    hide Pow2;
    var mod := Pow2(height);
    var rand := nonce;
    WrapHarmless(nonce * MULTIPLIER + INCREMENT, height);
    rand := (rand * MULTIPLIER + INCREMENT) % TWO_64;
    rand := rand % mod;
    ghost var sum := rand + chainId;
    rand := (rand + chainId) % TWO_64;
    WrapHarmless(rand * MULTIPLIER + INCREMENT, height);
    LinearMod(rand, mod);
    WrapHarmless(sum, height);
    LinearMod(sum, mod);
    rand := (rand * MULTIPLIER + INCREMENT) % TWO_64;
    rand := rand % mod;
    return rand;
  }

  // ----- searching a script

  predicate Occurs(script: seq<Byte>, pattern: seq<Byte>, at: int) {
    0 <= at <= |script| - |pattern| && script[at..at + |pattern|] == pattern
  }

  /** std::search from a position: the first occurrence, or the end. */
  function Search(script: seq<Byte>, pattern: seq<Byte>, from: nat): (r: nat)
    requires from <= |script| && pattern != []
    ensures from <= r <= |script|
    ensures r < |script| ==> Occurs(script, pattern, r)
    ensures forall i :: from <= i < r ==> !Occurs(script, pattern, i)
    decreases |script| - from
  {
    if from == |script| || Occurs(script, pattern, from) then from else Search(script, pattern, from + 1)
  }

  function Reverse(s: seq<Byte>): (r: seq<Byte>)
    ensures |r| == |s| && forall i :: 0 <= i < |s| ==> r[i] == s[|s| - 1 - i]
  {
    seq(|s|, i requires 0 <= i < |s| => s[|s| - 1 - i])
  }

  // ----- the check

  datatype Coinbase = Coinbase(scriptSigs: seq<seq<Byte>>, rest: int)

  datatype Parent = Parent(chainId: int, oldChainId: int, merkleRoot: Digest)

  datatype Params = Params(strictChainId: bool, chainId: int, oldChainId: int)

  datatype Proof = Proof(coinbase: Coinbase, merkleBranch: seq<Digest>, chainBranch: seq<Digest>, chainIndex: int, parent: Parent)

  datatype Verdict =
    | Valid
    | ParentHasOurChainId
    | ParentHasOurOldChainId
    | ChainBranchTooLong
    | MerkleRootIncorrect
    | NoInputs
    | MissingRoot
    | MultipleHeaders
    | HeaderNotBeforeRoot
    | MissingHeader
    | MissingSizeAndNonce
    | WrongSize
    | WrongIndex

  /** The reversed chain root that the coinbase must hold. */
  function RootBytes(h: PairHash, p: Proof, auxHash: Digest): (r: seq<Byte>)
    ensures |r| == 32
  {
    Reverse(BranchRoot(h, auxHash, p.chainBranch, p.chainIndex))
  }

  function Check(h: PairHash, txHash: Coinbase -> Digest, p: Proof, auxHash: Digest, chainId: int, params: Params): Verdict {
    if params.strictChainId && p.parent.chainId > 0 && p.parent.chainId == params.chainId then ParentHasOurChainId
    else if params.strictChainId && p.parent.chainId <= 0 && p.parent.oldChainId == params.oldChainId then ParentHasOurOldChainId
    else if |p.chainBranch| > MAX_CHAIN_BRANCH then ChainBranchTooLong
    else if BranchRoot(h, txHash(p.coinbase), p.merkleBranch, 0) != p.parent.merkleRoot then MerkleRootIncorrect
    else if p.coinbase.scriptSigs == [] then NoInputs
    else CheckScript(p.coinbase.scriptSigs[0], RootBytes(h, p, auxHash), |p.chainBranch|, p.chainIndex, chainId)
  }

  function CheckScript(script: seq<Byte>, root: seq<Byte>, height: nat, chainIndex: int, chainId: int): Verdict
    requires |root| == 32 && height <= MAX_CHAIN_BRANCH
  {
    var head := Search(script, MERGED_MINING_HEADER, 0);
    var pc := Search(script, root, 0);
    if pc == |script| then MissingRoot
    else if head == |script| then MissingHeader
    else if Search(script, MERGED_MINING_HEADER, head + 1) != |script| then MultipleHeaders
    else if head + 4 != pc then HeaderNotBeforeRoot
    else if |script| - (pc + 32) < 8 then MissingSizeAndNonce
    else if LittleEndian(script[pc + 32..pc + 36]) != Pow2(height) then WrongSize
    else if chainIndex != Slot(LittleEndian(script[pc + 36..pc + 40]), chainId, height) then WrongIndex
    else Valid
  }

  /** The only place of a pattern. */
  predicate OnlyAt(script: seq<Byte>, pattern: seq<Byte>, at: int) {
    Occurs(script, pattern, at) && forall i :: 0 <= i < |script| && i != at ==> !Occurs(script, pattern, i)
  }

  predicate FirstAt(script: seq<Byte>, pattern: seq<Byte>, at: int) {
    Occurs(script, pattern, at) && forall i :: 0 <= i < at ==> !Occurs(script, pattern, i)
  }

  /** A script commits to a root, a tree height and a slot: one header, then the root, the size and the nonce. */
  predicate Commits(script: seq<Byte>, root: seq<Byte>, height: nat, slot: int, chainId: int, head: nat) {
    && |root| == 32
    && OnlyAt(script, MERGED_MINING_HEADER, head)
    && FirstAt(script, root, head + 4)
    && head + 44 <= |script|
    && LittleEndian(script[head + 36..head + 40]) == Pow2(height)
    && slot == Slot(LittleEndian(script[head + 40..head + 44]), chainId, height)
  }

  lemma CheckScriptExact(script: seq<Byte>, root: seq<Byte>, height: nat, chainIndex: int, chainId: int)
    requires |root| == 32 && height <= MAX_CHAIN_BRANCH
    ensures CheckScript(script, root, height, chainIndex, chainId) == Valid <==>
      exists head: nat :: Commits(script, root, height, chainIndex, chainId, head)
  {
    hide LittleEndian, Slot, Pow2;
    var head := Search(script, MERGED_MINING_HEADER, 0);
    if CheckScript(script, root, height, chainIndex, chainId) == Valid {
      assert Commits(script, root, height, chainIndex, chainId, head);
    }
    if at: nat :| Commits(script, root, height, chainIndex, chainId, at) {
      assert head == at;
      assert Search(script, root, 0) == at + 4;
    }
  }

  /** The check passes exactly when the parent is another chain's, includes the coinbase, and the coinbase commits to the block at its slot. */
  lemma CheckExact(h: PairHash, txHash: Coinbase -> Digest, p: Proof, auxHash: Digest, chainId: int, params: Params)
    ensures Check(h, txHash, p, auxHash, chainId, params) == Valid <==>
      && !(params.strictChainId && (if p.parent.chainId > 0 then p.parent.chainId == params.chainId else p.parent.oldChainId == params.oldChainId))
      && |p.chainBranch| <= MAX_CHAIN_BRANCH
      && BranchRoot(h, txHash(p.coinbase), p.merkleBranch, 0) == p.parent.merkleRoot
      && p.coinbase.scriptSigs != []
      && exists head: nat :: Commits(p.coinbase.scriptSigs[0], RootBytes(h, p, auxHash), |p.chainBranch|, p.chainIndex, chainId, head)
  {
    hide CheckScript, Commits, RootBytes, BranchRoot;
    if p.coinbase.scriptSigs != [] && |p.chainBranch| <= MAX_CHAIN_BRANCH {
      CheckScriptExact(p.coinbase.scriptSigs[0], RootBytes(h, p, auxHash), |p.chainBranch|, p.chainIndex, chainId);
    }
  }

  /** The script of a coinbase that announces a tree: one header, then its root, its size and the nonce. */
  predicate Announces(script: seq<Byte>, root: Digest, height: nat, nonce: nat, head: nat) {
    && OnlyAt(script, MERGED_MINING_HEADER, head)
    && FirstAt(script, Reverse(root), head + 4)
    && head + 44 <= |script|
    && LittleEndian(script[head + 36..head + 40]) == Pow2(height)
    && LittleEndian(script[head + 40..head + 44]) == nonce
  }

  /** A miner that puts the block into its slot of a tree, and the tree into the coinbase of another chain's block, is accepted. */
  lemma HonestAccepted(h: PairHash, txHash: Coinbase -> Digest, p: Proof, chainId: int, params: Params,
                       leaves: seq<Digest>, height: nat, nonce: nat, head: nat)
    requires height <= MAX_CHAIN_BRANCH && |leaves| == Pow2(height)
    requires p.chainIndex == Slot(nonce, chainId, height) && 0 <= p.chainIndex < |leaves|
    requires p.chainBranch == TreeBranch(h, leaves, height, p.chainIndex)
    requires BranchRoot(h, txHash(p.coinbase), p.merkleBranch, 0) == p.parent.merkleRoot
    requires p.coinbase.scriptSigs != [] && Announces(p.coinbase.scriptSigs[0], TreeRoot(h, leaves, height), height, nonce, head)
    requires !params.strictChainId || (p.parent.chainId > 0 && p.parent.chainId != params.chainId)
    ensures Check(h, txHash, p, leaves[p.chainIndex], chainId, params) == Valid
  {
    hide Check, LittleEndian, Slot, Pow2, TreeBranch, TreeRoot, Occurs;
    BranchLeadsToRoot(h, leaves, height, p.chainIndex);
    CheckExact(h, txHash, p, leaves[p.chainIndex], chainId, params);
    assert Commits(p.coinbase.scriptSigs[0], RootBytes(h, p, leaves[p.chainIndex]), height, p.chainIndex, chainId, head);
  }

  /** A script commits to at most one root, height and slot. */
  lemma CommitsOnce(script: seq<Byte>, root: seq<Byte>, height: nat, slot: int, head: nat,
                    root2: seq<Byte>, height2: nat, slot2: int, head2: nat, chainId: int)
    requires Commits(script, root, height, slot, chainId, head) && Commits(script, root2, height2, slot2, chainId, head2)
    ensures root == root2 && height == height2 && slot == slot2
  {
    hide LittleEndian, Slot;
    assert head == head2;
    if height < height2 { Pow2Mono(height, height2); }
    if height2 < height { Pow2Mono(height2, height); }
  }

  lemma SlotNatural(nonce: nat, chainId: int, height: nat)
    ensures 0 <= Slot(nonce, chainId, height) < Pow2(height)
  {
  }

  lemma ReverseInjective(a: seq<Byte>, b: seq<Byte>)
    requires Reverse(a) == Reverse(b)
    ensures a == b
  {
    forall i | 0 <= i < |a| ensures a[i] == b[i] {
      assert Reverse(a)[|a| - 1 - i] == a[i];
      assert Reverse(b)[|b| - 1 - i] == b[i];
    }
  }

  /**
   One parent coinbase cannot serve two blocks of the same chain: two proofs with the same
   coinbase that pass for the same chain id prove the same block with the same branch, unless
   the branches themselves exhibit a hash collision.
   */
  lemma OneBlockPerCoinbase(h: PairHash, txHash: Coinbase -> Digest, p: Proof, auxHash: Digest, params: Params,
                            p2: Proof, auxHash2: Digest, params2: Params, chainId: int) returns (level: nat)
    requires p.coinbase == p2.coinbase
    requires Check(h, txHash, p, auxHash, chainId, params) == Valid && Check(h, txHash, p2, auxHash2, chainId, params2) == Valid
    ensures p.chainIndex == p2.chainIndex && |p.chainBranch| == |p2.chainBranch|
    ensures (auxHash == auxHash2 && p.chainBranch == p2.chainBranch)
         || CollisionAt(h, auxHash, p.chainBranch, auxHash2, p2.chainBranch, p.chainIndex, level)
  {
    hide Check, Commits, Fold, LittleEndian, Slot, CollisionAt;
    CheckExact(h, txHash, p, auxHash, chainId, params);
    CheckExact(h, txHash, p2, auxHash2, chainId, params2);
    var script := p.coinbase.scriptSigs[0];
    var head: nat :| Commits(script, RootBytes(h, p, auxHash), |p.chainBranch|, p.chainIndex, chainId, head);
    var head2: nat :| Commits(script, RootBytes(h, p2, auxHash2), |p2.chainBranch|, p2.chainIndex, chainId, head2);
    CommitsOnce(script, RootBytes(h, p, auxHash), |p.chainBranch|, p.chainIndex, head,
                RootBytes(h, p2, auxHash2), |p2.chainBranch|, p2.chainIndex, head2, chainId);
    ReverseInjective(BranchRoot(h, auxHash, p.chainBranch, p.chainIndex), BranchRoot(h, auxHash2, p2.chainBranch, p2.chainIndex));
    SlotUsed(script, RootBytes(h, p, auxHash), |p.chainBranch|, p.chainIndex, chainId, head);
    level := 0;
    if auxHash != auxHash2 || p.chainBranch != p2.chainBranch {
      level := FindCollision(h, auxHash, p.chainBranch, auxHash2, p2.chainBranch, p.chainIndex);
    }
  }

  lemma SlotUsed(script: seq<Byte>, root: seq<Byte>, height: nat, slot: int, chainId: int, head: nat)
    requires Commits(script, root, height, slot, chainId, head)
    ensures 0 <= slot
  {
    SlotNatural(LittleEndian(script[head + 40..head + 44]), chainId, height);
  }
}
