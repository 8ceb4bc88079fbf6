/**
 The cuckoo cache: a set with eight possible positions per element, lazy erasure through
 collection flags, and epochs that age old entries out.
 */
module CuckooCache {

  const TWO_32 := 0x1_0000_0000

  /** What a freshly resized table holds. */
  const DEFAULT_ELEMENT := 0

  // ----- bit-packed flags

  function Mask(k: nat): bv8
    requires k < 8
  {
    if k == 0 then 1 else if k == 1 then 2 else if k == 2 then 4 else if k == 3 then 8
    else if k == 4 then 16 else if k == 5 then 32 else if k == 6 then 64 else 128
  }

  lemma MaskSet(x: bv8, k: nat, j: nat)
    requires k < 8 && j < 8
    ensures (x | Mask(k)) & Mask(j) != 0 <==> k == j || x & Mask(j) != 0
    ensures (x & !Mask(k)) & Mask(j) != 0 <==> k != j && x & Mask(j) != 0
  {
  }

  /** bit_packed_atomic_flags: eight flags to a byte, all set to begin with. */
  class BitFlags {
    const mem: array<bv8>
    const count: nat

    ghost predicate Ok() { count <= 8 * mem.Length }

    predicate IsSet(s: nat)
      requires Ok() && s < count
      reads mem
    {
      mem[s / 8] & Mask(s % 8) != 0
    }

    ghost function Flags(): (f: seq<bool>)
      requires Ok()
      reads mem
      ensures |f| == count && forall i :: 0 <= i < count ==> f[i] == IsSet(i)
    {
      seq(count, i requires 0 <= i < count && Ok() reads mem => IsSet(i))
    }

    constructor (size: nat)
      ensures Ok() && count == size && fresh(mem) && Flags() == seq(size, i => true)
    {
      count := size;
      mem := new bv8[(size + 7) / 8](i => 0xFF);
      new;
      AllOnes();
    }

    lemma AllOnes()
      requires Ok() && forall i :: 0 <= i < mem.Length ==> mem[i] == 0xFF
      ensures Flags() == seq(count, i => true)
    {
      forall i | 0 <= i < count ensures IsSet(i) { MaskOfOnes(i % 8); }
    }

    method Set(s: nat)
      requires Ok() && s < count
      modifies mem
      ensures Flags() == old(Flags())[s := true]
    {
      hide Mask;
      ghost var before := mem[..];
      mem[s / 8] := mem[s / 8] | Mask(s % 8);
      forall i | 0 <= i < count ensures IsSet(i) == (i == s || old(IsSet(i))) { SetOne(before, mem[..], s, i); }
    }

    method Unset(s: nat)
      requires Ok() && s < count
      modifies mem
      ensures Flags() == old(Flags())[s := false]
    {
      hide Mask;
      ghost var before := Flags();
      ghost var byte := mem[s / 8];
      mem[s / 8] := mem[s / 8] & !Mask(s % 8);
      forall i | 0 <= i < count ensures IsSet(i) == (i != s && before[i]) {
        if i / 8 == s / 8 { MaskSet(byte, s % 8, i % 8); }
      }
    }
  }

  lemma SetOne(before: seq<bv8>, after: seq<bv8>, s: nat, i: nat)
    requires s / 8 < |before| && i / 8 < |before| && after == before[s / 8 := before[s / 8] | Mask(s % 8)]
    ensures (after[i / 8] & Mask(i % 8) != 0) == (i == s || before[i / 8] & Mask(i % 8) != 0)
  {
    hide Mask;
    if i / 8 == s / 8 { MaskSet(before[s / 8], s % 8, i % 8); }
  }

  lemma MaskOfOnes(k: nat)
    requires k < 8
    ensures 0xFF as bv8 & Mask(k) != 0
  {
  }

  // ----- positions, live elements and recent entries

  /** The high 32 bits of a 32 by 32 bit product. */
  function FastRange32(x: nat, n: nat): (r: nat)
    requires x < TWO_32 && n > 0
    ensures r < n && r * TWO_32 <= x * n < (r + 1) * TWO_32
  {
    RangeReduces(x, n);
    x * n / TWO_32
  }

  /** Every position is reached: the reduction maps the 32-bit hashes onto the table in order. */
  lemma FastRangeOnto(n: nat, r: nat)
    requires r < n <= TWO_32
    ensures exists x: nat :: x < TWO_32 && FastRange32(x, n) == r
  {
    var x := (r * TWO_32 + n - 1) / n;
    Ceiling(r * TWO_32, n);
    OntoBounds(r, n, x);
    RangeUnique(x, n, r);
    assert FastRange32(x, n) == r;
  }

  lemma Ceiling(a: nat, n: nat)
    requires n > 0
    ensures var x := (a + n - 1) / n; a <= x * n < a + n
  {
  }

  lemma OntoBounds(r: nat, n: nat, x: nat)
    requires r < n <= TWO_32 && r * TWO_32 <= x * n < r * TWO_32 + n
    ensures x < TWO_32
  {
    if x >= TWO_32 { TimesMono(TWO_32, x, n); }
  }

  lemma TimesMono(a: nat, b: nat, c: nat)
    requires a <= b
    ensures a * c <= b * c
  {
  }

  lemma RangeUnique(x: nat, n: nat, r: nat)
    requires r * TWO_32 <= x * n < (r + 1) * TWO_32
    ensures x * n / TWO_32 == r
  {
  }

  lemma RangeReduces(x: nat, n: nat)
    requires x < TWO_32 && n > 0
    ensures x * n / TWO_32 < n
  {
    assert x * n < TWO_32 * n;
  }

  type Hash = (int, int) -> nat

  function Loc(h: Hash, size: nat, e: int, i: int): (r: nat)
    requires size > 0
    ensures r < size
  {
    FastRange32(h(e, i) % TWO_32, size)
  }

  /** compute_hashes: the eight positions of an element. */
  function Locs(h: Hash, size: nat, e: int): (locs: seq<nat>)
    requires size > 0
    ensures |locs| == 8 && forall i :: 0 <= i < 8 ==> locs[i] < size
  {
    [Loc(h, size, e, 0), Loc(h, size, e, 1), Loc(h, size, e, 2), Loc(h, size, e, 3),
     Loc(h, size, e, 4), Loc(h, size, e, 5), Loc(h, size, e, 6), Loc(h, size, e, 7)]
  }

  ghost function Live(t: seq<int>, dead: seq<bool>): set<int>
    requires |t| == |dead|
  {
    set i | 0 <= i < |t| && !dead[i] :: t[i]
  }

  /** Every live entry sits at one of its element's positions. */
  ghost predicate Placed(h: Hash, t: seq<int>, dead: seq<bool>)
    requires |t| == |dead|
  {
    |t| > 0 && forall i :: 0 <= i < |t| && !dead[i] ==> i in Locs(h, |t|, t[i])
  }

  /** Live entries of the newest epoch. */
  function Recent(epoch: seq<bool>, dead: seq<bool>): nat
    requires |epoch| == |dead|
  {
    if epoch == [] then 0 else
    var n := |epoch| - 1;
    Recent(epoch[..n], dead[..n]) + if epoch[n] && !dead[n] then 1 else 0
  }

  function One(b: bool): nat { if b then 1 else 0 }

  lemma {:induction false} RecentPut(epoch: seq<bool>, dead: seq<bool>, i: nat, b: bool, d: bool)
    requires |epoch| == |dead| && i < |epoch|
    ensures Recent(epoch[i := b], dead[i := d]) == Recent(epoch, dead) - One(epoch[i] && !dead[i]) + One(b && !d)
  {
    var n := |epoch| - 1;
    if i < n {
      RecentPut(epoch[..n], dead[..n], i, b, d);
      assert epoch[i := b][..n] == epoch[..n][i := b] && dead[i := d][..n] == dead[..n][i := d];
    } else {
      assert epoch[i := b][..n] == epoch[..n] && dead[i := d][..n] == dead[..n];
    }
  }

  lemma {:induction false} RecentNone(epoch: seq<bool>, dead: seq<bool>)
    requires |epoch| == |dead| && forall i :: 0 <= i < |epoch| ==> !epoch[i] || dead[i]
    ensures Recent(epoch, dead) == 0
  {
    if epoch != [] { RecentNone(epoch[..|epoch| - 1], dead[..|epoch| - 1]); }
  }

  /** Putting an element into a position and making it live. */
  lemma LivePut(t: seq<int>, dead: seq<bool>, i: nat, e: int)
    requires |t| == |dead| && i < |t|
    ensures dead[i] ==> Live(t[i := e], dead[i := false]) == Live(t, dead) + {e}
    ensures !dead[i] ==> Live(t[i := e], dead) + {t[i]} == Live(t, dead) + {e}
    ensures t[i] == e ==> Live(t, dead[i := false]) == Live(t, dead) + {e}
  {
    if dead[i] {
      forall x ensures x in Live(t[i := e], dead[i := false]) <==> x in Live(t, dead) + {e} {
        if x in Live(t, dead) { var j :| 0 <= j < |t| && !dead[j] && t[j] == x; assert t[i := e][j] == x; }
        if x == e { assert t[i := e][i] == x; }
      }
    } else {
      forall x ensures x in Live(t[i := e], dead) + {t[i]} <==> x in Live(t, dead) + {e} {
        if x in Live(t, dead) { var j :| 0 <= j < |t| && !dead[j] && t[j] == x; assert j != i ==> t[i := e][j] == x; }
        if x == e { assert t[i := e][i] == x; }
      }
    }
    if t[i] == e {
      forall x ensures x in Live(t, dead[i := false]) <==> x in Live(t, dead) + {e} {
        if x in Live(t, dead) { var j :| 0 <= j < |t| && !dead[j] && t[j] == x; assert !dead[i := false][j]; }
        if x == e { assert !dead[i := false][i] && t[i] == x; }
      }
    }
  }

  lemma PlacedPut(h: Hash, t: seq<int>, dead: seq<bool>, i: nat, e: int)
    requires |t| == |dead| && i < |t| && Placed(h, t, dead) && i in Locs(h, |t|, e)
    ensures Placed(h, t[i := e], dead) && Placed(h, t[i := e], dead[i := false])
  {
  }

  lemma OneLost(all: set<int>, kept: set<int>, x: int)
    requires kept + {x} == all
    ensures kept <= all && |all - kept| <= 1
  {
    assert all - kept <= {x};
    if x in kept { assert all - kept == {}; } else { assert all - kept == {x}; }
  }

  lemma Revive(h: Hash, t: seq<int>, epoch: seq<bool>, dead: seq<bool>, i: nat, e: int)
    requires |t| == |dead| == |epoch| && i < |t| && t[i] == e && i in Locs(h, |t|, e) && Placed(h, t, dead)
    ensures Live(t, dead[i := false]) == Live(t, dead) + {e}
    ensures Placed(h, t, dead[i := false])
    ensures Recent(epoch[i := true], dead[i := false]) <= Recent(epoch, dead) + 1
  {
    hide Locs, Recent, Live;
    LivePut(t, dead, i, e);
    PlacedPut(h, t, dead, i, e);
    assert t[i := e] == t;
    RecentPut(epoch, dead, i, true, false);
  }

  lemma PutDead(h: Hash, t: seq<int>, epoch: seq<bool>, dead: seq<bool>, i: nat, e: int, b: bool)
    requires |t| == |dead| == |epoch| && i < |t| && dead[i] && i in Locs(h, |t|, e) && Placed(h, t, dead)
    ensures Live(t[i := e], dead[i := false]) == Live(t, dead) + {e}
    ensures Placed(h, t[i := e], dead[i := false])
    ensures Recent(epoch[i := b], dead[i := false]) == Recent(epoch, dead) + One(b)
  {
    hide Locs, Recent, Live;
    LivePut(t, dead, i, e);
    PlacedPut(h, t, dead, i, e);
    RecentPut(epoch, dead, i, b, false);
  }

  /** Swapping the element in hand with a live entry loses nothing. */
  lemma Displace(h: Hash, t: seq<int>, epoch: seq<bool>, dead: seq<bool>, i: nat, e: int, b: bool)
    requires |t| == |dead| == |epoch| && i < |t| && !dead[i] && i in Locs(h, |t|, e) && Placed(h, t, dead)
    ensures Live(t[i := e], dead) + {t[i]} == Live(t, dead) + {e}
    ensures Placed(h, t[i := e], dead)
    ensures Recent(epoch[i := b], dead) + One(epoch[i]) == Recent(epoch, dead) + One(b)
  {
    hide Locs, Recent, Live;
    LivePut(t, dead, i, e);
    PlacedPut(h, t, dead, i, e);
    assert dead[i := false] == dead;
    RecentPut(epoch, dead, i, b, false);
  }

  lemma LiveFound(h: Hash, t: seq<int>, dead: seq<bool>, e: int)
    requires |t| == |dead| && Placed(h, t, dead)
    ensures e in Live(t, dead) ==> exists k :: 0 <= k < 8 && t[Locs(h, |t|, e)[k]] == e
  {
    hide Loc;
    if e in Live(t, dead) {
      var i :| 0 <= i < |t| && !dead[i] && t[i] == e;
      assert i in Locs(h, |t|, e);
    }
  }

  lemma EraseOne(h: Hash, t: seq<int>, epoch: seq<bool>, dead: seq<bool>, i: nat)
    requires |t| == |dead| == |epoch| && i < |t| && Placed(h, t, dead)
    ensures Live(t, dead[i := true]) <= Live(t, dead) && Live(t, dead) - Live(t, dead[i := true]) <= {t[i]}
    ensures Recent(epoch, dead[i := true]) <= Recent(epoch, dead)
    ensures Placed(h, t, dead[i := true])
  {
    hide Loc;
    RecentPut(epoch, dead, i, epoch[i], true);
    assert epoch[i := epoch[i]] == epoch;
    forall x | x in Live(t, dead) && x != t[i] ensures x in Live(t, dead[i := true]) {
      var j :| 0 <= j < |t| && !dead[j] && t[j] == x;
      assert !dead[i := true][j];
    }
  }

  // ----- the cache as a value

  datatype Params = Params(h: Hash, size: nat, epochSize: nat, depthLimit: nat)

  /** Table, epoch flags, collection flags and the countdown to the next scan. */
  datatype State = State(t: seq<int>, epoch: seq<bool>, dead: seq<bool>, counter: nat)

  predicate Fits(p: Params, s: State) {
    p.size > 0 && p.epochSize > 0 && p.depthLimit > 0 && |s.t| == |s.epoch| == |s.dead| == p.size
  }

  function Max(a: nat, b: nat): nat { if a < b then b else a }

  /** The most live entries the newest epoch can have. */
  function RecentBound(epochSize: nat): nat {
    epochSize + Max(1, epochSize / 16)
  }

  /** Every live entry can be found, and the newest epoch with the inserts before the next scan stays bounded. */
  ghost predicate Inv(p: Params, s: State) {
    && Fits(p, s) && Placed(p.h, s.t, s.dead)
    && Recent(s.epoch, s.dead) + s.counter <= RecentBound(p.epochSize)
  }

  function Start(p: Params): (s: State) {
    State(seq(p.size, i => DEFAULT_ELEMENT), seq(p.size, i => false), seq(p.size, i => true), p.epochSize)
  }

  /** Entries of the old epoch become collectable. */
  function OldCollected(epoch: seq<bool>, dead: seq<bool>): (r: seq<bool>)
    requires |epoch| == |dead|
    ensures |r| == |dead| && forall i :: 0 <= i < |r| ==> r[i] == (dead[i] || !epoch[i])
  {
    seq(|dead|, i requires 0 <= i < |dead| => dead[i] || !epoch[i])
  }

  /** epoch_check */
  function EpochChecked(p: Params, s: State): (r: State)
    requires Fits(p, s)
    ensures Fits(p, r) && r.t == s.t
  {
    if s.counter != 0 then s.(counter := s.counter - 1) else
    var unused := Recent(s.epoch, s.dead);
    if unused >= p.epochSize then
      State(s.t, seq(p.size, i => false), OldCollected(s.epoch, s.dead), p.epochSize)
    else
      s.(counter := Max(1, Max(p.epochSize / 16, p.epochSize - unused)))
  }

  /** The first of the positions from k on with the given collection flag set, or 8. */
  function FirstDead(dead: seq<bool>, locs: seq<nat>, k: nat): (r: nat)
    requires k <= |locs| && forall i :: 0 <= i < |locs| ==> locs[i] < |dead|
    ensures k <= r <= |locs| && (r < |locs| ==> dead[locs[r]]) && forall i :: k <= i < r ==> !dead[locs[i]]
    decreases |locs| - k
  {
    if k == |locs| || dead[locs[k]] then k else FirstDead(dead, locs, k + 1)
  }

  function FirstHolding(t: seq<int>, locs: seq<nat>, e: int, k: nat): (r: nat)
    requires k <= |locs| && forall i :: 0 <= i < |locs| ==> locs[i] < |t|
    ensures k <= r <= |locs| && (r < |locs| ==> t[locs[r]] == e) && forall i :: k <= i < r ==> t[locs[i]] != e
    decreases |locs| - k
  {
    if k == |locs| || t[locs[k]] == e then k else FirstHolding(t, locs, e, k + 1)
  }

  function FirstAt(locs: seq<nat>, loc: nat, k: nat): (r: nat)
    requires k <= |locs|
    ensures k <= r <= |locs| && (r < |locs| ==> locs[r] == loc) && forall i :: k <= i < r ==> locs[i] != loc
    decreases |locs| - k
  {
    if k == |locs| || locs[k] == loc then k else FirstAt(locs, loc, k + 1)
  }

  /** The displacement path of insert with element x in hand. */
  function Settle(p: Params, s: State, x: int, lastLoc: nat, lastEpoch: bool, depth: nat): (r: State)
    requires Fits(p, s)
    ensures Fits(p, r) && r.counter == s.counter
    decreases depth
  {
    if depth == 0 then s else
    var locs := Locs(p.h, p.size, x);
    var k := FirstDead(s.dead, locs, 0);
    if k < 8 then
      State(s.t[locs[k] := x], s.epoch[locs[k] := lastEpoch], s.dead[locs[k] := false], s.counter)
    else
      var loc := locs[(1 + FirstAt(locs, lastLoc, 0)) % 8];
      Settle(p, s.(t := s.t[loc := x], epoch := s.epoch[loc := lastEpoch]), s.t[loc], loc, s.epoch[loc], depth - 1)
  }

  lemma SettleOnce(p: Params, s: State, x: int, lastLoc: nat, lastEpoch: bool, depth: nat)
    requires Fits(p, s) && depth > 0
    ensures var locs := Locs(p.h, p.size, x); var k := FirstDead(s.dead, locs, 0);
      Settle(p, s, x, lastLoc, lastEpoch, depth) ==
        if k < 8 then State(s.t[locs[k] := x], s.epoch[locs[k] := lastEpoch], s.dead[locs[k] := false], s.counter)
        else var loc := locs[(1 + FirstAt(locs, lastLoc, 0)) % 8];
          Settle(p, s.(t := s.t[loc := x], epoch := s.epoch[loc := lastEpoch]), s.t[loc], loc, s.epoch[loc], depth - 1)
  {
  }

  lemma SettleNever(p: Params, s: State, x: int, lastLoc: nat, lastEpoch: bool)
    requires Fits(p, s)
    ensures Settle(p, s, x, lastLoc, lastEpoch, 0) == s
  {
  }

  function Inserted(p: Params, s: State, e: int): (r: State)
    requires Fits(p, s)
    ensures Fits(p, r)
  {
    var a := EpochChecked(p, s);
    var locs := Locs(p.h, p.size, e);
    var k := FirstHolding(a.t, locs, e, 0);
    if k < 8 then a.(epoch := a.epoch[locs[k] := true], dead := a.dead[locs[k] := false])
    else Settle(p, a, e, TWO_32 - 1, true, p.depthLimit)
  }

  /** What contains answers: it does not look at the collection flags. */
  predicate Holds(p: Params, s: State, e: int)
    requires Fits(p, s)
  {
    FirstHolding(s.t, Locs(p.h, p.size, e), e, 0) < 8
  }

  function Erased(p: Params, s: State, e: int): (r: State)
    requires Fits(p, s)
    ensures Fits(p, r)
  {
    var locs := Locs(p.h, p.size, e);
    var k := FirstHolding(s.t, locs, e, 0);
    if k < 8 then s.(dead := s.dead[locs[k] := true]) else s
  }

  ghost function Elements(s: State): set<int>
    requires |s.t| == |s.dead|
  {
    Live(s.t, s.dead)
  }

  // ----- what each operation keeps

  lemma StartInv(p: Params)
    requires p.size > 0 && p.epochSize > 0 && p.depthLimit > 0
    ensures Inv(p, Start(p)) && Elements(Start(p)) == {}
  {
    RecentNone(Start(p).epoch, Start(p).dead);
  }

  lemma EpochCheckedKeeps(p: Params, s: State)
    requires Inv(p, s)
    ensures Placed(p.h, s.t, EpochChecked(p, s).dead) && Elements(EpochChecked(p, s)) <= Elements(s)
    ensures Recent(EpochChecked(p, s).epoch, EpochChecked(p, s).dead) + EpochChecked(p, s).counter < RecentBound(p.epochSize)
  {
    hide Locs;
    if s.counter == 0 && Recent(s.epoch, s.dead) >= p.epochSize {
      RecentNone(EpochChecked(p, s).epoch, EpochChecked(p, s).dead);
    }
  }

  /** What a displacement path with x in hand may do to a state. */
  ghost predicate Settled(p: Params, s: State, x: int, lastEpoch: bool, r: State)
    requires Fits(p, s) && Fits(p, r)
  {
    && Placed(p.h, r.t, r.dead)
    && Elements(r) <= Elements(s) + {x}
    && |Elements(s) + {x} - Elements(r)| <= 1
    && Recent(r.epoch, r.dead) <= Recent(s.epoch, s.dead) + One(lastEpoch)
    && (forall y :: y in r.t ==> y in s.t || y == x)
  }

  lemma SettledAtOnce(p: Params, s: State, x: int, lastEpoch: bool, i: nat)
    requires Fits(p, s) && Placed(p.h, s.t, s.dead) && i < p.size && s.dead[i] && i in Locs(p.h, p.size, x)
    ensures var r := State(s.t[i := x], s.epoch[i := lastEpoch], s.dead[i := false], s.counter);
      Settled(p, s, x, lastEpoch, r) && Elements(r) == Elements(s) + {x}
  {
    hide Placed, Recent, Live, Locs;
    PutDead(p.h, s.t, s.epoch, s.dead, i, x, lastEpoch);
  }

  /** A displacement and a settled path for the displaced element make a settled path. */
  lemma SettledLater(p: Params, s: State, x: int, lastEpoch: bool, i: nat, r: State)
    requires Fits(p, s) && Fits(p, r) && Placed(p.h, s.t, s.dead) && i < p.size && !s.dead[i] && i in Locs(p.h, p.size, x)
    requires Settled(p, s.(t := s.t[i := x], epoch := s.epoch[i := lastEpoch]), s.t[i], s.epoch[i], r)
    ensures Placed(p.h, s.t[i := x], s.dead) && Settled(p, s, x, lastEpoch, r)
  {
    hide Placed, Recent, Live, Locs;
    Displace(p.h, s.t, s.epoch, s.dead, i, x, lastEpoch);
  }

  /** The displacement path drops at most the element in hand at its end, and nothing at all if it starts at a free position. */
  lemma {:induction false} SettleKeeps(p: Params, s: State, x: int, lastLoc: nat, lastEpoch: bool, depth: nat)
    requires Fits(p, s) && Placed(p.h, s.t, s.dead)
    ensures var r := Settle(p, s, x, lastLoc, lastEpoch, depth);
      && Settled(p, s, x, lastEpoch, r)
      && (depth > 0 && FirstDead(s.dead, Locs(p.h, p.size, x), 0) < 8 ==> Elements(r) == Elements(s) + {x})
    decreases depth
  {
    if depth == 0 {
      hide Placed, Recent, Live, Locs;
      OneLost(Elements(s) + {x}, Elements(s), x);
    } else {
      SettleDeeper(p, s, x, lastLoc, lastEpoch, depth);
    }
  }

  lemma {:induction false} SettleDeeper(p: Params, s: State, x: int, lastLoc: nat, lastEpoch: bool, depth: nat)
    requires Fits(p, s) && Placed(p.h, s.t, s.dead) && depth > 0
    ensures var r := Settle(p, s, x, lastLoc, lastEpoch, depth);
      && Settled(p, s, x, lastEpoch, r)
      && (FirstDead(s.dead, Locs(p.h, p.size, x), 0) < 8 ==> Elements(r) == Elements(s) + {x})
    decreases depth, 0
  {
    hide Placed, Live, Locs, Settled, Settle, FirstDead, FirstAt;
    SettleOnce(p, s, x, lastLoc, lastEpoch, depth);
    var locs := Locs(p.h, p.size, x);
    var k := FirstDead(s.dead, locs, 0);
    if k < 8 {
      SettledAtOnce(p, s, x, lastEpoch, locs[k]);
    } else {
      var loc := locs[(1 + FirstAt(locs, lastLoc, 0)) % 8];
      var u := s.(t := s.t[loc := x], epoch := s.epoch[loc := lastEpoch]);
      StillPlaced(p, s, x, loc);
      SettleKeeps(p, u, s.t[loc], loc, s.epoch[loc], depth - 1);
      SettledLater(p, s, x, lastEpoch, loc, Settle(p, u, s.t[loc], loc, s.epoch[loc], depth - 1));
    }
  }

  lemma StillPlaced(p: Params, s: State, x: int, i: nat)
    requires Fits(p, s) && Placed(p.h, s.t, s.dead) && i < p.size && i in Locs(p.h, p.size, x)
    ensures Placed(p.h, s.t[i := x], s.dead)
  {
    hide Locs;
    PlacedPut(p.h, s.t, s.dead, i, x);
  }

  /**
   insert keeps every entry that survived ageing except at most one, which may be the new element;
   it loses nothing when the element is already there or one of its positions is collectable.
   */
  lemma InsertedKeeps(p: Params, s: State, e: int)
    requires Inv(p, s)
    ensures var a := EpochChecked(p, s); var r := Inserted(p, s, e); var locs := Locs(p.h, p.size, e);
      && Inv(p, r)
      && Elements(r) <= Elements(a) + {e} && |Elements(a) + {e} - Elements(r)| <= 1
      && (forall y :: y in r.t ==> y in s.t || y == e)
      && (Holds(p, s, e) || (exists k :: 0 <= k < 8 && a.dead[locs[k]]) ==> Elements(r) == Elements(a) + {e})
  {
    hide Placed, Recent, Live, Locs, RecentBound, EpochChecked, Settle;
    var a, locs := EpochChecked(p, s), Locs(p.h, p.size, e);
    EpochCheckedKeeps(p, s);
    var k := FirstHolding(a.t, locs, e, 0);
    if k < 8 {
      Revive(p.h, a.t, a.epoch, a.dead, locs[k], e);
    } else {
      SettleKeeps(p, a, e, TWO_32 - 1, true, p.depthLimit);
    }
  }

  // ----- how much an insert may lose

  /** The elements with a live entry of the newest epoch. */
  ghost function Newest(s: State): set<int>
    requires |s.t| == |s.epoch| == |s.dead|
  {
    Live(s.t, OldCollected(s.epoch, s.dead))
  }

  ghost predicate Ages(p: Params, s: State)
    requires Fits(p, s)
  {
    s.counter == 0 && Recent(s.epoch, s.dead) >= p.epochSize
  }

  /**
   Entries age only when a scan finds the newest epoch full, and then exactly the newest ones stay
   live; scans are at least a sixteenth of an epoch apart.
   */
  lemma AgedExactly(p: Params, s: State)
    requires Fits(p, s)
    ensures var a := EpochChecked(p, s);
      && Elements(a) == (if Ages(p, s) then Newest(s) else Elements(s))
      && Newest(a) == (if Ages(p, s) then {} else Newest(s))
      && (s.counter == 0 ==> a.counter >= Max(1, p.epochSize / 16))
  {
  }

  ghost function Hand(x: int, newest: bool): set<int> { if newest then {x} else {} }

  lemma CollectedPut(epoch: seq<bool>, dead: seq<bool>, i: nat, b: bool)
    requires |epoch| == |dead| && i < |epoch|
    ensures OldCollected(epoch[i := b], dead[i := false]) == OldCollected(epoch, dead)[i := !b]
  {
  }

  /** Writing an element into a position loses at most what was newest there. */
  lemma NewestPut(s: State, i: nat, x: int, b: bool)
    requires |s.t| == |s.epoch| == |s.dead| && i < |s.t|
    ensures var r := State(s.t[i := x], s.epoch[i := b], s.dead[i := false], s.counter);
      Newest(r) + Hand(s.t[i], s.epoch[i] && !s.dead[i]) >= Newest(s) + Hand(x, b)
  {
    CollectedPut(s.epoch, s.dead, i, b);
    hide OldCollected;
    var d := OldCollected(s.epoch, s.dead);
    forall y | y in Newest(s) + Hand(x, b) ensures y in Live(s.t[i := x], d[i := !b]) + Hand(s.t[i], s.epoch[i] && !s.dead[i]) {
      if y in Newest(s) {
        var j :| 0 <= j < |s.t| && !d[j] && s.t[j] == y;
        if j != i { assert s.t[i := x][j] == y && !d[i := !b][j]; }
      } else {
        assert s.t[i := x][i] == y && !d[i := !b][i];
      }
    }
  }

  lemma Within(a: set<int>, b: set<int>, r: set<int>)
    requires a <= b && |b - r| <= 1
    ensures |a - r| <= 1
  {
    assert b - r == (a - r) + ((b - r) - (a - r));
  }

  lemma OneOver(a: set<int>, r: set<int>, x: int, newest: bool)
    requires a <= r + Hand(x, newest)
    ensures |a - r| <= 1
  {
    assert a - r <= {x};
    if x in a - r { assert a - r == {x}; } else { assert a - r == {}; }
  }

  /** A displacement path loses at most one element of the newest epoch, and none if it starts at a free position. */
  lemma {:induction false} SettleNewest(p: Params, s: State, x: int, lastLoc: nat, lastEpoch: bool, depth: nat)
    requires Fits(p, s)
    ensures var r := Settle(p, s, x, lastLoc, lastEpoch, depth);
      && |Newest(s) + Hand(x, lastEpoch) - Newest(r)| <= 1
      && (depth > 0 && FirstDead(s.dead, Locs(p.h, p.size, x), 0) < 8 ==> Newest(s) + Hand(x, lastEpoch) <= Newest(r))
    decreases depth
  {
    hide Locs, Settle, Newest, FirstDead, FirstAt, Hand;
    if depth == 0 {
      SettleNever(p, s, x, lastLoc, lastEpoch);
      OneOver(Newest(s) + Hand(x, lastEpoch), Newest(s), x, lastEpoch);
    } else {
      SettleOnce(p, s, x, lastLoc, lastEpoch, depth);
      var locs := Locs(p.h, p.size, x);
      var k := FirstDead(s.dead, locs, 0);
      if k < 8 {
        NewestPut(s, locs[k], x, lastEpoch);
        EmptyHand(s.t[locs[k]]);
        NothingLost(Newest(s) + Hand(x, lastEpoch), Newest(Settle(p, s, x, lastLoc, lastEpoch, depth)));
      } else {
        var loc := locs[(1 + FirstAt(locs, lastLoc, 0)) % 8];
        var u := s.(t := s.t[loc := x], epoch := s.epoch[loc := lastEpoch]);
        assert s.dead[loc := false] == s.dead;
        NewestPut(s, loc, x, lastEpoch);
        SettleNewest(p, u, s.t[loc], loc, s.epoch[loc], depth - 1);
        Within(Newest(s) + Hand(x, lastEpoch), Newest(u) + Hand(s.t[loc], s.epoch[loc]),
               Newest(Settle(p, s, x, lastLoc, lastEpoch, depth)));
      }
    }
  }

  lemma EmptyHand(x: int)
    ensures Hand(x, false) == {}
  {
  }

  lemma NothingLost(a: set<int>, r: set<int>)
    requires a <= r
    ensures |a - r| <= 1
  {
    assert a - r == {};
  }

  /**
   What an insert may lose. Unless it ages the cache, one element at most of all that were live and
   the new one; when it does, one at most of those of the newest epoch and the new one. The new
   element belongs to the newest epoch if it was there or one of its positions is collectable.
   */
  lemma InsertLoss(p: Params, s: State, e: int)
    requires Inv(p, s)
    ensures var a := EpochChecked(p, s); var r := Inserted(p, s, e); var locs := Locs(p.h, p.size, e);
      && (!Ages(p, s) ==> |Elements(s) + {e} - Elements(r)| <= 1 && |Newest(s) + {e} - Newest(r)| <= 1)
      && |Newest(s) + {e} - Elements(r)| <= 1
      && (Holds(p, s, e) || (exists k :: 0 <= k < 8 && a.dead[locs[k]]) ==> e in Newest(r))
  {
    hide Placed, Recent, Live, Locs, RecentBound, EpochChecked, Inserted, Newest, Holds, Hand;
    InsertedKeeps(p, s, e);
    AgedExactly(p, s);
    InsertNewest(p, s, e);
    var r := Inserted(p, s, e);
    if !Ages(p, s) {
      NewestLive(s);
      Within(Newest(s) + {e}, Elements(s) + {e}, Elements(r));
    }
  }

  lemma NewestLive(s: State)
    requires |s.t| == |s.epoch| == |s.dead|
    ensures Newest(s) <= Elements(s)
  {
  }

  lemma InsertNewest(p: Params, s: State, e: int)
    requires Fits(p, s)
    ensures var a := EpochChecked(p, s); var r := Inserted(p, s, e); var locs := Locs(p.h, p.size, e);
      && |Newest(a) + {e} - Newest(r)| <= 1
      && (Holds(p, s, e) || (exists k :: 0 <= k < 8 && a.dead[locs[k]]) ==> Newest(a) + {e} <= Newest(r))
  {
    hide Recent, Live, Locs, EpochChecked, Settle, Newest;
    var a, r, locs := EpochChecked(p, s), Inserted(p, s, e), Locs(p.h, p.size, e);
    var k := FirstHolding(a.t, locs, e, 0);
    if k < 8 {
      NewestPut(a, locs[k], e, true);
      assert a.t[locs[k] := e] == a.t;
      assert Newest(a) + {e} <= Newest(r) + {e};
      NewestThere(r, locs[k]);
      NothingLost(Newest(a) + {e}, Newest(r));
    } else {
      SettleNewest(p, a, e, TWO_32 - 1, true, p.depthLimit);
    }
  }

  lemma NewestThere(s: State, i: nat)
    requires |s.t| == |s.epoch| == |s.dead| && i < |s.t| && s.epoch[i] && !s.dead[i]
    ensures s.t[i] in Newest(s)
  {
    assert !OldCollected(s.epoch, s.dead)[i];
  }

  /** Erasing an element that is held marks one of its entries for collection and touches nothing else; if it was the only live one, the element is gone. */
  lemma ErasedMarks(p: Params, s: State, e: int) returns (i: nat)
    requires Fits(p, s) && Holds(p, s, e)
    ensures i < p.size && s.t[i] == e && i in Locs(p.h, p.size, e)
    ensures Erased(p, s, e) == s.(dead := s.dead[i := true])
    ensures (forall j :: 0 <= j < p.size && j != i && s.t[j] == e ==> s.dead[j]) ==> e !in Elements(Erased(p, s, e))
  {
    hide Locs;
    var locs := Locs(p.h, p.size, e);
    i := locs[FirstHolding(s.t, locs, e, 0)];
  }

  lemma ErasedKeeps(p: Params, s: State, e: int)
    requires Inv(p, s)
    ensures Inv(p, Erased(p, s, e)) && Erased(p, s, e).t == s.t
    ensures Elements(Erased(p, s, e)) <= Elements(s) && Elements(s) - Elements(Erased(p, s, e)) <= {e}
  {
    hide Placed, Recent, Live, Locs, RecentBound;
    var locs := Locs(p.h, p.size, e);
    var k := FirstHolding(s.t, locs, e, 0);
    if k < 8 { EraseOne(p.h, s.t, s.epoch, s.dead, locs[k]); }
  }

  /** No false negatives for live entries. */
  lemma LiveHolds(p: Params, s: State, e: int)
    requires Inv(p, s) && e in Elements(s)
    ensures Holds(p, s, e)
  {
    hide Loc;
    LiveFound(p.h, s.t, s.dead, e);
  }

  // ----- whole runs

  datatype Op = Insert(e: int) | Contains(e: int, erase: bool)

  function Step(p: Params, s: State, op: Op): (r: State)
    requires Fits(p, s)
    ensures Fits(p, r)
  {
    match op
    case Insert(e) => Inserted(p, s, e)
    case Contains(e, erase) => if erase then Erased(p, s, e) else s
  }

  function Run(p: Params, ops: seq<Op>): (r: State)
    requires p.size > 0 && p.epochSize > 0 && p.depthLimit > 0
    ensures Fits(p, r)
  {
    if ops == [] then Start(p) else Step(p, Run(p, ops[..|ops| - 1]), ops[|ops| - 1])
  }

  /** In every reachable state all live entries can be found and the newest epoch is bounded. */
  lemma {:induction false} RunInv(p: Params, ops: seq<Op>)
    requires p.size > 0 && p.epochSize > 0 && p.depthLimit > 0
    ensures Inv(p, Run(p, ops))
  {
    hide Inv, Inserted, Erased;
    if ops == [] {
      StartInv(p);
    } else {
      var before, op := ops[..|ops| - 1], ops[|ops| - 1];
      RunInv(p, before);
      InsertedKeeps(p, Run(p, before), op.e);
      ErasedKeeps(p, Run(p, before), op.e);
    }
  }

  /** contains never answers yes for an element that was not inserted, the default element aside. */
  lemma {:induction false} NoFalsePositives(p: Params, ops: seq<Op>, e: int)
    requires p.size > 0 && p.epochSize > 0 && p.depthLimit > 0
    ensures e in Run(p, ops).t ==> e == DEFAULT_ELEMENT || Insert(e) in ops
    ensures Holds(p, Run(p, ops), e) ==> e == DEFAULT_ELEMENT || Insert(e) in ops
  {
    hide Inv, Inserted, Erased, Locs;
    if ops != [] {
      var before, op := ops[..|ops| - 1], ops[|ops| - 1];
      RunInv(p, before);
      NoFalsePositives(p, before, e);
      InsertedKeeps(p, Run(p, before), op.e);
      ErasedKeeps(p, Run(p, before), op.e);
    }
  }

  /** Erasure is lazy: an element that contains erases is still found until a later insert. */
  lemma ErasedStillHeld(p: Params, s: State, e: int, x: int)
    requires Fits(p, s)
    ensures Holds(p, Erased(p, s, e), x) == Holds(p, s, x)
  {
    hide Locs;
  }

  // ----- the cache as an object

  class Cache {
    const p: Params
    const flags: BitFlags
    var table: seq<int>
    var epochFlags: seq<bool>
    var epochHeuristicCounter: nat

    ghost predicate Shaped()
      reads this
    {
      && p.size > 0 && p.epochSize > 0 && p.depthLimit > 0 && |table| == |epochFlags| == p.size
      && flags.Ok() && flags.count == p.size
    }

    ghost function S(): (s: State)
      requires Shaped()
      reads this, flags.mem
      ensures Fits(p, s)
    {
      State(table, epochFlags, flags.Flags(), epochHeuristicCounter)
    }

    ghost predicate Valid()
      reads this, flags.mem
    {
      Shaped() && Inv(p, S())
    }

    constructor Setup(hash: Hash, newSize: nat, depth: nat)
      requires newSize < TWO_32 && depth > 0
      ensures Valid() && S() == Start(p) && fresh(flags) && fresh(flags.mem)
      ensures p == Params(hash, Max(2, newSize), Max(1, 45 * Max(2, newSize) % TWO_32 / 100), depth)
    {
      var n := Max(2, newSize);
      var epochSize := Max(1, 45 * n % TWO_32 / 100);
      p := Params(hash, n, epochSize, depth);
      table := seq(n, i => DEFAULT_ELEMENT);
      flags := new BitFlags(n);
      epochFlags := seq(n, i => false);
      epochHeuristicCounter := epochSize;
      new;
      StartInv(p);
    }

    method EpochCheck()
      requires Valid()
      modifies `epochHeuristicCounter, `epochFlags, flags.mem
      ensures Shaped() && S() == EpochChecked(p, old(S()))
    {
      hide Placed, Recent, Inv, BitFlags.IsSet;
      if epochHeuristicCounter != 0 {
        epochHeuristicCounter := epochHeuristicCounter - 1;
        return;
      }
      var unused := CountRecent();
      if unused >= p.epochSize {
        AgeEntries();
        epochHeuristicCounter := p.epochSize;
      } else {
        epochHeuristicCounter := Max(1, Max(p.epochSize / 16, p.epochSize - unused));
      }
    }

    method CountRecent() returns (n: nat)
      requires Shaped()
      ensures n == Recent(epochFlags, flags.Flags())
    {
      n := 0;
      for i := 0 to p.size
        invariant n == Recent(epochFlags[..i], flags.Flags()[..i])
      {
        assert epochFlags[..i + 1][..i] == epochFlags[..i] && flags.Flags()[..i + 1][..i] == flags.Flags()[..i];
        if epochFlags[i] && !flags.IsSet(i) { n := n + 1; }
      }
      assert epochFlags[..p.size] == epochFlags && flags.Flags()[..p.size] == flags.Flags();
    }

    /** Entries of the old epoch become collectable, the current epoch becomes the old one. */
    method AgeEntries()
      requires Shaped()
      modifies `epochFlags, flags.mem
      ensures Shaped() && epochFlags == seq(p.size, i => false)
      ensures flags.Flags() == OldCollected(old(epochFlags), old(flags.Flags()))
    {
      hide BitFlags.IsSet;
      ghost var dead, epoch := flags.Flags(), epochFlags;
      for i := 0 to p.size
        invariant |epochFlags| == p.size
        invariant forall j :: 0 <= j < p.size ==> epochFlags[j] == (j >= i && epoch[j])
        invariant forall j :: 0 <= j < p.size ==> flags.Flags()[j] == (dead[j] || (j < i && !epoch[j]))
      {
        if epochFlags[i] {
          epochFlags := epochFlags[i := false];
        } else {
          flags.Set(i);
        }
      }
    }

    method Insert(e: int)
      requires Valid()
      modifies this, flags.mem
      ensures Valid() && S() == Inserted(p, old(S()), e)
    {
      hide Inv, Settle, EpochChecked, Locs, BitFlags.IsSet;
      InsertedKeeps(p, S(), e);
      EpochCheck();
      var locs := Locs(p.h, p.size, e);
      var k := FindElement(e, locs);
      if k < 8 {
        epochFlags := epochFlags[locs[k] := true];
        flags.Unset(locs[k]);
      } else {
        Displacements(e);
      }
    }

    /** The displacement path of insert. */
    method Displacements(e: int)
      requires Shaped()
      modifies `table, `epochFlags, flags.mem
      ensures Shaped() && S() == Settle(p, old(S()), e, TWO_32 - 1, true, p.depthLimit)
    {
      hide Locs, BitFlags.IsSet, Settle, FirstDead, FirstAt;
      var locs := Locs(p.h, p.size, e);
      var inHand, lastEpoch := e, true;
      var lastLoc: nat := TWO_32 - 1;
      for depth := 0 to p.depthLimit
        invariant Shaped() && locs == Locs(p.h, p.size, inHand)
        invariant Settle(p, S(), inHand, lastLoc, lastEpoch, p.depthLimit - depth) == Settle(p, old(S()), e, TWO_32 - 1, true, p.depthLimit)
      {
        SettleOnce(p, S(), inHand, lastLoc, lastEpoch, p.depthLimit - depth);
        var k := FindCollectable(locs);
        if k < 8 {
          table := table[locs[k] := inHand];
          epochFlags := epochFlags[locs[k] := lastEpoch];
          flags.Unset(locs[k]);
          return;
        }
        k := FindLoc(locs, lastLoc);
        lastLoc := locs[(1 + k) % 8];
        inHand, table := table[lastLoc], table[lastLoc := inHand];
        lastEpoch, epochFlags := epochFlags[lastLoc], epochFlags[lastLoc := lastEpoch];
        locs := Locs(p.h, p.size, inHand);
      }
      SettleNever(p, S(), inHand, lastLoc, lastEpoch);
    }

    method Contains(e: int, erase: bool) returns (found: bool)
      requires Valid()
      modifies flags.mem
      ensures Valid() && S() == Step(p, old(S()), Op.Contains(e, erase))
      ensures found == Holds(p, old(S()), e)
    {
      hide Inv, Locs, BitFlags.IsSet;
      ErasedKeeps(p, S(), e);
      var locs := Locs(p.h, p.size, e);
      var k := FindElement(e, locs);
      found := k < 8;
      if found && erase { flags.Set(locs[k]); }
    }

    method FindElement(e: int, locs: seq<nat>) returns (k: nat)
      requires Shaped() && |locs| == 8 && forall i :: 0 <= i < 8 ==> locs[i] < p.size
      ensures k == FirstHolding(table, locs, e, 0)
    {
      k := 0;
      while k < 8 && table[locs[k]] != e
        invariant k <= 8 && FirstHolding(table, locs, e, 0) == FirstHolding(table, locs, e, k)
      {
        k := k + 1;
      }
    }

    method FindCollectable(locs: seq<nat>) returns (k: nat)
      requires Shaped() && |locs| == 8 && forall i :: 0 <= i < 8 ==> locs[i] < p.size
      ensures k == FirstDead(flags.Flags(), locs, 0)
    {
      hide BitFlags.IsSet;
      k := 0;
      while k < 8 && !flags.IsSet(locs[k])
        invariant k <= 8 && FirstDead(flags.Flags(), locs, 0) == FirstDead(flags.Flags(), locs, k)
      {
        k := k + 1;
      }
    }

    method FindLoc(locs: seq<nat>, loc: nat) returns (k: nat)
      requires |locs| == 8
      ensures k == FirstAt(locs, loc, 0)
    {
      k := 0;
      while k < 8 && locs[k] != loc
        invariant k <= 8 && FirstAt(locs, loc, 0) == FirstAt(locs, loc, k)
      {
        k := k + 1;
      }
    }
  }
}
