/**
 Compact blocks: prefilled transactions at differential indexes, short ids for the rest, and
 reconstruction from a pool, an extra list and the transactions a peer sends on request.
 */
module BlockEncodings {
  import opened Wrappers

  datatype Tx = Tx(witnessHash: int, body: int, isNull: bool)

  datatype Prefilled = Prefilled(index: nat, tx: Tx)

  datatype Compact = Compact(headerNull: bool, shortIds: seq<nat>, prefilled: seq<Prefilled>)

  datatype Status = Ok | Invalid | Failed | CheckBlockFailed

  /** The short id of a witness hash, under the keys of one compact block. */
  type ShortId = int -> nat

  type Slots = seq<Option<Tx>>

  const MAX_INDEX := 65535

  // ----- free slots

  /** The empty slots, in order. */
  function Free(slots: Slots): seq<nat> {
    if slots == [] then [] else
    var n := |slots| - 1;
    Free(slots[..n]) + if slots[n].None? then [n] else []
  }

  lemma {:induction false} FreeHas(slots: Slots, p: nat)
    ensures p in Free(slots) <==> p < |slots| && slots[p].None?
  {
    if slots != [] { FreeHas(slots[..|slots| - 1], p); }
  }

  lemma {:induction false} FreeSorted(slots: Slots)
    ensures forall i, j :: 0 <= i < j < |Free(slots)| ==> Free(slots)[i] < Free(slots)[j]
    ensures |Free(slots)| <= |slots|
  {
    if slots != [] {
      var n := |slots| - 1;
      var f := Free(slots[..n]);
      FreeSorted(slots[..n]);
      forall i | 0 <= i < |f| ensures f[i] < n { FreeHas(slots[..n], f[i]); }
    }
  }

  /** Filling an empty slot takes it off the list. */
  lemma {:induction false} FreeFill(slots: Slots, p: nat, tx: Tx)
    requires p < |slots| && slots[p].None?
    ensures |Free(slots[p := Some(tx)])| == |Free(slots)| - 1
  {
    var n := |slots| - 1;
    var t := slots[p := Some(tx)];
    if p < n {
      FreeFill(slots[..n], p, tx);
      assert t[..n] == slots[..n][p := Some(tx)];
    } else {
      assert t[..n] == slots[..n];
    }
  }

  lemma {:induction false} FreeOnly(slots: Slots)
    ensures |Free(slots)| <= |slots|
    ensures |Free(slots)| == |slots| <==> forall p :: 0 <= p < |slots| ==> slots[p].None?
  {
    if slots != [] { FreeOnly(slots[..|slots| - 1]); }
  }

  // ----- prefilled transactions

  /** The position of a prefilled transaction: each index counts from the one before. */
  function PosOf(pre: seq<Prefilled>, i: nat): (p: nat)
    requires i < |pre|
    ensures p >= i
  {
    if i == 0 then pre[0].index else PosOf(pre, i - 1) + pre[i].index + 1
  }

  predicate Accepts(pre: seq<Prefilled>, shortCount: nat, n: nat)
    requires n <= |pre|
  {
    forall i :: 0 <= i < n ==> !pre[i].tx.isNull && PosOf(pre, i) <= MAX_INDEX && PosOf(pre, i) <= shortCount + i
  }

  lemma {:induction false} PosIncreases(pre: seq<Prefilled>, i: nat, j: nat)
    requires i < j < |pre|
    ensures PosOf(pre, i) < PosOf(pre, j)
  {
    if i < j - 1 { PosIncreases(pre, i, j - 1); }
  }

  /** The slots after the first n prefilled transactions are put in. */
  function Placed(pre: seq<Prefilled>, size: nat, n: nat): (s: Slots)
    requires n <= |pre| && forall i :: 0 <= i < n ==> PosOf(pre, i) < size
    ensures |s| == size
  {
    if n == 0 then seq(size, i => None) else Placed(pre, size, n - 1)[PosOf(pre, n - 1) := Some(pre[n - 1].tx)]
  }

  lemma {:induction false} PlacedAt(pre: seq<Prefilled>, size: nat, n: nat, i: nat)
    requires i < n <= |pre| && forall k :: 0 <= k < n ==> PosOf(pre, k) < size
    ensures Placed(pre, size, n)[PosOf(pre, i)] == Some(pre[i].tx)
  {
    hide PosOf;
    if i < n - 1 {
      PlacedAt(pre, size, n - 1, i);
      PosIncreases(pre, i, n - 1);
    }
  }

  lemma {:induction false} PlacedOnly(pre: seq<Prefilled>, size: nat, n: nat, p: nat)
    requires n <= |pre| && p < size && forall k :: 0 <= k < n ==> PosOf(pre, k) < size
    ensures Placed(pre, size, n)[p].Some? ==> exists i :: 0 <= i < n && PosOf(pre, i) == p
  {
    hide PosOf;
    if n > 0 { PlacedOnly(pre, size, n - 1, p); }
  }

  /** Accepted positions are in range and distinct, so exactly the short ids' number of slots stays free. */
  lemma {:induction false} PlacedFree(pre: seq<Prefilled>, size: nat, n: nat)
    requires n <= |pre| && forall k :: 0 <= k < n ==> PosOf(pre, k) < size
    ensures |Free(Placed(pre, size, n))| == size - n
  {
    hide PosOf, Free;
    if n == 0 {
      FreeOnly(Placed(pre, size, 0));
    } else {
      PlacedFree(pre, size, n - 1);
      var s, at := Placed(pre, size, n - 1), PosOf(pre, n - 1);
      PlacedOnly(pre, size, n - 1, at);
      if s[at].Some? {
        var i :| 0 <= i < n - 1 && PosOf(pre, i) == at;
        PosIncreases(pre, i, n - 1);
      }
      FreeFill(s, at, pre[n - 1].tx);
    }
  }

  // ----- short ids

  /** Short id i stands for the i-th free slot; a repeated id keeps the last. */
  function IdMap(ids: seq<nat>, free: seq<nat>, n: nat): map<nat, nat>
    requires n <= |ids| && n <= |free|
  {
    if n == 0 then map[] else IdMap(ids, free, n - 1)[ids[n - 1] := free[n - 1]]
  }

  predicate Distinct(ids: seq<nat>, n: nat)
    requires n <= |ids|
  {
    forall i, j :: 0 <= i < j < n ==> ids[i] != ids[j]
  }

  lemma {:induction false} IdMapKeys(ids: seq<nat>, free: seq<nat>, n: nat, k: nat)
    requires n <= |ids| && n <= |free|
    ensures k in IdMap(ids, free, n) <==> k in ids[..n]
    ensures k in IdMap(ids, free, n) ==> IdMap(ids, free, n)[k] in free[..n]
  {
    if n > 0 {
      IdMapKeys(ids, free, n - 1, k);
      assert ids[..n] == ids[..n - 1] + [ids[n - 1]] && free[..n] == free[..n - 1] + [free[n - 1]];
    }
  }

  /** The size of the map shows whether a short id was repeated. */
  lemma {:induction false} IdMapSize(ids: seq<nat>, free: seq<nat>, n: nat)
    requires n <= |ids| && n <= |free|
    ensures |IdMap(ids, free, n)| <= n && (|IdMap(ids, free, n)| == n <==> Distinct(ids, n))
  {
    hide Distinct;
    if n > 0 {
      IdMapSize(ids, free, n - 1);
      IdMapKeys(ids, free, n - 1, ids[n - 1]);
      PutSize(IdMap(ids, free, n - 1), ids[n - 1], free[n - 1]);
      DistinctNext(ids, n);
    } else {
      DistinctNone(ids);
    }
  }

  lemma PutSize(m: map<nat, nat>, k: nat, v: nat)
    ensures |m[k := v]| == |m| + if k in m then 0 else 1
  {
    assert m[k := v].Keys == m.Keys + {k};
    if k in m { assert m.Keys + {k} == m.Keys; }
  }

  lemma DistinctNext(ids: seq<nat>, n: nat)
    requires 0 < n <= |ids|
    ensures Distinct(ids, n) <==> Distinct(ids, n - 1) && ids[n - 1] !in ids[..n - 1]
  {
  }

  lemma DistinctNone(ids: seq<nat>)
    ensures Distinct(ids, 0)
  {
  }

  lemma {:induction false} IdMapAt(ids: seq<nat>, free: seq<nat>, n: nat, i: nat)
    requires i < n <= |ids| && n <= |free| && Distinct(ids, n)
    ensures ids[i] in IdMap(ids, free, n) && IdMap(ids, free, n)[ids[i]] == free[i]
  {
    if i < n - 1 { IdMapAt(ids, free, n - 1, i); }
  }

  // ----- scanning for transactions

  /** The slots, the ones that ever matched, and how many short ids are filled. */
  datatype Scan = Scan(slots: Slots, have: set<nat>, count: int)

  /**
   One entry of the pool or the extra list: a first match fills its slot, a second one empties it
   for good. In the extra list the same transaction again is no second match.
   */
  function Step(extra: bool, ids: map<nat, nat>, sid: ShortId, s: Scan, hash: int, tx: Tx): (r: Scan)
    requires forall k :: k in ids ==> ids[k] < |s.slots|
    ensures |r.slots| == |s.slots|
  {
    if sid(hash) !in ids then s else
    var at := ids[sid(hash)];
    if at !in s.have then Scan(s.slots[at := Some(tx)], s.have + {at}, s.count + 1)
    else if s.slots[at].Some? && !(extra && s.slots[at].value.witnessHash == tx.witnessHash) then
      Scan(s.slots[at := None], s.have, s.count - 1)
    else s
  }

  /** A list is scanned until every short id is filled. */
  function ScanList(extra: bool, ids: map<nat, nat>, sid: ShortId, s: Scan, list: seq<(int, Tx)>, i: nat): (r: Scan)
    requires i <= |list| && forall k :: k in ids ==> ids[k] < |s.slots|
    ensures |r.slots| == |s.slots|
    decreases |list| - i
  {
    if i == |list| then s else
    var t := Step(extra, ids, sid, s, list[i].0, list[i].1);
    if t.count == |ids| then t else ScanList(extra, ids, sid, t, list, i + 1)
  }

  /** The slots of the short ids. */
  ghost function Targets(ids: map<nat, nat>): set<nat> { set k | k in ids :: ids[k] }

  /** Only slots that once matched are filled, and the count is exact. */
  ghost predicate ScanOk(ids: map<nat, nat>, s: Scan, start: int) {
    && s.have <= Targets(ids)
    && (forall p :: p in Targets(ids) ==> p < |s.slots| && (s.slots[p].Some? ==> p in s.have))
    && s.count == start + |FilledIn(s)|
  }

  ghost function FilledIn(s: Scan): set<nat> { set p | p in s.have && p < |s.slots| && s.slots[p].Some? }

  /** A transaction that may come to sit in a slot: an entry of the list whose short id stands for the slot. */
  ghost predicate Candidate(ids: map<nat, nat>, sid: ShortId, list: seq<(int, Tx)>, p: nat, tx: Tx) {
    exists i :: 0 <= i < |list| && sid(list[i].0) in ids && ids[sid(list[i].0)] == p && list[i].1 == tx
  }

  lemma StepKeeps(extra: bool, ids: map<nat, nat>, sid: ShortId, s: Scan, hash: int, tx: Tx, start: int)
    requires (forall k :: k in ids ==> ids[k] < |s.slots|) && ScanOk(ids, s, start)
    ensures ScanOk(ids, Step(extra, ids, sid, s, hash, tx), start)
  {
    hide FilledIn;
    if sid(hash) in ids {
      var at := ids[sid(hash)];
      assert at in Targets(ids);
      if at !in s.have { FillOne(s, at, tx); } else if s.slots[at].Some? { EmptyOne(s, at); }
    }
  }

  lemma FillOne(s: Scan, at: nat, tx: Tx)
    requires at < |s.slots| && at !in s.have
    ensures |FilledIn(Scan(s.slots[at := Some(tx)], s.have + {at}, s.count + 1))| == |FilledIn(s)| + 1
  {
    assert FilledIn(Scan(s.slots[at := Some(tx)], s.have + {at}, s.count + 1)) == FilledIn(s) + {at};
  }

  lemma EmptyOne(s: Scan, at: nat)
    requires at < |s.slots| && at in s.have && s.slots[at].Some?
    ensures |FilledIn(Scan(s.slots[at := None], s.have, s.count - 1))| == |FilledIn(s)| - 1
  {
    assert FilledIn(Scan(s.slots[at := None], s.have, s.count - 1)) == FilledIn(s) - {at};
  }

  /** A step changes at most the slot its short id stands for. */
  lemma StepFrame(extra: bool, ids: map<nat, nat>, sid: ShortId, s: Scan, hash: int, tx: Tx, p: nat)
    requires (forall k :: k in ids ==> ids[k] < |s.slots|) && p < |s.slots|
    ensures var r := Step(extra, ids, sid, s, hash, tx);
      r.slots[p] == s.slots[p] || (sid(hash) in ids && ids[sid(hash)] == p && (r.slots[p] == None || r.slots[p] == Some(tx)))
  {
  }

  lemma {:induction false} ScanKeeps(extra: bool, ids: map<nat, nat>, sid: ShortId, s: Scan, list: seq<(int, Tx)>, i: nat, start: int)
    requires i <= |list| && (forall k :: k in ids ==> ids[k] < |s.slots|) && ScanOk(ids, s, start)
    ensures ScanOk(ids, ScanList(extra, ids, sid, s, list, i), start)
    decreases |list| - i
  {
    hide ScanOk, Step;
    if i < |list| {
      var t := Step(extra, ids, sid, s, list[i].0, list[i].1);
      StepKeeps(extra, ids, sid, s, list[i].0, list[i].1, start);
      if t.count != |ids| { ScanKeeps(extra, ids, sid, t, list, i + 1, start); }
    }
  }

  /** A scan leaves a slot alone, empties it, or fills it with an entry of the list that matches it. */
  lemma {:induction false} ScanFrame(extra: bool, ids: map<nat, nat>, sid: ShortId, s: Scan, list: seq<(int, Tx)>, i: nat, p: nat)
    requires i <= |list| && (forall k :: k in ids ==> ids[k] < |s.slots|) && p < |s.slots|
    ensures var r := ScanList(extra, ids, sid, s, list, i);
      r.slots[p] == s.slots[p] || (p in Targets(ids) && (r.slots[p].Some? ==> Candidate(ids, sid, list, p, r.slots[p].value)))
    decreases |list| - i
  {
    hide Step;
    if i < |list| {
      var t := Step(extra, ids, sid, s, list[i].0, list[i].1);
      StepFrame(extra, ids, sid, s, list[i].0, list[i].1, p);
      if t.count != |ids| { ScanFrame(extra, ids, sid, t, list, i + 1, p); }
    }
  }

  // ----- what a compact block makes available

  predicate Accepted(c: Compact) { Accepts(c.prefilled, |c.shortIds|, |c.prefilled|) }

  /** The slots with only the prefilled transactions in them. */
  function Base(c: Compact): (s: Slots)
    requires Accepted(c)
    ensures |s| == |c.shortIds| + |c.prefilled| && |Free(s)| == |c.shortIds|
  {
    PlacedFree(c.prefilled, |c.shortIds| + |c.prefilled|, |c.prefilled|);
    Placed(c.prefilled, |c.shortIds| + |c.prefilled|, |c.prefilled|)
  }

  function Ids(c: Compact): (ids: map<nat, nat>)
    requires Accepted(c)
  {
    IdMap(c.shortIds, Free(Base(c)), |c.shortIds|)
  }

  lemma IdsInRange(c: Compact)
    requires Accepted(c)
    ensures forall k :: k in Ids(c) ==> Ids(c)[k] < |Base(c)| && Base(c)[Ids(c)[k]].None?
  {
    hide IdMap, Base, Free;
    forall k | k in Ids(c) ensures Ids(c)[k] < |Base(c)| && Base(c)[Ids(c)[k]].None? {
      IdMapKeys(c.shortIds, Free(Base(c)), |c.shortIds|, k);
      FreeHas(Base(c), Ids(c)[k]);
    }
  }

  /** After the pool and the extra list have been scanned. */
  function Available(c: Compact, sid: ShortId, pool: seq<(int, Tx)>, extra: seq<(int, Tx)>, count: int): (s: Scan)
    requires Accepted(c)
    ensures |s.slots| == |Base(c)|
  {
    IdsInRange(c);
    var s := ScanList(false, Ids(c), sid, Scan(Base(c), {}, count), pool, 0);
    ScanList(true, Ids(c), sid, s, extra, 0)
  }

  /** Prefilled slots stay as they are, and the count is that of the short ids found. */
  lemma AvailableKeeps(c: Compact, sid: ShortId, pool: seq<(int, Tx)>, extra: seq<(int, Tx)>, count: int)
    requires Accepted(c)
    ensures ScanOk(Ids(c), Available(c, sid, pool, extra, count), count)
    ensures forall i :: 0 <= i < |c.prefilled| ==> Available(c, sid, pool, extra, count).slots[PosOf(c.prefilled, i)] == Some(c.prefilled[i].tx)
  {
    hide ScanList, IdMap, PosOf, Free;
    IdsInRange(c);
    var start := Scan(Base(c), {}, count);
    assert ScanOk(Ids(c), start, count) by { assert FilledIn(start) == {}; }
    var s := ScanList(false, Ids(c), sid, start, pool, 0);
    ScanKeeps(false, Ids(c), sid, start, pool, 0, count);
    ScanKeeps(true, Ids(c), sid, s, extra, 0, count);
    forall i | 0 <= i < |c.prefilled| ensures Available(c, sid, pool, extra, count).slots[PosOf(c.prefilled, i)] == Some(c.prefilled[i].tx) {
      var p := PosOf(c.prefilled, i);
      PlacedAt(c.prefilled, |c.shortIds| + |c.prefilled|, |c.prefilled|, i);
      ScanFrame(false, Ids(c), sid, start, pool, 0, p);
      ScanFrame(true, Ids(c), sid, s, extra, 0, p);
    }
  }

  // ----- filling in the rest

  /** Each empty slot takes the next missing transaction. */
  function Rebuilt(slots: Slots, missing: seq<Tx>): (vtx: seq<Tx>)
    requires |missing| >= |Free(slots)|
    ensures |vtx| == |slots|
  {
    if slots == [] then [] else
    var n := |slots| - 1;
    Rebuilt(slots[..n], missing) + [if slots[n].Some? then slots[n].value else missing[|Free(slots[..n])|]]
  }

  /** The transactions of a block at the empty slots, in order. */
  function Wanted(slots: Slots, vtx: seq<Tx>): (m: seq<Tx>)
    requires |vtx| == |slots|
    ensures |m| == |Free(slots)|
  {
    if slots == [] then [] else
    var n := |slots| - 1;
    Wanted(slots[..n], vtx[..n]) + if slots[n].None? then [vtx[n]] else []
  }

  lemma {:induction false} RebuiltMore(slots: Slots, missing: seq<Tx>, more: seq<Tx>)
    requires |missing| >= |Free(slots)|
    ensures Rebuilt(slots, missing + more) == Rebuilt(slots, missing)
  {
    if slots != [] { RebuiltMore(slots[..|slots| - 1], missing, more); }
  }

  /** Right transactions and the missing ones in order make the block. */
  lemma {:induction false} RebuiltRight(slots: Slots, vtx: seq<Tx>)
    requires |vtx| == |slots| && forall p :: 0 <= p < |slots| && slots[p].Some? ==> slots[p].value == vtx[p]
    ensures Rebuilt(slots, Wanted(slots, vtx)) == vtx
  {
    if slots != [] {
      var n := |slots| - 1;
      RebuiltRight(slots[..n], vtx[..n]);
      var w := Wanted(slots[..n], vtx[..n]);
      RebuiltMore(slots[..n], w, if slots[n].None? then [vtx[n]] else []);
    }
  }

  /** What a peer that has the block sends for a list of indexes; an index out of range is refused. */
  function Answer(vtx: seq<Tx>, indexes: seq<nat>): (r: Option<seq<Tx>>)
  {
    if forall k :: 0 <= k < |indexes| ==> indexes[k] < |vtx|
    then Some(seq(|indexes|, k requires 0 <= k < |indexes| => vtx[indexes[k]]))
    else None
  }

  method SendBlockTransactions(vtx: seq<Tx>, indexes: seq<nat>) returns (r: Option<seq<Tx>>)
    ensures r == Answer(vtx, indexes)
  {
    var txn := [];
    for i := 0 to |indexes|
      invariant forall k :: 0 <= k < i ==> indexes[k] < |vtx|
      invariant txn == seq(i, k requires 0 <= k < i => vtx[indexes[k]])
    {
      if indexes[i] >= |vtx| { return None; }
      txn := txn + [vtx[indexes[i]]];
    }
    return Some(txn);
  }

  /** Asked for the empty slots, the peer sends exactly the transactions that belong there, in order. */
  lemma AnswerWanted(slots: Slots, vtx: seq<Tx>)
    requires |vtx| == |slots|
    ensures Answer(vtx, Free(slots)) == Some(Wanted(slots, vtx))
  {
    hide Free, Wanted;
    forall k | 0 <= k < |Free(slots)| ensures Free(slots)[k] < |vtx| && Wanted(slots, vtx)[k] == vtx[Free(slots)[k]] {
      WantedAt(slots, vtx, k);
    }
    assert Answer(vtx, Free(slots)).value == Wanted(slots, vtx);
  }

  lemma {:induction false} WantedAt(slots: Slots, vtx: seq<Tx>, k: nat)
    requires |vtx| == |slots| && k < |Free(slots)|
    ensures Free(slots)[k] < |slots| && Wanted(slots, vtx)[k] == vtx[Free(slots)[k]]
  {
    var n := |slots| - 1;
    if k < |Free(slots[..n])| { WantedAt(slots[..n], vtx[..n], k); }
  }

  // ----- reconstruction

  /** A compact block describes a block: its prefilled transactions and its short ids are the block's. */
  ghost predicate Describes(c: Compact, sid: ShortId, vtx: seq<Tx>) {
    && Accepted(c) && |vtx| == |c.shortIds| + |c.prefilled|
    && (forall i :: 0 <= i < |c.prefilled| ==> PosOf(c.prefilled, i) < |vtx| && vtx[PosOf(c.prefilled, i)] == c.prefilled[i].tx)
    && (forall k :: 0 <= k < |c.shortIds| ==> Free(Base(c))[k] < |vtx| && c.shortIds[k] == sid(vtx[Free(Base(c))[k]].witnessHash))
  }

  /** Slot p belongs to a short id, and this is its transaction in the block. */
  ghost predicate Short(c: Compact, vtx: seq<Tx>, p: nat)
    requires Accepted(c)
  {
    p < |vtx| && p < |Base(c)| && Base(c)[p].None?
  }

  /** No entry of a list has the short id of a transaction that the block sends by short id and differs from it. */
  ghost predicate NoCollision(c: Compact, sid: ShortId, list: seq<(int, Tx)>, vtx: seq<Tx>)
    requires Accepted(c)
  {
    forall i, p: nat :: 0 <= i < |list| && Short(c, vtx, p) && sid(list[i].0) == sid(vtx[p].witnessHash) ==> list[i].1 == vtx[p]
  }

  /** With distinct short ids, the slot a short id stands for is the one whose transaction has that short id. */
  lemma IdsRight(c: Compact, sid: ShortId, vtx: seq<Tx>, k: nat)
    requires Describes(c, sid, vtx) && Distinct(c.shortIds, |c.shortIds|) && k in Ids(c)
    ensures Short(c, vtx, Ids(c)[k]) && sid(vtx[Ids(c)[k]].witnessHash) == k
  {
    hide IdMap, Base, Free, Accepts, PosOf;
    var free := Free(Base(c));
    IdsInRange(c);
    IdMapKeys(c.shortIds, free, |c.shortIds|, k);
    var i :| 0 <= i < |c.shortIds| && c.shortIds[i] == k;
    IdMapAt(c.shortIds, free, |c.shortIds|, i);
  }

  /**
   Whatever the pool and the extra list hold, a slot is filled with its prefilled transaction or
   with an entry that has the short id of the block's own transaction there.
   */
  lemma FilledMatches(c: Compact, sid: ShortId, pool: seq<(int, Tx)>, extra: seq<(int, Tx)>, count: int, vtx: seq<Tx>, p: nat)
    requires Describes(c, sid, vtx) && Distinct(c.shortIds, |c.shortIds|)
    requires p < |vtx| && Available(c, sid, pool, extra, count).slots[p].Some?
    ensures var tx := Available(c, sid, pool, extra, count).slots[p].value;
      if Short(c, vtx, p)
      then exists e :: (e in pool || e in extra) && sid(e.0) == sid(vtx[p].witnessHash) && e.1 == tx
      else tx == vtx[p]
  {
    hide ScanList, IdMap, Free, PosOf, Distinct, Candidate;
    IdsInRange(c);
    var start := Scan(Base(c), {}, count);
    var s := ScanList(false, Ids(c), sid, start, pool, 0);
    var r := ScanList(true, Ids(c), sid, s, extra, 0);
    ScanFrame(false, Ids(c), sid, start, pool, 0, p);
    ScanFrame(true, Ids(c), sid, s, extra, 0, p);
    if Short(c, vtx, p) {
      if r.slots[p] != s.slots[p] {
        CandidateMatches(c, sid, extra, vtx, p, r.slots[p].value);
      } else {
        CandidateMatches(c, sid, pool, vtx, p, r.slots[p].value);
      }
    } else {
      PrefilledRight(c, sid, vtx, p);
    }
  }

  lemma CandidateMatches(c: Compact, sid: ShortId, list: seq<(int, Tx)>, vtx: seq<Tx>, p: nat, tx: Tx)
    requires Describes(c, sid, vtx) && Distinct(c.shortIds, |c.shortIds|) && Candidate(Ids(c), sid, list, p, tx)
    ensures p < |vtx| && exists e :: e in list && sid(e.0) == sid(vtx[p].witnessHash) && e.1 == tx
  {
    hide Ids, Distinct, Accepts, PosOf, Free, Base;
    var i :| 0 <= i < |list| && sid(list[i].0) in Ids(c) && Ids(c)[sid(list[i].0)] == p && list[i].1 == tx;
    IdsRight(c, sid, vtx, sid(list[i].0));
    assert list[i] in list;
  }

  lemma PrefilledRight(c: Compact, sid: ShortId, vtx: seq<Tx>, p: nat)
    requires Describes(c, sid, vtx) && p < |vtx| && Base(c)[p].Some?
    ensures Base(c)[p].value == vtx[p]
  {
    hide Free, PosOf;
    var size := |c.shortIds| + |c.prefilled|;
    PlacedOnly(c.prefilled, size, |c.prefilled|, p);
    var i :| 0 <= i < |c.prefilled| && PosOf(c.prefilled, i) == p;
    PlacedAt(c.prefilled, size, |c.prefilled|, i);
  }

  /**
   Without a collision the slots hold only the block's own transactions, and the missing ones sent
   in order make exactly the block.
   */
  lemma Reconstructs(c: Compact, sid: ShortId, pool: seq<(int, Tx)>, extra: seq<(int, Tx)>, count: int, vtx: seq<Tx>)
    requires Describes(c, sid, vtx) && Distinct(c.shortIds, |c.shortIds|)
    requires NoCollision(c, sid, pool, vtx) && NoCollision(c, sid, extra, vtx)
    ensures var slots := Available(c, sid, pool, extra, count).slots;
      && (forall p :: 0 <= p < |slots| && slots[p].Some? ==> slots[p].value == vtx[p])
      && Answer(vtx, Free(slots)) == Some(Wanted(slots, vtx))
      && Rebuilt(slots, Wanted(slots, vtx)) == vtx
  {
    hide ScanList, IdMap, Free, Rebuilt, Wanted, PosOf, Distinct, Short, Answer;
    var slots := Available(c, sid, pool, extra, count).slots;
    forall p | 0 <= p < |slots| && slots[p].Some? ensures slots[p].value == vtx[p] {
      FilledMatches(c, sid, pool, extra, count, vtx, p);
    }
    AnswerWanted(slots, vtx);
    RebuiltRight(slots, vtx);
  }

  // ----- which slots get filled

  /** Entry i of a list has short id k. */
  predicate Has(sid: ShortId, list: seq<(int, Tx)>, i: int, k: nat) { 0 <= i < |list| && sid(list[i].0) == k }

  /** Slot p stands for short id k and for no other. */
  ghost predicate Sole(ids: map<nat, nat>, k: nat, p: nat) {
    k in ids && ids[k] == p && forall j :: j in ids && ids[j] == p ==> j == k
  }

  lemma {:induction false} FewTargets(ids: map<nat, nat>)
    ensures |Targets(ids)| <= |ids|
    decreases |ids|
  {
    if ids == map[] {
      assert Targets(ids) == {};
    } else {
      var k :| k in ids;
      var rest := ids - {k};
      assert rest.Keys == ids.Keys - {k};
      FewTargets(rest);
      assert Targets(ids) == Targets(rest) + {ids[k]} by {
        forall p | p in Targets(ids) ensures p in Targets(rest) + {ids[k]} {
          var j :| j in ids && ids[j] == p;
          if j != k { assert j in rest; }
        }
      }
    }
  }

  /** When the count says that every short id is filled, every slot of a short id is. */
  lemma AllFilled(ids: map<nat, nat>, s: Scan, p: nat)
    requires ScanOk(ids, s, 0) && s.count >= |ids| && p in Targets(ids)
    ensures p in s.have && s.slots[p].Some?
  {
    FewTargets(ids);
    assert FilledIn(s) <= Targets(ids);
    if p !in FilledIn(s) {
      assert FilledIn(s) <= Targets(ids) - {p};
      Smaller(FilledIn(s), Targets(ids) - {p});
    }
  }

  lemma Smaller(a: set<nat>, b: set<nat>)
    requires a <= b
    ensures |a| <= |b|
  {
    assert b == a + (b - a);
  }

  lemma SoleTarget(ids: map<nat, nat>, k: nat, p: nat)
    requires Sole(ids, k, p)
    ensures p in Targets(ids)
  {
  }

  /** What one entry does to one slot. */
  lemma StepAt(extra: bool, ids: map<nat, nat>, sid: ShortId, s: Scan, hash: int, tx: Tx, k: nat, p: nat)
    requires (forall j :: j in ids ==> ids[j] < |s.slots|) && Sole(ids, k, p)
    ensures var r := Step(extra, ids, sid, s, hash, tx);
      if sid(hash) != k then r.slots[p] == s.slots[p] && (p in r.have <==> p in s.have)
      else
        && p in r.have
        && r.slots[p] == (if p !in s.have then Some(tx)
                          else if s.slots[p].Some? && !(extra && s.slots[p].value.witnessHash == tx.witnessHash) then None
                          else s.slots[p])
  {
  }

  /** A filled slot keeps its transaction if no entry of the list speaks against it. */
  lemma {:induction false} ScanHolds(extra: bool, ids: map<nat, nat>, sid: ShortId, s: Scan, list: seq<(int, Tx)>, i: nat, k: nat, p: nat, tx: Tx)
    requires i <= |list| && (forall j :: j in ids ==> ids[j] < |s.slots|) && Sole(ids, k, p)
    requires p in s.have && s.slots[p] == Some(tx)
    requires forall j :: i <= j && Has(sid, list, j, k) ==> extra && list[j].1.witnessHash == tx.witnessHash
    ensures ScanList(extra, ids, sid, s, list, i).slots[p] == Some(tx) && p in ScanList(extra, ids, sid, s, list, i).have
    decreases |list| - i
  {
    hide Step, Sole;
    SoleInRange(ids, k, p, |s.slots|);
    if i < |list| {
      var t := Step(extra, ids, sid, s, list[i].0, list[i].1);
      StepAt(extra, ids, sid, s, list[i].0, list[i].1, k, p);
      assert sid(list[i].0) == k ==> Has(sid, list, i, k);
      if t.count != |ids| { ScanHolds(extra, ids, sid, t, list, i + 1, k, p, tx); }
    }
  }

  lemma SoleInRange(ids: map<nat, nat>, k: nat, p: nat, n: nat)
    requires Sole(ids, k, p) && forall j :: j in ids ==> ids[j] < n
    ensures p < n
  {
  }

  /** An untouched slot is filled by the first entry with its short id, and keeps it if no later one speaks against it. */
  lemma {:induction false} ScanFills(extra: bool, ids: map<nat, nat>, sid: ShortId, s: Scan, list: seq<(int, Tx)>, i: nat, k: nat, p: nat, at: nat)
    requires i <= at && (forall j :: j in ids ==> ids[j] < |s.slots|) && Sole(ids, k, p) && ScanOk(ids, s, 0)
    requires p !in s.have && Has(sid, list, at, k) && forall j :: i <= j < at ==> !Has(sid, list, j, k)
    requires forall j :: at < j && Has(sid, list, j, k) ==> extra && list[j].1.witnessHash == list[at].1.witnessHash
    ensures ScanList(extra, ids, sid, s, list, i).slots[p] == Some(list[at].1) && p in ScanList(extra, ids, sid, s, list, i).have
    decreases |list| - i
  {
    hide Step, Sole, ScanOk;
    SoleInRange(ids, k, p, |s.slots|);
    var t := Step(extra, ids, sid, s, list[i].0, list[i].1);
    StepAt(extra, ids, sid, s, list[i].0, list[i].1, k, p);
    StepKeeps(extra, ids, sid, s, list[i].0, list[i].1, 0);
    if i == at {
      if t.count != |ids| { ScanHolds(extra, ids, sid, t, list, i + 1, k, p, list[at].1); }
    } else {
      assert !Has(sid, list, i, k);
      SoleTarget(ids, k, p);
      if t.count == |ids| { AllFilled(ids, t, p); }
      ScanFills(extra, ids, sid, t, list, i + 1, k, p, at);
    }
  }

  /** A list without the short id leaves the slot alone. */
  lemma {:induction false} ScanPasses(extra: bool, ids: map<nat, nat>, sid: ShortId, s: Scan, list: seq<(int, Tx)>, i: nat, k: nat, p: nat)
    requires i <= |list| && (forall j :: j in ids ==> ids[j] < |s.slots|) && Sole(ids, k, p)
    requires forall j :: i <= j ==> !Has(sid, list, j, k)
    ensures var r := ScanList(extra, ids, sid, s, list, i); p < |s.slots| && r.slots[p] == s.slots[p] && (p in r.have <==> p in s.have)
    decreases |list| - i
  {
    hide Step, Sole;
    SoleInRange(ids, k, p, |s.slots|);
    if i < |list| {
      var t := Step(extra, ids, sid, s, list[i].0, list[i].1);
      StepAt(extra, ids, sid, s, list[i].0, list[i].1, k, p);
      assert !Has(sid, list, i, k);
      if t.count != |ids| { ScanPasses(extra, ids, sid, t, list, i + 1, k, p); }
    }
  }

  /** A slot that two entries matched stays empty. */
  lemma {:induction false} ScanStaysEmpty(extra: bool, ids: map<nat, nat>, sid: ShortId, s: Scan, list: seq<(int, Tx)>, i: nat, k: nat, p: nat)
    requires i <= |list| && (forall j :: j in ids ==> ids[j] < |s.slots|) && Sole(ids, k, p) && p in s.have
    requires p < |s.slots| && s.slots[p].None?
    ensures ScanList(extra, ids, sid, s, list, i).slots[p].None?
    decreases |list| - i
  {
    hide Step, Sole;
    if i < |list| {
      var t := Step(extra, ids, sid, s, list[i].0, list[i].1);
      StepAt(extra, ids, sid, s, list[i].0, list[i].1, k, p);
      if t.count != |ids| { ScanStaysEmpty(extra, ids, sid, t, list, i + 1, k, p); }
    }
  }

  /** A filled slot is emptied by the first entry that speaks against it, if the scan gets that far. */
  lemma {:induction false} ScanEmpties(extra: bool, ids: map<nat, nat>, sid: ShortId, s: Scan, list: seq<(int, Tx)>, i: nat, k: nat, p: nat, at: nat, l: nat, q: nat)
    requires i <= at && (forall j :: j in ids ==> ids[j] < |s.slots|) && Sole(ids, k, p) && ScanOk(ids, s, 0)
    requires p in s.have && p < |s.slots| && s.slots[p].Some?
    requires Has(sid, list, at, k) && (extra ==> list[at].1.witnessHash != s.slots[p].value.witnessHash)
    requires Sole(ids, l, q) && q !in s.have && forall j :: i <= j ==> !Has(sid, list, j, l)
    ensures ScanList(extra, ids, sid, s, list, i).slots[p].None?
    decreases |list| - i
  {
    hide Step, Sole, ScanOk;
    var t := Step(extra, ids, sid, s, list[i].0, list[i].1);
    StepAt(extra, ids, sid, s, list[i].0, list[i].1, k, p);
    StepAt(extra, ids, sid, s, list[i].0, list[i].1, l, q);
    StepKeeps(extra, ids, sid, s, list[i].0, list[i].1, 0);
    assert !Has(sid, list, i, l);
    SoleTarget(ids, l, q);
    if t.count == |ids| { AllFilled(ids, t, q); }
    if t.slots[p].None? {
      ScanStaysEmpty(extra, ids, sid, t, list, i + 1, k, p);
    } else {
      assert i < at;
      ScanEmpties(extra, ids, sid, t, list, i + 1, k, p, at, l, q);
    }
  }

  lemma StartOk(c: Compact)
    requires Accepted(c)
    ensures ScanOk(Ids(c), Scan(Base(c), {}, 0), 0) && forall k :: k in Ids(c) ==> Ids(c)[k] < |Base(c)|
  {
    hide IdMap, Base, Free;
    IdsInRange(c);
    assert FilledIn(Scan(Base(c), {}, 0)) == {};
  }

  lemma SoleSlot(c: Compact, sid: ShortId, vtx: seq<Tx>, p: nat)
    requires Describes(c, sid, vtx) && Distinct(c.shortIds, |c.shortIds|) && Short(c, vtx, p)
    ensures Sole(Ids(c), sid(vtx[p].witnessHash), p)
  {
    hide IdMap, Base, Free, Accepts, PosOf;
    var free := Free(Base(c));
    FreeHas(Base(c), p);
    var i :| 0 <= i < |free| && free[i] == p;
    IdMapAt(c.shortIds, free, |c.shortIds|, i);
    forall j | j in Ids(c) && Ids(c)[j] == p ensures j == sid(vtx[p].witnessHash) { IdsRight(c, sid, vtx, j); }
  }

  /**
   A transaction sent by short id is found exactly when the pool or the extra list has an entry with
   its short id, provided the pool has no two: then it is not requested.
   */
  lemma FoundExactly(c: Compact, sid: ShortId, pool: seq<(int, Tx)>, extra: seq<(int, Tx)>, vtx: seq<Tx>, p: nat)
    requires Describes(c, sid, vtx) && Distinct(c.shortIds, |c.shortIds|) && Short(c, vtx, p)
    requires NoCollision(c, sid, pool, vtx) && NoCollision(c, sid, extra, vtx)
    requires var k := sid(vtx[p].witnessHash); forall i, j :: Has(sid, pool, i, k) && Has(sid, pool, j, k) ==> i == j
    ensures var k := sid(vtx[p].witnessHash);
      Available(c, sid, pool, extra, 0).slots[p] ==
        if (exists i :: Has(sid, pool, i, k)) || (exists i :: Has(sid, extra, i, k)) then Some(vtx[p]) else None
  {
    hide ScanList, Ids, Base, Distinct, Sole, ScanOk, Free, PosOf, Accepts;
    var k, ids := sid(vtx[p].witnessHash), Ids(c);
    SoleSlot(c, sid, vtx, p);
    StartOk(c);
    var start := Scan(Base(c), {}, 0);
    var s := ScanList(false, ids, sid, start, pool, 0);
    ScanKeeps(false, ids, sid, start, pool, 0, 0);
    if at :| Has(sid, pool, at, k) {
      ScanFills(false, ids, sid, start, pool, 0, k, p, at);
      ScanHolds(true, ids, sid, s, extra, 0, k, p, vtx[p]);
    } else {
      ScanPasses(false, ids, sid, start, pool, 0, k, p);
      if exists i :: Has(sid, extra, i, k) {
        var at := FirstWith(sid, extra, k);
        ScanFills(true, ids, sid, s, extra, 0, k, p, at);
      } else {
        ScanPasses(true, ids, sid, s, extra, 0, k, p);
      }
    }
  }

  lemma {:induction false} FirstWith(sid: ShortId, list: seq<(int, Tx)>, k: nat) returns (at: nat)
    requires exists i :: Has(sid, list, i, k)
    ensures Has(sid, list, at, k) && forall j :: 0 <= j < at ==> !Has(sid, list, j, k)
  {
    var i :| Has(sid, list, i, k);
    at := 0;
    while !Has(sid, list, at, k)
      invariant at <= i && forall j :: 0 <= j < at ==> !Has(sid, list, j, k)
      decreases i - at
    {
      at := at + 1;
    }
  }

  /**
   A short id that two pool entries have is left to the peer, whatever the entries are, unless the
   scan had ended before it came to the second: it goes on as long as some short id has no entry.
   */
  lemma AmbiguousRequested(c: Compact, sid: ShortId, pool: seq<(int, Tx)>, extra: seq<(int, Tx)>, vtx: seq<Tx>, p: nat, q: nat, i: nat, j: nat)
    requires Describes(c, sid, vtx) && Distinct(c.shortIds, |c.shortIds|) && Short(c, vtx, p) && Short(c, vtx, q)
    requires i < j && Has(sid, pool, i, sid(vtx[p].witnessHash)) && Has(sid, pool, j, sid(vtx[p].witnessHash))
    requires forall n :: !Has(sid, pool, n, sid(vtx[q].witnessHash))
    ensures Available(c, sid, pool, extra, 0).slots[p] == None
  {
    hide ScanList, Ids, Base, Distinct, Sole, ScanOk, Free, PosOf, Accepts;
    var k, l, ids := sid(vtx[p].witnessHash), sid(vtx[q].witnessHash), Ids(c);
    SoleSlot(c, sid, vtx, p);
    SoleSlot(c, sid, vtx, q);
    StartOk(c);
    var start := Scan(Base(c), {}, 0);
    var s := ScanList(false, ids, sid, start, pool, 0);
    var at := FirstWith(sid, pool, k);
    ScanTwice(ids, sid, start, pool, 0, k, p, at, j, l, q);
    ScanStaysEmpty(true, ids, sid, s, extra, 0, k, p);
  }

  lemma {:induction false} ScanTwice(ids: map<nat, nat>, sid: ShortId, s: Scan, list: seq<(int, Tx)>, i: nat, k: nat, p: nat, at: nat, at2: nat, l: nat, q: nat)
    requires i <= at < at2 && (forall j :: j in ids ==> ids[j] < |s.slots|) && Sole(ids, k, p) && ScanOk(ids, s, 0)
    requires p !in s.have && Has(sid, list, at, k) && Has(sid, list, at2, k) && forall j :: i <= j < at ==> !Has(sid, list, j, k)
    requires Sole(ids, l, q) && q !in s.have && forall j :: i <= j ==> !Has(sid, list, j, l)
    ensures var r := ScanList(false, ids, sid, s, list, i); p in r.have && p < |r.slots| && r.slots[p].None?
    decreases |list| - i
  {
    hide Step, Sole, ScanOk;
    SoleInRange(ids, k, p, |s.slots|);
    var t := Step(false, ids, sid, s, list[i].0, list[i].1);
    StepAt(false, ids, sid, s, list[i].0, list[i].1, k, p);
    StepAt(false, ids, sid, s, list[i].0, list[i].1, l, q);
    StepKeeps(false, ids, sid, s, list[i].0, list[i].1, 0);
    assert !Has(sid, list, i, l);
    SoleTarget(ids, l, q);
    if t.count == |ids| { AllFilled(ids, t, q); }
    if i == at {
      ScanEmpties(false, ids, sid, t, list, i + 1, k, p, at2, l, q);
      HaveGrows(false, ids, sid, t, list, i + 1, p);
    } else {
      assert !Has(sid, list, i, k);
      ScanTwice(ids, sid, t, list, i + 1, k, p, at, at2, l, q);
    }
  }

  lemma {:induction false} HaveGrows(extra: bool, ids: map<nat, nat>, sid: ShortId, s: Scan, list: seq<(int, Tx)>, i: nat, p: nat)
    requires i <= |list| && (forall j :: j in ids ==> ids[j] < |s.slots|) && p in s.have
    ensures p in ScanList(extra, ids, sid, s, list, i).have
    decreases |list| - i
  {
    if i < |list| {
      var t := Step(extra, ids, sid, s, list[i].0, list[i].1);
      if t.count != |ids| { HaveGrows(extra, ids, sid, t, list, i + 1, p); }
    }
  }

  /** The compact form of a block: the coinbase in full, short ids for the rest. */
  function Shorten(vtx: seq<Tx>, sid: ShortId): Compact
    requires vtx != []
  {
    Compact(false, seq(|vtx| - 1, i requires 0 <= i < |vtx| - 1 => sid(vtx[i + 1].witnessHash)), [Prefilled(0, vtx[0])])
  }

  lemma {:induction false} FreeAfterFirst(slots: Slots)
    requires slots != [] && slots[0].Some? && forall i :: 0 < i < |slots| ==> slots[i].None?
    ensures |Free(slots)| == |slots| - 1 && forall k :: 0 <= k < |slots| - 1 ==> Free(slots)[k] == k + 1
  {
    if |slots| == 1 {
      assert slots[..0] == [];
    } else {
      FreeAfterFirst(slots[..|slots| - 1]);
    }
  }

  /** The sender's compact form is accepted and describes the block. */
  lemma ShortenDescribes(vtx: seq<Tx>, sid: ShortId)
    requires vtx != [] && !vtx[0].isNull
    ensures Describes(Shorten(vtx, sid), sid, vtx)
  {
    var c := Shorten(vtx, sid);
    assert PosOf(c.prefilled, 0) == 0;
    assert Accepted(c);
    var none: Option<Tx> := None;
    assert Placed(c.prefilled, |vtx|, 0) == seq(|vtx|, i => none);
    FreeAfterFirst(Base(c));
  }

  /**
   From sender to receiver: unless an entry collides with a short id of the block, the receiver's
   slots and the answer to its request make the sender's block.
   */
  lemma Relayed(vtx: seq<Tx>, sid: ShortId, pool: seq<(int, Tx)>, extra: seq<(int, Tx)>, count: int)
    requires vtx != [] && !vtx[0].isNull
    requires forall i, j :: 1 <= i < j < |vtx| ==> sid(vtx[i].witnessHash) != sid(vtx[j].witnessHash)
    requires forall e, p :: (e in pool || e in extra) && 1 <= p < |vtx| && sid(e.0) == sid(vtx[p].witnessHash) ==> e.1 == vtx[p]
    ensures var c := Shorten(vtx, sid);
      Accepted(c) &&
      var slots := Available(c, sid, pool, extra, count).slots;
      var answer := Answer(vtx, Free(slots));
      answer.Some? && |answer.value| == |Free(slots)| && Rebuilt(slots, answer.value) == vtx
  {
    hide Available, Free, Rebuilt, Wanted, Answer;
    var c := Shorten(vtx, sid);
    ShortenDescribes(vtx, sid);
    assert Base(c)[0].Some? by { assert PosOf(c.prefilled, 0) == 0; }
    Reconstructs(c, sid, pool, extra, count, vtx);
  }

  // ----- the block under reconstruction

  /** Whether any short id lands in a bucket of the hash table that is too full. */
  ghost predicate AnyCrowded(crowded: nat -> bool, n: nat) { exists i: nat :: i < n && crowded(i) }

  ghost predicate Refused(c: Compact, maxTxs: nat) {
    c.headerNull || (c.shortIds == [] && c.prefilled == []) || |c.shortIds| + |c.prefilled| > maxTxs
  }

  datatype BlockCheck = Passes | Mutated | Fails

  class PartiallyDownloadedBlock {
    var headerNull: bool
    var txnAvailable: Slots
    var mempoolCount: int

    constructor ()
      ensures headerNull && txnAvailable == [] && mempoolCount == 0
    {
      headerNull := true;
      txnAvailable := [];
      mempoolCount := 0;
    }

    /** The index limit is what reading a compact block from the network enforces. */
    method InitData(c: Compact, sid: ShortId, pool: seq<(int, Tx)>, extra: seq<(int, Tx)>, maxTxs: nat, crowded: nat -> bool)
      returns (r: Status)
      requires |c.shortIds| + |c.prefilled| <= MAX_INDEX
      modifies this
      ensures r == Invalid <==> Refused(c, maxTxs) || !old(headerNull) || old(txnAvailable) != [] || !Accepted(c)
      ensures r == Failed <==>
        r != Invalid && (AnyCrowded(crowded, |c.shortIds|) || !Distinct(c.shortIds, |c.shortIds|))
      ensures r == Invalid || r == Failed || r == Ok
      ensures r == Ok ==> !headerNull && txnAvailable == Available(c, sid, pool, extra, old(mempoolCount)).slots
      ensures r == Ok ==> mempoolCount == Available(c, sid, pool, extra, old(mempoolCount)).count
    {
      hide Accepts, ScanList, Placed, IdMap, Distinct, Free, AnyCrowded;
      if c.headerNull || (|c.shortIds| == 0 && |c.prefilled| == 0) { return Invalid; }
      if |c.shortIds| + |c.prefilled| > maxTxs { return Invalid; }
      if !headerNull || |txnAvailable| > 0 { return Invalid; }
      headerNull := false;
      txnAvailable := seq(|c.shortIds| + |c.prefilled|, i => None);
      var ok := Prefill(c);
      if !ok { return Invalid; }
      var fits, ids := MapIds(c, crowded);
      IdMapSize(c.shortIds, Free(Base(c)), |c.shortIds|);
      if !fits { return Failed; }
      if |ids| != |c.shortIds| { return Failed; }
      IdsInRange(c);
      var have := Scanning(false, ids, sid, {}, pool);
      have := Scanning(true, ids, sid, have, extra);
      return Ok;
    }

    /** The differential indexes of the prefilled transactions, checked one by one. */
    method Prefill(c: Compact) returns (ok: bool)
      requires txnAvailable == seq(|c.shortIds| + |c.prefilled|, i => None)
      modifies `txnAvailable
      ensures ok <==> Accepted(c)
      ensures ok ==> txnAvailable == Base(c)
    {
      var last := -1;
      ghost var size := |c.shortIds| + |c.prefilled|;
      for i := 0 to |c.prefilled|
        invariant Accepts(c.prefilled, |c.shortIds|, i) && txnAvailable == Placed(c.prefilled, size, i)
        invariant last == if i == 0 then -1 else PosOf(c.prefilled, i - 1)
      {
        if c.prefilled[i].tx.isNull { return false; }
        last := last + c.prefilled[i].index + 1;
        if last > MAX_INDEX { return false; }
        if last > |c.shortIds| + i { return false; }
        txnAvailable := txnAvailable[last := Some(c.prefilled[i].tx)];
      }
      return true;
    }

    /** Each short id is given the next free slot; the walk over the slots never leaves them. */
    method MapIds(c: Compact, crowded: nat -> bool) returns (ok: bool, ids: map<nat, nat>)
      requires Accepted(c) && txnAvailable == Base(c) && |c.shortIds| + |c.prefilled| <= MAX_INDEX
      ensures ok <==> !AnyCrowded(crowded, |c.shortIds|)
      ensures ok ==> ids == Ids(c)
    {
      hide Free, Accepts, Placed;
      ghost var free := Free(Base(c));
      ids := map[];
      var offset := 0;
      for i := 0 to |c.shortIds|
        invariant ids == IdMap(c.shortIds, free, i) && !AnyCrowded(crowded, i)
        invariant 0 <= offset && (i < |c.shortIds| ==> i + offset <= free[i]) && (i > 0 ==> i + offset > free[i - 1])
      {
        FreeHas(Base(c), free[i]);
        while txnAvailable[i + offset].Some?
          invariant 0 <= offset && i + offset <= free[i] && (i > 0 ==> i + offset > free[i - 1])
          decreases free[i] - (i + offset)
        {
          offset := offset + 1;
        }
        NextFree(Base(c), i, i + offset);
        assert i + offset <= MAX_INDEX;
        ids := ids[c.shortIds[i] := i + offset];
        if crowded(i) { return false, ids; }
        if i + 1 < |c.shortIds| { FreeSorted(Base(c)); }
      }
      ok := true;
    }

    method Scanning(extra: bool, ids: map<nat, nat>, sid: ShortId, have0: set<nat>, list: seq<(int, Tx)>) returns (have: set<nat>)
      requires forall k :: k in ids ==> ids[k] < |txnAvailable|
      modifies `txnAvailable, `mempoolCount
      ensures Scan(txnAvailable, have, mempoolCount) == ScanList(extra, ids, sid, old(Scan(txnAvailable, have0, mempoolCount)), list, 0)
    {
      have := have0;
      ghost var start := Scan(txnAvailable, have, mempoolCount);
      for i := 0 to |list|
        invariant |txnAvailable| == |start.slots|
        invariant ScanList(extra, ids, sid, Scan(txnAvailable, have, mempoolCount), list, i) == ScanList(extra, ids, sid, start, list, 0)
      {
        var shortId := sid(list[i].0);
        if shortId in ids {
          var at := ids[shortId];
          if at !in have {
            txnAvailable := txnAvailable[at := Some(list[i].1)];
            have := have + {at};
            mempoolCount := mempoolCount + 1;
          } else if txnAvailable[at].Some? && !(extra && txnAvailable[at].value.witnessHash == list[i].1.witnessHash) {
            txnAvailable := txnAvailable[at := None];
            mempoolCount := mempoolCount - 1;
          }
        }
        if mempoolCount == |ids| { break; }
      }
    }

    predicate IsTxAvailable(i: nat)
      requires !headerNull ==> i < |txnAvailable|
      reads this
    {
      !headerNull && txnAvailable[i].Some?
    }

    /** The indexes asked from the peer are the empty slots, in order. */
    method Request(count: nat) returns (indexes: seq<nat>)
      requires !headerNull && count == |txnAvailable|
      ensures indexes == Free(txnAvailable)
    {
      indexes := [];
      for i := 0 to count
        invariant indexes == Free(txnAvailable[..i])
      {
        assert txnAvailable[..i + 1][..i] == txnAvailable[..i];
        if !IsTxAvailable(i) { indexes := indexes + [i]; }
      }
      assert txnAvailable[..count] == txnAvailable;
    }

    /**
     Succeeds only with exactly the missing transactions; a second call is then refused. A call with
     too few stops at the first slot it cannot fill and has taken out everything before it.
     */
    method FillBlock(missing: seq<Tx>, check: seq<Tx> -> BlockCheck) returns (r: Status, vtx: seq<Tx>)
      modifies this
      ensures old(headerNull) || |missing| != |Free(old(txnAvailable))| ==> r == Invalid
      ensures !old(headerNull) && |missing| == |Free(old(txnAvailable))| ==>
        && vtx == Rebuilt(old(txnAvailable), missing)
        && r == match check(vtx) { case Passes => Ok case Mutated => Failed case Fails => CheckBlockFailed }
      ensures !old(headerNull) && |missing| >= |Free(old(txnAvailable))| ==> headerNull && txnAvailable == []
      ensures !old(headerNull) && |missing| < |Free(old(txnAvailable))| ==>
        !headerNull && txnAvailable == Spent(old(txnAvailable), Free(old(txnAvailable))[|missing|])
      ensures old(headerNull) ==> headerNull && txnAvailable == old(txnAvailable)
      ensures mempoolCount == old(mempoolCount)
    {
      hide Free;
      vtx := [];
      if headerNull { return Invalid, vtx; }
      ghost var slots := txnAvailable;
      var used := 0;
      FreeEmpty();
      for i := 0 to |txnAvailable|
        invariant !headerNull && txnAvailable == Spent(slots, i) && mempoolCount == old(mempoolCount)
        invariant used == |Free(slots[..i])| <= |missing| && vtx == Rebuilt(slots[..i], missing)
      {
        FreeNext(slots, i);
        assert slots[..i + 1][..i] == slots[..i];
        if txnAvailable[i].None? {
          if |missing| <= used {
            FreeAt(slots, i);
            return Invalid, vtx;
          }
          vtx := vtx + [missing[used]];
          used := used + 1;
        } else {
          vtx := vtx + [txnAvailable[i].value];
          txnAvailable := txnAvailable[i := None];
        }
      }
      assert slots[..|slots|] == slots;
      headerNull := true;
      txnAvailable := [];
      if |missing| != used { return Invalid, vtx; }
      match check(vtx) {
        case Passes => return Ok, vtx;
        case Mutated => return Failed, vtx;
        case Fails => return CheckBlockFailed, vtx;
      }
    }
  }

  /** The slots with everything before n taken out. */
  function Spent(slots: Slots, n: nat): Slots { seq(|slots|, i requires 0 <= i < |slots| => if i < n then None else slots[i]) }

  /** An empty slot is listed after the empty slots before it. */
  lemma {:induction false} FreeAt(slots: Slots, i: nat)
    requires i < |slots| && slots[i].None?
    ensures |Free(slots[..i])| < |Free(slots)| && Free(slots)[|Free(slots[..i])|] == i
  {
    var n := |slots| - 1;
    if i < n {
      FreeAt(slots[..n], i);
      assert slots[..n][..i] == slots[..i];
    }
  }

  lemma {:induction false} FreeSpent(slots: Slots, n: nat)
    requires n <= |slots|
    ensures |Free(Spent(slots, n))| == n + |Free(slots)| - |Free(slots[..n])|
  {
    if n == |slots| {
      FreeOnly(Spent(slots, n));
      assert slots[..n] == slots;
    } else {
      var m := |slots| - 1;
      FreeSpent(slots[..m], n);
      assert Spent(slots, n)[..m] == Spent(slots[..m], n) && slots[..m][..n] == slots[..n];
    }
  }

  lemma {:induction false} FreePrefix(slots: Slots, k: nat)
    requires k < |Free(slots)|
    ensures Free(slots)[k] < |slots| && |Free(slots[..Free(slots)[k]])| == k
  {
    var n := |slots| - 1;
    var f := Free(slots[..n]);
    if k < |f| {
      FreePrefix(slots[..n], k);
      assert slots[..n][..f[k]] == slots[..f[k]];
    }
  }

  /**
   After a call with too few transactions, the list that would have completed the block is still
   the right length exactly when every slot before the stop was empty.
   */
  lemma RetryFits(slots: Slots, sent: nat)
    requires sent < |Free(slots)|
    ensures var stop := Free(slots)[sent];
      stop <= |slots| && (|Free(Spent(slots, stop))| == |Free(slots)| <==> forall p :: 0 <= p < stop ==> slots[p].None?)
  {
    hide Free, Spent;
    var stop := Free(slots)[sent];
    FreePrefix(slots, sent);
    FreeSpent(slots, stop);
    FreeOnly(slots[..stop]);
  }

  lemma NextFree(slots: Slots, i: nat, q: nat)
    requires i < |Free(slots)| && q < |slots| && slots[q].None? && q <= Free(slots)[i] && (i > 0 ==> q > Free(slots)[i - 1])
    ensures q == Free(slots)[i]
  {
    hide Free;
    FreeHas(slots, q);
    FreeSorted(slots);
    var k :| 0 <= k < |Free(slots)| && Free(slots)[k] == q;
  }

  lemma FreeEmpty()
    ensures Free([]) == []
  {
  }

  /** One more slot, and the empty slots only grow in number. */
  lemma FreeNext(slots: Slots, i: nat)
    requires i < |slots|
    ensures |Free(slots[..i + 1])| == |Free(slots[..i])| + (if slots[i].None? then 1 else 0) <= |Free(slots)|
  {
    assert slots[..i + 1][..i] == slots[..i];
    FreeGrows(slots, i + 1);
  }

  lemma {:induction false} FreeGrows(slots: Slots, n: nat)
    requires n <= |slots|
    ensures |Free(slots[..n])| <= |Free(slots)|
  {
    if n < |slots| {
      FreeGrows(slots[..|slots| - 1], n);
      assert slots[..|slots| - 1][..n] == slots[..n];
    } else {
      assert slots[..n] == slots;
    }
  }
}
