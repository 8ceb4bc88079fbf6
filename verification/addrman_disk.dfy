/**
 Saving and loading the address manager. Of the tables only the entries and the new buckets are
 written; ids, indexes, counters and the tried table are rebuilt.
 */
module AddrManDisk {
  import opened AddrManState
  import opened AddrManOps
  import opened AddrManRuns

  /** What is written of an entry. */
  datatype Stored = Stored(service: Service, nTime: int, nServices: bv64, source: NetAddr, lastSuccess: int, nAttempts: int)

  datatype Disk = Disk(newInfos: seq<Stored>, triedInfos: seq<Stored>, buckets: seq<seq<int>>, asmap: int)

  function Store(i: AddrInfo): Stored {
    Stored(i.service, i.nTime, i.nServices, i.source, i.lastSuccess, i.nAttempts)
  }

  function Restored(s: Stored, pos: int, tried: bool): AddrInfo {
    AddrInfo(s.service, s.nTime, s.nServices, s.source, 0, 0, s.lastSuccess, s.nAttempts, 0, tried, pos)
  }

  // ----- entering an entry from disk

  function One(b: bool): int { if b then 1 else 0 }

  /** A new id with an entry read from disk, counted and, if tried, put into its tried slot. */
  function Enter(e: Env, v: View, s: Stored, tried: bool): View
    requires e.Ok()
  {
    var id := v.nIdCount;
    v.(nIdCount := id + 1,
       mapInfo := v.mapInfo[id := Restored(s, |v.vRandom|, tried)],
       mapAddr := v.mapAddr[s.service := id],
       vRandom := v.vRandom + [id],
       nNew := v.nNew + One(!tried),
       nTried := v.nTried + One(tried),
       vvTried := if tried then v.vvTried[TriedSlot(e, s.service) := id] else v.vvTried,
       counts := Bump(v.counts, e.networkOf(s.service.ip), One(!tried), One(tried)))
  }

  lemma EnterIndexes(e: Env, v: View, s: Stored, tried: bool)
    requires e.Ok() && Indexes(e, v.mapInfo, v.nIdCount, v.mapAddr, v.vRandom)
    requires e.isRoutable(s.service.ip) && s.service !in v.mapAddr
    ensures var w := Enter(e, v, s, tried); Indexes(e, w.mapInfo, w.nIdCount, w.mapAddr, w.vRandom)
  {
    var w := Enter(e, v, s, tried);
    assert AddrIndex(w.mapInfo, w.mapAddr);
    assert RandomIndex(w.mapInfo, w.vRandom);
  }

  lemma EnterTables(e: Env, v: View, s: Stored, tried: bool)
    requires e.Ok() && v.nIdCount !in v.mapInfo && v.nIdCount >= 0 && -1 !in v.mapInfo
    requires TriedTable(e, v.mapInfo, v.vvTried) && NewTable(e, v.mapInfo, v.vvNew) && RefCounts(e, v.mapInfo, v.vvNew)
    requires tried ==> TriedSlot(e, s.service) in v.vvTried && v.vvTried[TriedSlot(e, s.service)] == -1
    ensures var w := Enter(e, v, s, tried);
      TriedTable(e, w.mapInfo, w.vvTried) && NewTable(e, w.mapInfo, w.vvNew) && RefCounts(e, w.mapInfo, w.vvNew)
  {
    hide TriedTable, NewTable, RefCounts;
    EnterTriedTable(e, v, s, tried);
    EnterNewTable(e, v, s, tried);
  }

  lemma EnterTriedTable(e: Env, v: View, s: Stored, tried: bool)
    requires e.Ok() && v.nIdCount !in v.mapInfo && v.nIdCount >= 0 && -1 !in v.mapInfo && TriedTable(e, v.mapInfo, v.vvTried)
    requires tried ==> TriedSlot(e, s.service) in v.vvTried && v.vvTried[TriedSlot(e, s.service)] == -1
    ensures TriedTable(e, Enter(e, v, s, tried).mapInfo, Enter(e, v, s, tried).vvTried)
  {
    hide Bump, TriedTable, TriedSlot;
    var i := Restored(s, |v.vRandom|, tried);
    if tried { TriedTableAdd(e, v.mapInfo, v.vvTried, v.nIdCount, i); } else { TriedTableSkip(e, v.mapInfo, v.vvTried, v.nIdCount, i); }
  }

  lemma TriedTableAdd(e: Env, m: map<int, AddrInfo>, t: Grid, id: int, i: AddrInfo)
    requires e.Ok() && TriedTable(e, m, t) && id !in m && id >= 0 && -1 !in m && i.fInTried
    requires TriedSlot(e, i.service) in t && t[TriedSlot(e, i.service)] == -1
    ensures TriedTable(e, m[id := i], t[TriedSlot(e, i.service) := id])
  {
    hide TriedSlot;
    var k := TriedSlot(e, i.service);
    assert t[k := id].Keys == t.Keys;
    forall j | j in m && m[j].fInTried ensures TriedSlot(e, m[j].service) != k {
      assert t[TriedSlot(e, m[j].service)] == j;
    }
  }

  lemma TriedTableSkip(e: Env, m: map<int, AddrInfo>, t: Grid, id: int, i: AddrInfo)
    requires e.Ok() && TriedTable(e, m, t) && id !in m && id >= 0 && !i.fInTried
    ensures TriedTable(e, m[id := i], t)
  {
    hide TriedSlot;
  }

  lemma EnterNewTable(e: Env, v: View, s: Stored, tried: bool)
    requires e.Ok() && v.nIdCount !in v.mapInfo && v.nIdCount >= 0 && NewTable(e, v.mapInfo, v.vvNew) && RefCounts(e, v.mapInfo, v.vvNew)
    ensures NewTable(e, Enter(e, v, s, tried).mapInfo, v.vvNew) && RefCounts(e, Enter(e, v, s, tried).mapInfo, v.vvNew)
  {
    hide Bump, TriedSlot, NewPos;
    assert Refs(e, v.vvNew, s.service, v.nIdCount) == {};
  }

  lemma EnterTotals(e: Env, v: View, s: Stored, tried: bool)
    requires e.Ok() && v.nIdCount !in v.mapInfo && Totals(e, v.mapInfo, {}, v.nNew, v.nTried, v.counts)
    ensures var w := Enter(e, v, s, tried); Totals(e, w.mapInfo, {}, w.nNew, w.nTried, w.counts)
  {
    var w := Enter(e, v, s, tried);
    TotalsAfter(e, v.mapInfo, w.mapInfo, {}, {}, v.nNew, v.nTried, v.counts, v.nIdCount, w.mapInfo[v.nIdCount], One(!tried), One(tried));
  }

  lemma EnterStates(e: Env, v: View, s: Stored, tried: bool, pending: set<int>)
    requires e.Ok() && v.nIdCount !in v.mapInfo && RefStates(v.mapInfo, pending) && Stamps(v.mapInfo)
    requires s.lastSuccess >= 0 && (tried ==> s.lastSuccess > 0)
    ensures var w := Enter(e, v, s, tried);
      RefStates(w.mapInfo, if tried then pending else pending + {v.nIdCount}) && Stamps(w.mapInfo)
  {
  }

  lemma EnterKeeps(e: Env, v: View, s: Stored, tried: bool, pending: set<int>)
    requires Inv(e, v, pending, {}) && e.isRoutable(s.service.ip) && s.service !in v.mapAddr
    requires s.lastSuccess >= 0 && (tried ==> s.lastSuccess > 0)
    requires tried ==> TriedSlot(e, s.service) in v.vvTried && v.vvTried[TriedSlot(e, s.service)] == -1
    ensures Inv(e, Enter(e, v, s, tried), if tried then pending else pending + {v.nIdCount}, {})
  {
    hide TriedTable, NewTable, RefCounts, Totals, RefStates, Stamps, AddrIndex, RandomIndex;
    assert v.nIdCount !in v.mapInfo;
    var none: set<int> := {};
    assert pending + none == pending && (pending + {v.nIdCount}) + none == pending + {v.nIdCount};
    EnterIndexes(e, v, s, tried);
    EnterTables(e, v, s, tried);
    EnterTotals(e, v, s, tried);
    EnterStates(e, v, s, tried, pending);
  }

  // ----- loading

  /** What holds while loading, whatever is on the disk. */
  ghost predicate Loading(e: Env, v: View) {
    && e.Ok() && GridShape(v.vvTried, e.triedBuckets, e.bucketSize) && GridShape(v.vvNew, e.newBuckets, e.bucketSize)
    && 0 <= v.nIdCount && (forall id :: id in v.mapInfo ==> 0 <= id < v.nIdCount)
    && RandomIndex(v.mapInfo, v.vRandom)
  }

  lemma EnterLoads(e: Env, v: View, s: Stored, tried: bool)
    requires Loading(e, v)
    ensures Loading(e, Enter(e, v, s, tried))
  {
    hide TriedSlot;
    TriedSlotInRange(e, s.service);
    var w := Enter(e, v, s, tried);
    assert RandomIndex(w.mapInfo, w.vRandom);
  }

  lemma TriedSlotInRange(e: Env, s: Service)
    requires e.Ok()
    ensures 0 <= TriedSlot(e, s).0 < e.triedBuckets && 0 <= TriedSlot(e, s).1 < e.bucketSize
  {
  }

  /** The entries of the new table get the ids from zero up. */
  ghost function LoadNew(e: Env, infos: seq<Stored>, n: nat): (v: View)
    requires e.Ok() && n <= |infos|
    ensures Loading(e, v)
  {
    hide Loading, Enter;
    if n == 0 then
      EmptyLoads(e);
      Empty(e)
    else
      EnterLoads(e, LoadNew(e, infos, n - 1), infos[n - 1], false);
      Enter(e, LoadNew(e, infos, n - 1), infos[n - 1], false)
  }

  lemma EmptyLoads(e: Env)
    requires e.Ok()
    ensures Loading(e, Empty(e))
  {
  }

  /** A tried entry is lost if its address is not valid or its slot is taken. */
  ghost function LoadTriedOne(e: Env, v: View, s: Stored): (w: View)
    requires Loading(e, v)
    ensures Loading(e, w)
  {
    hide TriedSlot, Enter;
    TriedSlotInRange(e, s.service);
    if e.isValid(s.service.ip) && v.vvTried[TriedSlot(e, s.service)] == -1 then
      EnterLoads(e, v, s, true);
      Enter(e, v, s, true)
    else
      v
  }

  ghost function LoadTried(e: Env, v: View, infos: seq<Stored>, n: nat): (w: View)
    requires Loading(e, v) && n <= |infos|
    ensures Loading(e, w)
  {
    hide Loading, LoadTriedOne;
    if n == 0 then v else LoadTriedOne(e, LoadTried(e, v, infos, n - 1), infos[n - 1])
  }

  /** The pairs of a bucket and an index of an entry that are in range. */
  function InBucket(b: int, list: seq<int>, limit: int): seq<(int, int)> {
    if list == [] then [] else
    var n := |list| - 1;
    InBucket(b, list[..n], limit) + if 0 <= list[n] < limit then [(b, list[n])] else []
  }

  function Entries(buckets: seq<seq<int>>, limit: int): seq<(int, int)> {
    if buckets == [] then [] else
    var n := |buckets| - 1;
    Entries(buckets[..n], limit) + InBucket(n, buckets[n], limit)
  }

  lemma LinkLoads(e: Env, v: View, id: int, k: Slot)
    requires Loading(e, v) && id in v.mapInfo && k in v.vvNew
    ensures Loading(e, Link(v, id, k)) && Link(v, id, k).mapInfo.Keys == v.mapInfo.Keys
  {
    var w := Link(v, id, k);
    assert w.vvNew.Keys == v.vvNew.Keys && w.mapInfo.Keys == v.mapInfo.Keys;
    assert RandomIndex(w.mapInfo, w.vRandom);
  }

  /**
   One reference: to the bucket it had if the buckets are still the same and the slot is free,
   and otherwise to the bucket of the entry's own source if that slot is free.
   */
  ghost function LoadRef(e: Env, v: View, b: int, id: int, restore: bool): (w: View)
    requires e.Ok() && Loading(e, v) && (restore ==> 0 <= b < e.newBuckets)
    ensures Loading(e, w) && w.mapInfo.Keys == v.mapInfo.Keys
  {
    hide Loading, Link, NewSlot, NewPos;
    if id !in v.mapInfo || !e.isValid(v.mapInfo[id].service.ip) || v.mapInfo[id].nRefCount >= NEW_BUCKETS_PER_ADDRESS then v else
    var i := v.mapInfo[id];
    NewSlotsInRange(e, v, i, b);
    if restore && v.vvNew[(b, NewPos(e, i.service, b))] == -1 then
      LinkLoads(e, v, id, (b, NewPos(e, i.service, b)));
      Link(v, id, (b, NewPos(e, i.service, b)))
    else if v.vvNew[NewSlot(e, i.service, i.source)] == -1 then
      LinkLoads(e, v, id, NewSlot(e, i.service, i.source));
      Link(v, id, NewSlot(e, i.service, i.source))
    else
      v
  }

  lemma NewSlotsInRange(e: Env, v: View, i: AddrInfo, b: int)
    requires Loading(e, v)
    ensures NewSlot(e, i.service, i.source) in v.vvNew
    ensures 0 <= b < e.newBuckets ==> (b, NewPos(e, i.service, b)) in v.vvNew
  {
  }

  ghost function LoadRefs(e: Env, v: View, entries: seq<(int, int)>, n: nat, restore: bool): (w: View)
    requires e.Ok() && Loading(e, v) && n <= |entries| && (restore ==> forall i :: 0 <= i < |entries| ==> 0 <= entries[i].0 < e.newBuckets)
    ensures Loading(e, w) && w.mapInfo.Keys == v.mapInfo.Keys
  {
    hide Loading, LoadRef;
    if n == 0 then v else LoadRef(e, LoadRefs(e, v, entries, n - 1, restore), entries[n - 1].0, entries[n - 1].1, restore)
  }

  /** Entries left without a reference are dropped, in the order of their ids. */
  ghost function Prune(e: Env, v: View, n: int): (w: View)
    requires Loading(e, v)
    ensures Loading(e, w)
    decreases if n < 0 then 0 else n
  {
    hide Loading, Delete;
    if n <= 0 then v else
    var u := Prune(e, v, n - 1);
    if n - 1 in u.mapInfo && !u.mapInfo[n - 1].fInTried && u.mapInfo[n - 1].nRefCount == 0 then
      LoadingRandom(e, u);
      DeleteLoads(e, u, n - 1);
      Delete(e, u, n - 1)
    else u
  }

  lemma PruneNone(e: Env, v: View, n: int)
    requires Loading(e, v) && n <= 0
    ensures Prune(e, v, n) == v
  {
    hide Loading;
  }

  lemma PruneNext(e: Env, v: View, n: nat)
    requires Loading(e, v)
    ensures var u := Prune(e, v, n);
      && RandomIndex(u.mapInfo, u.vRandom)
      && Prune(e, v, n + 1) ==
        if n in u.mapInfo && !u.mapInfo[n].fInTried && u.mapInfo[n].nRefCount == 0 then Delete(e, u, n) else u
  {
    hide Loading, Delete;
    LoadingRandom(e, Prune(e, v, n));
    assert n + 1 - 1 == n;
  }

  lemma PruneCount(e: Env, v: View)
    requires Loading(e, v)
    ensures v.nIdCount >= 0
  {
  }

  lemma LoadingRandom(e: Env, v: View)
    requires Loading(e, v)
    ensures RandomIndex(v.mapInfo, v.vRandom)
  {
  }

  lemma DeleteLoads(e: Env, v: View, id: int)
    requires Loading(e, v) && id in v.mapInfo
    ensures Loading(e, Delete(e, v, id))
  {
    hide GridShape, Delete, RandomIndex, Bump;
    DeleteEffect(e, v, id);
  }

  lemma EntriesInRange(buckets: seq<seq<int>>, limit: int)
    ensures forall i :: 0 <= i < |Entries(buckets, limit)| ==> 0 <= Entries(buckets, limit)[i].0 < |buckets|
  {
    if buckets != [] {
      var n := |buckets| - 1;
      EntriesInRange(buckets[..n], limit);
      BucketInRange(n, buckets[n], limit);
    }
  }

  lemma BucketInRange(b: int, list: seq<int>, limit: int)
    ensures forall i :: 0 <= i < |InBucket(b, list, limit)| ==> InBucket(b, list, limit)[i].0 == b && 0 <= InBucket(b, list, limit)[i].1 < limit
  {
    if list != [] { BucketInRange(b, list[..|list| - 1], limit); }
  }

  /** Loading, as far as the tables go; the consistency check comes after. */
  ghost function Load(e: Env, d: Disk, asmap: int): (v: View)
    requires e.Ok()
    ensures Loading(e, v)
  {
    hide Loading;
    var v1 := LoadNew(e, d.newInfos, |d.newInfos|);
    var v2 := LoadTried(e, v1, d.triedInfos, |d.triedInfos|);
    var entries := Entries(d.buckets, |d.newInfos|);
    EntriesInRange(d.buckets, |d.newInfos|);
    var v3 := LoadRefs(e, v2, entries, |entries|, |d.buckets| == e.newBuckets && d.asmap == asmap);
    Prune(e, v3, v3.nIdCount)
  }

  // ----- saving

  /** The map is walked in some order that lists every id once. */
  ghost predicate Lists(order: seq<int>, m: map<int, AddrInfo>) {
    && (forall i :: 0 <= i < |order| ==> order[i] in m)
    && (forall id :: id in m ==> id in order)
    && (forall i, j :: 0 <= i < j < |order| ==> order[i] != order[j])
  }

  /** Which entries go into which list. */
  predicate GoesTo(i: AddrInfo, tried: bool) { if tried then i.fInTried else i.nRefCount != 0 }

  function Chosen(m: map<int, AddrInfo>, order: seq<int>, tried: bool): (ids: seq<int>)
    requires forall i :: 0 <= i < |order| ==> order[i] in m
    ensures forall i :: 0 <= i < |ids| ==> ids[i] in m && GoesTo(m[ids[i]], tried) && ids[i] in order
  {
    if order == [] then [] else
    var n := |order| - 1;
    assert order[..n] + [order[n]] == order;
    Chosen(m, order[..n], tried) + if GoesTo(m[order[n]], tried) then [order[n]] else []
  }

  lemma ChosenNext(m: map<int, AddrInfo>, order: seq<int>, tried: bool, i: nat)
    requires i < |order| && forall j :: 0 <= j < |order| ==> order[j] in m
    ensures StoreAll(m, Chosen(m, order[..i + 1], tried)) ==
      StoreAll(m, Chosen(m, order[..i], tried)) + if GoesTo(m[order[i]], tried) then [Store(m[order[i]])] else []
  {
    assert order[..i + 1][..i] == order[..i];
  }

  /** The number each id has among the entries of the new table. */
  function Numbers(m: map<int, AddrInfo>, order: seq<int>): (r: map<int, int>)
    requires forall i :: 0 <= i < |order| ==> order[i] in m
    ensures forall id :: id in r <==> id in order
  {
    if order == [] then map[] else
    var n := |order| - 1;
    assert order[..n] + [order[n]] == order;
    Numbers(m, order[..n])[order[n] := |Chosen(m, order[..n], false)|]
  }

  function StoreAll(m: map<int, AddrInfo>, ids: seq<int>): (r: seq<Stored>)
    requires forall i :: 0 <= i < |ids| ==> ids[i] in m
    ensures |r| == |ids| && forall i :: 0 <= i < |ids| ==> r[i] == Store(m[ids[i]])
  {
    seq(|ids|, i requires 0 <= i < |ids| => Store(m[ids[i]]))
  }

  /** The filled slots of a table below a position, bucket by bucket. */
  function Filled(t: Grid, b: int, p: nat): (r: seq<Slot>)
    requires forall i :: 0 <= i < p ==> (b, i) in t
    ensures forall i :: 0 <= i < |r| ==> r[i].0 == b && 0 <= r[i].1 < p && r[i] in t && t[r[i]] != -1
    ensures forall i :: 0 <= i < p && t[(b, i)] != -1 ==> (b, i) in r
    ensures forall i, j :: 0 <= i < j < |r| ==> r[i] != r[j]
  {
    if p == 0 then [] else Filled(t, b, p - 1) + if t[(b, p - 1)] != -1 then [(b, p - 1)] else []
  }

  function AllFilled(t: Grid, b: nat, size: nat): (r: seq<Slot>)
    requires forall i, j :: 0 <= i < b && 0 <= j < size ==> (i, j) in t
    ensures forall i :: 0 <= i < |r| ==> 0 <= r[i].0 < b && 0 <= r[i].1 < size && r[i] in t && t[r[i]] != -1
    ensures forall i, j :: 0 <= i < b && 0 <= j < size && t[(i, j)] != -1 ==> (i, j) in r
    ensures forall i, j :: 0 <= i < j < |r| ==> r[i] != r[j]
  {
    hide Filled;
    if b == 0 then [] else
    var before, last := AllFilled(t, b - 1, size), Filled(t, b - 1, size);
    assert forall i, j :: 0 <= i < |before| && 0 <= j < |last| ==> before[i].0 < last[j].0;
    before + last
  }

  /** The numbers of the entries in some slots. */
  function NumbersAt(t: Grid, unk: map<int, int>, slots: seq<Slot>): (r: seq<int>)
    requires forall i :: 0 <= i < |slots| ==> slots[i] in t && t[slots[i]] in unk
    ensures |r| == |slots| && forall i :: 0 <= i < |slots| ==> r[i] == unk[t[slots[i]]]
  {
    seq(|slots|, i requires 0 <= i < |slots| => unk[t[slots[i]]])
  }

  /** Every id in the new table is known and has references. */
  ghost predicate TableKnown(e: Env, v: View) {
    && GridShape(v.vvNew, e.newBuckets, e.bucketSize)
    && forall k :: k in v.vvNew && v.vvNew[k] != -1 ==> v.vvNew[k] in v.mapInfo
  }

  ghost function Save(e: Env, v: View, order: seq<int>, asmap: int): Disk
    requires TableKnown(e, v) && Lists(order, v.mapInfo)
  {
    hide GridShape;
    var unk := Numbers(v.mapInfo, order);
    SlotsThere(e, v);
    Disk(StoreAll(v.mapInfo, Chosen(v.mapInfo, order, false)), StoreAll(v.mapInfo, Chosen(v.mapInfo, order, true)),
         seq(e.newBuckets, b requires 0 <= b < e.newBuckets => NumbersAt(v.vvNew, unk, Filled(v.vvNew, b, e.bucketSize))),
         asmap)
  }

  lemma SlotsThere(e: Env, v: View)
    requires TableKnown(e, v)
    ensures forall b, p :: 0 <= b < e.newBuckets && 0 <= p < e.bucketSize ==> (b, p) in v.vvNew
    ensures forall k :: k in v.vvNew && v.vvNew[k] != -1 ==> v.vvNew[k] in v.mapInfo
  {
  }
}
