/**
 Loading an arbitrary record. Whatever is on the disk, tables and counters come out right, so the
 final check can only fail on a repeated address or an impossible time, and what it accepts is
 consistent as soon as its addresses are routable.
 */
module AddrManLoad {
  import opened AddrManState
  import opened AddrManOps
  import opened AddrManRuns
  import opened AddrManDisk
  import opened AddrManCheck

  /** The first n ids are entries of the new table. */
  ghost predicate States(m: map<int, AddrInfo>, n: int) {
    forall id :: id in m ==>
      && 0 <= m[id].nRefCount <= NEW_BUCKETS_PER_ADDRESS && m[id].lastTry == 0
      && (m[id].fInTried ==> m[id].nRefCount == 0 && id >= n)
  }

  /** What loading keeps for every record. */
  ghost predicate Tabled(e: Env, v: View, n: int) {
    && Loading(e, v) && v.collisions == {}
    && TriedTable(e, v.mapInfo, v.vvTried) && NewTable(e, v.mapInfo, v.vvNew) && RefCounts(e, v.mapInfo, v.vvNew)
    && Totals(e, v.mapInfo, {}, v.nNew, v.nTried, v.counts)
    && Backed(v.mapInfo, v.mapAddr) && States(v.mapInfo, n)
  }

  ghost predicate Known(m: map<int, AddrInfo>, a: map<Service, int>) {
    forall id :: id in m ==> m[id].service in a
  }

  // ----- entries

  lemma EnterTabled(e: Env, v: View, s: Stored, tried: bool, n: int)
    requires Tabled(e, v, n) && Known(v.mapInfo, v.mapAddr)
    requires tried ==> v.nIdCount >= n && TriedSlot(e, s.service) in v.vvTried && v.vvTried[TriedSlot(e, s.service)] == -1
    ensures var w := Enter(e, v, s, tried); Tabled(e, w, n) && Known(w.mapInfo, w.mapAddr)
  {
    EnterAddresses(e, v, s, tried, n);
    hide TriedTable, NewTable, RefCounts, Totals, States, Backed, Known, RandomIndex, TriedSlot, GridShape;
    assert v.nIdCount !in v.mapInfo && -1 !in v.mapInfo;
    EnterLoads(e, v, s, tried);
    EnterTables(e, v, s, tried);
    EnterTotals(e, v, s, tried);
  }

  lemma EnterAddresses(e: Env, v: View, s: Stored, tried: bool, n: int)
    requires e.Ok() && v.nIdCount !in v.mapInfo && Backed(v.mapInfo, v.mapAddr) && Known(v.mapInfo, v.mapAddr) && States(v.mapInfo, n)
    requires tried ==> v.nIdCount >= n
    ensures var w := Enter(e, v, s, tried);
      Backed(w.mapInfo, w.mapAddr) && Known(w.mapInfo, w.mapAddr) && States(w.mapInfo, n)
  {
  }

  lemma {:induction false} LoadNewTabled(e: Env, infos: seq<Stored>, n: nat, limit: int)
    requires e.Ok() && n <= |infos|
    ensures var v := LoadNew(e, infos, n); Tabled(e, v, limit) && Known(v.mapInfo, v.mapAddr) && v.nIdCount == n
  {
    hide Tabled, Known, Loading;
    if n == 0 {
      EmptyTabled(e, limit);
    } else {
      LoadNewTabled(e, infos, n - 1, limit);
      EnterTabled(e, LoadNew(e, infos, n - 1), infos[n - 1], false, limit);
    }
  }

  lemma EmptyTabled(e: Env, n: int)
    requires e.Ok()
    ensures Tabled(e, Empty(e), n) && Known(Empty(e).mapInfo, Empty(e).mapAddr)
  {
    hide TriedTable, NewTable, RefCounts, Totals;
    EmptyTables(e);
    EmptyTotals(e);
    EmptyLoads(e);
  }

  lemma {:induction false} LoadTriedTabled(e: Env, v: View, infos: seq<Stored>, n: nat, limit: int)
    requires Tabled(e, v, limit) && Known(v.mapInfo, v.mapAddr) && v.nIdCount >= limit && e.Ok() && Loading(e, v) && n <= |infos|
    ensures var w := LoadTried(e, v, infos, n); Tabled(e, w, limit) && Known(w.mapInfo, w.mapAddr) && w.nIdCount >= limit
  {
    hide Tabled, Known, Loading, TriedSlot;
    if n > 0 {
      LoadTriedTabled(e, v, infos, n - 1, limit);
      var u, s := LoadTried(e, v, infos, n - 1), infos[n - 1];
      TriedSlotThere(e, u, s.service);
      if e.isValid(s.service.ip) && u.vvTried[TriedSlot(e, s.service)] == -1 {
        EnterTabled(e, u, s, true, limit);
      }
    }
  }

  lemma TriedSlotThere(e: Env, v: View, s: Service)
    requires Loading(e, v)
    ensures TriedSlot(e, s) in v.vvTried
  {
  }

  /** The entries as they are read, before references are given out. */
  ghost function Read(e: Env, d: Disk): (v: View)
    requires e.Ok()
    ensures Loading(e, v)
  {
    LoadTried(e, LoadNew(e, d.newInfos, |d.newInfos|), d.triedInfos, |d.triedInfos|)
  }

  lemma ReadTabled(e: Env, d: Disk)
    requires e.Ok()
    ensures var v := Read(e, d); Tabled(e, v, |d.newInfos|) && Known(v.mapInfo, v.mapAddr)
  {
    hide Tabled, Known, Loading;
    LoadNewTabled(e, d.newInfos, |d.newInfos|, |d.newInfos|);
    LoadTriedTabled(e, LoadNew(e, d.newInfos, |d.newInfos|), d.triedInfos, |d.triedInfos|, |d.newInfos|);
  }

  // ----- references

  /** Only reference counts differ. */
  ghost predicate OnlyRefs(v: View, w: View) {
    && w.mapInfo.Keys == v.mapInfo.Keys && w.mapAddr == v.mapAddr && w.nIdCount == v.nIdCount
    && forall id :: id in v.mapInfo ==> w.mapInfo[id] == v.mapInfo[id].(nRefCount := w.mapInfo[id].nRefCount)
  }

  lemma LinkTabled(e: Env, v: View, id: int, k: Slot, n: int)
    requires Tabled(e, v, n) && id in v.mapInfo && id < n && v.mapInfo[id].nRefCount < NEW_BUCKETS_PER_ADDRESS
    requires k in v.vvNew && v.vvNew[k] == -1 && NewPos(e, v.mapInfo[id].service, k.0) == k.1
    ensures Tabled(e, Link(v, id, k), n) && OnlyRefs(v, Link(v, id, k))
  {
    LinkStatesLoad(v, id, k, n);
    var i := v.mapInfo[id].(nRefCount := v.mapInfo[id].nRefCount + 1);
    hide TriedTable, NewTable, RefCounts, Totals, Backed, RandomIndex, GridShape, NewPos;
    LinkLoads(e, v, id, k);
    LinkTables(e, v, id, k);
    TotalsSamePut(e, v.mapInfo, id, i, {}, v.nNew, v.nTried, v.counts);
  }

  lemma LinkStatesLoad(v: View, id: int, k: Slot, n: int)
    requires id in v.mapInfo && id < n && v.mapInfo[id].nRefCount < NEW_BUCKETS_PER_ADDRESS
    requires States(v.mapInfo, n) && Backed(v.mapInfo, v.mapAddr)
    ensures var w := Link(v, id, k); States(w.mapInfo, n) && Backed(w.mapInfo, w.mapAddr) && OnlyRefs(v, w)
  {
  }

  lemma LoadRefTabled(e: Env, v: View, b: int, id: int, restore: bool, n: int)
    requires Tabled(e, v, n) && e.Ok() && Loading(e, v) && (restore ==> 0 <= b < e.newBuckets) && id < n
    ensures Tabled(e, LoadRef(e, v, b, id, restore), n) && OnlyRefs(v, LoadRef(e, v, b, id, restore))
  {
    hide Tabled, Loading, Link, NewPos;
    if id in v.mapInfo && e.isValid(v.mapInfo[id].service.ip) && v.mapInfo[id].nRefCount < NEW_BUCKETS_PER_ADDRESS {
      var i := v.mapInfo[id];
      NewSlotsInRange(e, v, i, b);
      if restore && v.vvNew[(b, NewPos(e, i.service, b))] == -1 {
        LinkTabled(e, v, id, (b, NewPos(e, i.service, b)), n);
      } else if v.vvNew[NewSlot(e, i.service, i.source)] == -1 {
        LinkTabled(e, v, id, NewSlot(e, i.service, i.source), n);
      }
    }
  }

  lemma {:induction false} LoadRefsTabled(e: Env, v: View, entries: seq<(int, int)>, k: nat, restore: bool, n: int)
    requires Tabled(e, v, n) && e.Ok() && Loading(e, v) && k <= |entries|
    requires (restore ==> forall i :: 0 <= i < |entries| ==> 0 <= entries[i].0 < e.newBuckets)
    requires forall i :: 0 <= i < |entries| ==> entries[i].1 < n
    ensures Tabled(e, LoadRefs(e, v, entries, k, restore), n) && OnlyRefs(v, LoadRefs(e, v, entries, k, restore))
  {
    hide Tabled, Loading, LoadRef;
    if k > 0 {
      LoadRefsTabled(e, v, entries, k - 1, restore, n);
      LoadRefTabled(e, LoadRefs(e, v, entries, k - 1, restore), entries[k - 1].0, entries[k - 1].1, restore, n);
    }
  }

  lemma {:induction false} EntriesBelow(buckets: seq<seq<int>>, limit: int)
    ensures forall i :: 0 <= i < |Entries(buckets, limit)| ==> Entries(buckets, limit)[i].1 < limit
  {
    hide InBucket;
    if buckets != [] {
      var n := |buckets| - 1;
      EntriesBelow(buckets[..n], limit);
      BucketInRange(n, buckets[n], limit);
    }
  }

  // ----- dropping what has no reference

  lemma DeleteTabled(e: Env, v: View, id: int, n: int)
    requires Tabled(e, v, n) && id in v.mapInfo && !v.mapInfo[id].fInTried && v.mapInfo[id].nRefCount == 0
    requires RandomIndex(v.mapInfo, v.vRandom)
    ensures Tabled(e, Delete(e, v, id), n)
  {
    DeleteEffect(e, v, id);
    DeleteLoads(e, v, id);
    var w, m := Delete(e, v, id), v.mapInfo - {id};
    DeleteAddresses(v.mapInfo, w.mapInfo, v.mapAddr, id, n);
    hide TriedTable, NewTable, RefCounts, Totals, States, Backed, Loading, Delete, Bump;
    DropTables(e, v.mapInfo, id, v.vvTried, v.vvNew);
    DropTotals(e, v.mapInfo, id, {}, v.nNew, v.nTried, v.counts);
    TablesSame(e, m, w.mapInfo, v.vvTried, v.vvNew);
    TotalsSame(e, m, w.mapInfo, {}, w.nNew, w.nTried, w.counts);
  }

  lemma DeleteAddresses(m: map<int, AddrInfo>, m': map<int, AddrInfo>, a: map<Service, int>, id: int, n: int)
    requires Backed(m, a) && States(m, n) && id in m && OnlyPositions(m - {id}, m')
    ensures Backed(m', a - {m[id].service}) && States(m', n)
  {
    forall s | s in a - {m[id].service} ensures a[s] in m' && m'[a[s]].service == s {
      var j := a[s];
      assert j in m && m[j].service == s;
      assert j in m - {id};
    }
  }

  /** An address that has lost an entry is no longer indexed, any other still is. */
  ghost predicate Traced(read: map<int, AddrInfo>, v: View) {
    && (forall id :: id in v.mapInfo ==> id in read && read[id].service == v.mapInfo[id].service)
    && (forall j :: j in read && read[j].service in v.mapAddr ==> j in v.mapInfo)
    && (forall j :: j in read && read[j].service !in v.mapAddr ==> Gone(read, v.mapInfo, read[j].service))
  }

  ghost predicate Gone(read: map<int, AddrInfo>, m: map<int, AddrInfo>, s: Service) {
    exists g :: g in read && g !in m && read[g].service == s
  }

  lemma DeleteTraced(e: Env, read: map<int, AddrInfo>, v: View, id: int)
    requires Traced(read, v) && RandomIndex(v.mapInfo, v.vRandom) && id in v.mapInfo
    ensures Traced(read, Delete(e, v, id))
  {
    DeleteEffect(e, v, id);
    hide RandomIndex, Delete;
    var w := Delete(e, v, id);
    assert forall j :: j in w.mapInfo <==> j in v.mapInfo && j != id;
    forall j | j in w.mapInfo ensures j in read && read[j].service == w.mapInfo[j].service {
      assert j in v.mapInfo - {id};
    }
    forall j | j in read && read[j].service !in w.mapAddr ensures Gone(read, w.mapInfo, read[j].service) {
      if read[j].service == v.mapInfo[id].service {
        assert id in read && id !in w.mapInfo;
      } else {
        assert Gone(read, v.mapInfo, read[j].service);
      }
    }
  }

  /** Below n nothing without a reference is left. */
  ghost predicate PrunedBelow(m: map<int, AddrInfo>, n: int) {
    forall id :: id in m && id < n ==> m[id].fInTried || m[id].nRefCount > 0
  }

  lemma {:induction false} PruneTabled(e: Env, read: map<int, AddrInfo>, v: View, k: int, n: int)
    requires Tabled(e, v, n) && Loading(e, v) && Traced(read, v)
    ensures var w := Prune(e, v, k); Tabled(e, w, n) && Traced(read, w) && PrunedBelow(w.mapInfo, k) && w.nIdCount == v.nIdCount
    decreases if k < 0 then 0 else k
  {
    hide Tabled, Loading, Traced, Delete;
    if k <= 0 {
      NonePruned(e, v, k);
    } else {
      PruneTabled(e, read, v, k - 1, n);
      var u := Prune(e, v, k - 1);
      RefsNat(e, u, n);
      LoadingRandom(e, u);
      if k - 1 in u.mapInfo && !u.mapInfo[k - 1].fInTried && u.mapInfo[k - 1].nRefCount == 0 {
        DeleteTabled(e, u, k - 1, n);
        DeleteTraced(e, read, u, k - 1);
        DeleteEffect(e, u, k - 1);
        PrunedNext(u.mapInfo, Delete(e, u, k - 1).mapInfo, k);
      }
    }
  }

  lemma NonePruned(e: Env, v: View, k: int)
    requires Loading(e, v) && k <= 0
    ensures PrunedBelow(v.mapInfo, k)
  {
  }

  lemma RefsNat(e: Env, v: View, n: int)
    requires Tabled(e, v, n)
    ensures forall id :: id in v.mapInfo ==> v.mapInfo[id].nRefCount >= 0
  {
  }

  lemma PrunedNext(m: map<int, AddrInfo>, m': map<int, AddrInfo>, k: int)
    requires PrunedBelow(m, k - 1) && OnlyPositions(m - {k - 1}, m')
    ensures PrunedBelow(m', k)
  {
    forall id | id in m' && id < k ensures m'[id].fInTried || m'[id].nRefCount > 0 {
      assert id in m - {k - 1};
    }
  }

  // ----- the whole

  lemma LoadTabled(e: Env, d: Disk, asmap: int)
    requires e.Ok()
    ensures var v := Load(e, d, asmap);
      Tabled(e, v, |d.newInfos|) && Traced(Read(e, d).mapInfo, v) && PrunedBelow(v.mapInfo, v.nIdCount)
  {
    hide Tabled, Loading, Traced, LoadNew, LoadTried, LoadRefs, Prune, Known;
    var n := |d.newInfos|;
    var v2 := Read(e, d);
    var entries := Entries(d.buckets, n);
    EntriesInRange(d.buckets, n);
    EntriesBelow(d.buckets, n);
    var restore := |d.buckets| == e.newBuckets && d.asmap == asmap;
    var v3 := LoadRefs(e, v2, entries, |entries|, restore);
    ReadTabled(e, d);
    LoadRefsTabled(e, v2, entries, |entries|, restore, n);
    NoneGone(v2, v3);
    PruneTabled(e, v2.mapInfo, v3, v3.nIdCount, n);
  }

  lemma NoneGone(v: View, w: View)
    requires Known(v.mapInfo, v.mapAddr) && OnlyRefs(v, w)
    ensures Traced(v.mapInfo, w)
  {
  }

  predicate GoodTimes(i: AddrInfo) { i.lastSuccess >= 0 && (i.fInTried ==> i.lastSuccess != 0) }

  /** No other entry that was read has the address of an entry that is left. */
  ghost predicate Alone(read: map<int, AddrInfo>, m: map<int, AddrInfo>) {
    forall id, j :: id in m && j in read && j != id ==> read[j].service != m[id].service
  }

  /** With every counter and table right, the check looks at times and at the reverse index. */
  lemma TabledPasses(e: Env, v: View, n: int)
    requires Tabled(e, v, n) && PrunedBelow(v.mapInfo, v.nIdCount) && e.Ok()
    ensures CheckPasses(e, v) <==>
      forall id :: id in v.mapInfo ==> GoodTimes(v.mapInfo[id]) && v.mapInfo[id].service in v.mapAddr && v.mapAddr[v.mapInfo[id].service] == id
  {
    hide TriedTable, NewTable, RefCounts, NetCounts;
    RightCounters(e, v);
  }

  lemma RightCounters(e: Env, v: View)
    requires RandomIndex(v.mapInfo, v.vRandom) && Totals(e, v.mapInfo, {}, v.nNew, v.nTried, v.counts)
    ensures |v.vRandom| == v.nTried + v.nNew && CountersOk(e, v.mapInfo, v.counts) && Networks(e, v.mapInfo) <= v.counts.Keys
  {
    var m := v.mapInfo;
    SizeOf(m, v.vRandom);
    KeysSplit(m);
    RightCounts(e, m, v.counts);
  }

  lemma TracedAlone(read: map<int, AddrInfo>, v: View)
    requires Traced(read, v) && Backed(v.mapInfo, v.mapAddr)
    ensures Alone(read, v.mapInfo) <==> forall id :: id in v.mapInfo ==> v.mapInfo[id].service in v.mapAddr && v.mapAddr[v.mapInfo[id].service] == id
  {
    var m, a := v.mapInfo, v.mapAddr;
    if Alone(read, m) {
      forall id | id in m ensures m[id].service in a && a[m[id].service] == id {
        assert read[id].service !in a ==> Gone(read, m, read[id].service);
      }
    } else {
      var id, j :| id in m && j in read && j != id && read[j].service == m[id].service;
      if m[id].service in a && a[m[id].service] == id { assert j in m; }
    }
  }

  /**
   The final check accepts exactly the records whose remaining entries have possible times and an
   address that was read only once.
   */
  lemma LoadExact(e: Env, d: Disk, asmap: int)
    requires e.Ok()
    ensures var v := Load(e, d, asmap);
      CheckPasses(e, v) <==> (forall id :: id in v.mapInfo ==> GoodTimes(v.mapInfo[id])) && Alone(Read(e, d).mapInfo, v.mapInfo)
  {
    hide CheckPasses, Load, Read, Loading, Traced, PrunedBelow, Alone;
    var v := Load(e, d, asmap);
    LoadTabled(e, d, asmap);
    TabledPasses(e, v, |d.newInfos|);
    TracedAlone(Read(e, d).mapInfo, v);
  }

  /** What the check accepts after loading is consistent exactly when its addresses are routable. */
  lemma LoadedConsistent(e: Env, d: Disk, asmap: int)
    requires e.Ok() && CheckPasses(e, Load(e, d, asmap))
    ensures var v := Load(e, d, asmap);
      Consistent(e, v) <==> forall id :: id in v.mapInfo ==> e.isRoutable(v.mapInfo[id].service.ip)
  {
    hide CheckPasses, Load, Traced, PrunedBelow, TriedTable, NewTable, RefCounts, NetCounts;
    var v := Load(e, d, asmap);
    LoadTabled(e, d, asmap);
    RightCounters(e, v);
    CheckExact(e, v);
  }

  ghost predicate AllRoutable(e: Env, infos: seq<Stored>) {
    forall i :: 0 <= i < |infos| ==> e.isRoutable(infos[i].service.ip)
  }

  ghost predicate Routable(e: Env, m: map<int, AddrInfo>) {
    forall id :: id in m ==> e.isRoutable(m[id].service.ip)
  }

  lemma {:induction false} NewRoutable(e: Env, infos: seq<Stored>, n: nat)
    requires e.Ok() && n <= |infos| && AllRoutable(e, infos)
    ensures Routable(e, LoadNew(e, infos, n).mapInfo)
  {
    hide Loading;
    if n > 0 { NewRoutable(e, infos, n - 1); }
  }

  lemma {:induction false} TriedRoutable(e: Env, v: View, infos: seq<Stored>, n: nat)
    requires Loading(e, v) && n <= |infos| && AllRoutable(e, infos) && Routable(e, v.mapInfo)
    ensures Routable(e, LoadTried(e, v, infos, n).mapInfo)
  {
    hide Loading;
    if n > 0 { TriedRoutable(e, v, infos, n - 1); }
  }

  /** A record of routable addresses that is accepted gives a consistent manager. */
  lemma RoutableLoads(e: Env, d: Disk, asmap: int)
    requires e.Ok() && AllRoutable(e, d.newInfos) && AllRoutable(e, d.triedInfos) && CheckPasses(e, Load(e, d, asmap))
    ensures Consistent(e, Load(e, d, asmap))
  {
    hide CheckPasses, Load, Consistent, Loading, Tabled, PrunedBelow, LoadNew, LoadTried;
    LoadTabled(e, d, asmap);
    NewRoutable(e, d.newInfos, |d.newInfos|);
    TriedRoutable(e, LoadNew(e, d.newInfos, |d.newInfos|), d.triedInfos, |d.triedInfos|);
    LoadedConsistent(e, d, asmap);
  }

  // ----- loading under other buckets

  /** The slot an entry of the new table gets when its old buckets cannot be used. */
  ghost function Home(e: Env, m: map<int, AddrInfo>, id: int): Slot
    requires e.Ok() && id in m
  {
    NewSlot(e, m[id].service, m[id].source)
  }

  /** Entry i is a reference to a valid address whose home is slot k. */
  ghost predicate Claims(e: Env, m: map<int, AddrInfo>, entries: seq<(int, int)>, i: int, k: Slot)
    requires e.Ok()
  {
    0 <= i < |entries| && entries[i].1 in m && e.isValid(m[entries[i].1].service.ip) && Home(e, m, entries[i].1) == k
  }

  /** The id of the first of the first n entries that claims a slot, or -1. */
  ghost function FirstClaim(e: Env, m: map<int, AddrInfo>, entries: seq<(int, int)>, n: nat, k: Slot): int
    requires e.Ok() && n <= |entries|
  {
    if n == 0 then -1
    else if FirstClaim(e, m, entries, n - 1, k) != -1 then FirstClaim(e, m, entries, n - 1, k)
    else if Claims(e, m, entries, n - 1, k) then entries[n - 1].1 else -1
  }

  lemma {:induction false} FirstClaimMeans(e: Env, m: map<int, AddrInfo>, entries: seq<(int, int)>, n: nat, k: Slot)
    requires e.Ok() && n <= |entries| && -1 !in m
    ensures var id := FirstClaim(e, m, entries, n, k);
      if id == -1 then forall i :: 0 <= i < n ==> !Claims(e, m, entries, i, k)
      else exists i :: 0 <= i < n && Claims(e, m, entries, i, k) && entries[i].1 == id && forall j :: 0 <= j < i ==> !Claims(e, m, entries, j, k)
  {
    hide Claims;
    if n > 0 {
      FirstClaimMeans(e, m, entries, n - 1, k);
      ClaimsSomeone(e, m, entries, n - 1, k);
    }
  }

  lemma ClaimsSomeone(e: Env, m: map<int, AddrInfo>, entries: seq<(int, int)>, i: int, k: Slot)
    requires e.Ok() && -1 !in m
    ensures Claims(e, m, entries, i, k) ==> 0 <= i < |entries| && entries[i].1 != -1
  {
  }

  /** Each slot is with its first claimant, and an entry has one reference if it holds its home and none otherwise. */
  ghost predicate Rehomed(e: Env, m: map<int, AddrInfo>, entries: seq<(int, int)>, n: nat, w: View)
    requires e.Ok() && n <= |entries|
  {
    && (forall k :: k in w.vvNew ==> w.vvNew[k] == FirstClaim(e, m, entries, n, k))
    && (forall id :: id in m ==> Home(e, m, id) in w.vvNew)
    && w.mapInfo.Keys == m.Keys
    && (forall id :: id in m ==> w.mapInfo[id] == m[id].(nRefCount := if w.vvNew[Home(e, m, id)] == id then 1 else 0))
  }

  lemma RehomeOne(e: Env, m: map<int, AddrInfo>, entries: seq<(int, int)>, n: nat, w: View)
    requires e.Ok() && n < |entries| && -1 !in m && Loading(e, w) && Rehomed(e, m, entries, n, w)
    ensures Rehomed(e, m, entries, n + 1, LoadRef(e, w, entries[n].0, entries[n].1, false))
  {
    hide Loading, NewSlot;
    var id := entries[n].1;
    if id in m && e.isValid(m[id].service.ip) {
      var k := Home(e, m, id);
      if w.vvNew[k] == -1 {
        var r := LoadRef(e, w, entries[n].0, id, false);
        assert r == Link(w, id, k);
        forall j | j in m ensures r.mapInfo[j] == m[j].(nRefCount := if r.vvNew[Home(e, m, j)] == j then 1 else 0) { }
      }
    }
  }

  lemma {:induction false} RehomeAll(e: Env, v: View, entries: seq<(int, int)>, n: nat)
    requires e.Ok() && n <= |entries| && Loading(e, v) && -1 !in v.mapInfo
    requires (forall k :: k in v.vvNew ==> v.vvNew[k] == -1) && forall id :: id in v.mapInfo ==> v.mapInfo[id].nRefCount == 0
    ensures Rehomed(e, v.mapInfo, entries, n, LoadRefs(e, v, entries, n, false))
  {
    hide LoadRef, NewSlot, Loading, Rehomed;
    if n == 0 {
      RehomeNone(e, v, entries);
    } else {
      RehomeAll(e, v, entries, n - 1);
      RehomeOne(e, v.mapInfo, entries, n - 1, LoadRefs(e, v, entries, n - 1, false));
    }
  }

  lemma RehomeNone(e: Env, v: View, entries: seq<(int, int)>)
    requires e.Ok() && Loading(e, v) && -1 !in v.mapInfo
    requires (forall k :: k in v.vvNew ==> v.vvNew[k] == -1) && forall id :: id in v.mapInfo ==> v.mapInfo[id].nRefCount == 0
    ensures Rehomed(e, v.mapInfo, entries, 0, v)
  {
    HomesInRange(e, v);
    hide Loading, Home;
  }

  lemma HomesInRange(e: Env, v: View)
    requires Loading(e, v)
    ensures forall id :: id in v.mapInfo ==> Home(e, v.mapInfo, id) in v.vvNew
  {
    forall id | id in v.mapInfo ensures Home(e, v.mapInfo, id) in v.vvNew { NewSlotsInRange(e, v, v.mapInfo[id], 0); }
  }

  /** Dropping unreferenced entries leaves the table and every referenced entry. */
  lemma {:induction false} PruneLeaves(e: Env, v: View, k: int, id: int)
    requires Loading(e, v)
    ensures Prune(e, v, k).vvNew == v.vvNew
    ensures id in v.mapInfo && (v.mapInfo[id].fInTried || v.mapInfo[id].nRefCount != 0) ==> id in Prune(e, v, k).mapInfo
    ensures id in Prune(e, v, k).mapInfo ==>
      id in v.mapInfo && Prune(e, v, k).mapInfo[id] == v.mapInfo[id].(nRandomPos := Prune(e, v, k).mapInfo[id].nRandomPos)
    decreases if k < 0 then 0 else k
  {
    hide Loading, Prune, Delete;
    if k <= 0 {
      PruneNone(e, v, k);
    } else {
      PruneLeaves(e, v, k - 1, id);
      PruneNext(e, v, k - 1);
      var u := Prune(e, v, k - 1);
      if k - 1 in u.mapInfo { DeleteEffect(e, u, k - 1); }
    }
  }

  /** Before any reference is read the new table is empty and nothing is referenced. */
  lemma ReadUnreferenced(e: Env, d: Disk)
    requires e.Ok()
    ensures var v := Read(e, d);
      && -1 !in v.mapInfo && (forall k :: k in v.vvNew ==> v.vvNew[k] == -1)
      && (forall id :: id in v.mapInfo ==> v.mapInfo[id].nRefCount == 0)
      && (forall id :: 0 <= id < |d.newInfos| ==> id in v.mapInfo && !v.mapInfo[id].fInTried && Store(v.mapInfo[id]) == d.newInfos[id])
  {
    hide Loading;
    NewUnreferenced(e, d.newInfos, |d.newInfos|);
    TriedUnreferenced(e, d.newInfos, LoadNew(e, d.newInfos, |d.newInfos|), d.triedInfos, |d.triedInfos|);
  }

  ghost predicate Fresh(infos: seq<Stored>, n: nat, v: View)
    requires n <= |infos|
  {
    && v.nIdCount >= n && (forall id :: id in v.mapInfo ==> 0 <= id < v.nIdCount && v.mapInfo[id].nRefCount == 0)
    && (forall k :: k in v.vvNew ==> v.vvNew[k] == -1)
    && (forall id :: 0 <= id < n ==> id in v.mapInfo && !v.mapInfo[id].fInTried && Store(v.mapInfo[id]) == infos[id])
  }

  lemma EnterFresh(e: Env, infos: seq<Stored>, n: nat, v: View, s: Stored, tried: bool)
    requires e.Ok() && n <= |infos| && Fresh(infos, n, v)
    ensures Fresh(infos, n, Enter(e, v, s, tried))
    ensures n < |infos| && v.nIdCount == n && s == infos[n] && !tried ==> Fresh(infos, n + 1, Enter(e, v, s, tried))
  {
    hide Bump, TriedSlot;
  }

  lemma {:induction false} NewUnreferenced(e: Env, infos: seq<Stored>, n: nat)
    requires e.Ok() && n <= |infos|
    ensures Fresh(infos, n, LoadNew(e, infos, n)) && LoadNew(e, infos, n).nIdCount == n
  {
    hide Loading;
    if n > 0 {
      NewUnreferenced(e, infos, n - 1);
      hide Fresh;
      EnterFresh(e, infos, n - 1, LoadNew(e, infos, n - 1), infos[n - 1], false);
    }
  }

  lemma {:induction false} TriedUnreferenced(e: Env, news: seq<Stored>, v: View, infos: seq<Stored>, n: nat)
    requires Loading(e, v) && e.Ok() && n <= |infos| && Fresh(news, |news|, v)
    ensures Fresh(news, |news|, LoadTried(e, v, infos, n))
  {
    hide Loading, Fresh, Enter;
    if n > 0 {
      TriedUnreferenced(e, news, v, infos, n - 1);
      EnterFresh(e, news, |news|, LoadTried(e, v, infos, n - 1), infos[n - 1], true);
    }
  }

  /**
   Under other buckets or another asmap an entry of the new table survives exactly when its address
   is valid and the first reference on disk to a valid entry with its home slot is one to it; it
   then has one reference, from its home slot.
   */
  lemma RebucketedExactly(e: Env, d: Disk, asmap: int, id: int)
    requires e.Ok() && 0 <= id < |d.newInfos| && (|d.buckets| != e.newBuckets || d.asmap != asmap)
    ensures var w := Load(e, d, asmap); var m := Read(e, d).mapInfo; var entries := Entries(d.buckets, |d.newInfos|);
      && id in m && Store(m[id]) == d.newInfos[id]
      && var k := Home(e, m, id);
      && k in w.vvNew && w.vvNew[k] == FirstClaim(e, m, entries, |entries|, k)
      && (id in w.mapInfo <==> w.vvNew[k] == id)
      && (id in w.mapInfo ==> w.mapInfo[id].nRefCount == 1 && Store(w.mapInfo[id]) == d.newInfos[id])
  {
    hide Loading, Read, LoadRefs, Prune, Entries, Home, FirstClaim, Rehomed, Load, Tabled, Traced, PrunedBelow;
    var v2, entries := Read(e, d), Entries(d.buckets, |d.newInfos|);
    ReadUnreferenced(e, d);
    EntriesInRange(d.buckets, |d.newInfos|);
    RehomeAll(e, v2, entries, |entries|);
    var v3 := LoadRefs(e, v2, entries, |entries|, false);
    RehomedAt(e, v2.mapInfo, entries, v3, id);
    LoadParts(e, d, asmap);
    PruneLeaves(e, v3, v3.nIdCount, id);
    LoadTabled(e, d, asmap);
    ReferencedIfLeft(e, Load(e, d, asmap), id);
    LeftAsRead(v2.mapInfo, v3, Load(e, d, asmap), id, v3.vvNew[Home(e, v2.mapInfo, id)] == id);
  }

  lemma LoadParts(e: Env, d: Disk, asmap: int)
    requires e.Ok() && (|d.buckets| != e.newBuckets || d.asmap != asmap)
    ensures var entries := Entries(d.buckets, |d.newInfos|); var v3 := LoadRefs(e, Read(e, d), entries, |entries|, false);
      Load(e, d, asmap) == Prune(e, v3, v3.nIdCount)
  {
    hide Loading, LoadNew, LoadTried, LoadRefs, Prune, Entries;
  }

  lemma RehomedAt(e: Env, m: map<int, AddrInfo>, entries: seq<(int, int)>, w: View, id: int)
    requires e.Ok() && Rehomed(e, m, entries, |entries|, w) && id in m
    ensures var k := Home(e, m, id);
      && k in w.vvNew && w.vvNew[k] == FirstClaim(e, m, entries, |entries|, k)
      && id in w.mapInfo && w.mapInfo[id] == m[id].(nRefCount := if w.vvNew[k] == id then 1 else 0)
  {
    hide Home, FirstClaim;
  }

  lemma ReferencedIfLeft(e: Env, v: View, id: int)
    requires Loading(e, v) && PrunedBelow(v.mapInfo, v.nIdCount)
    ensures id in v.mapInfo ==> v.mapInfo[id].fInTried || v.mapInfo[id].nRefCount > 0
  {
    StillBelow(e, v, id);
  }

  lemma LeftAsRead(m: map<int, AddrInfo>, v: View, w: View, id: int, held: bool)
    requires id in m && !m[id].fInTried && id in v.mapInfo && v.mapInfo[id] == m[id].(nRefCount := if held then 1 else 0)
    requires v.mapInfo[id].nRefCount != 0 ==> id in w.mapInfo
    requires id in w.mapInfo ==> w.mapInfo[id] == v.mapInfo[id].(nRandomPos := w.mapInfo[id].nRandomPos)
    requires id in w.mapInfo ==> w.mapInfo[id].fInTried || w.mapInfo[id].nRefCount > 0
    ensures id in w.mapInfo <==> held
    ensures id in w.mapInfo ==> w.mapInfo[id].nRefCount == 1 && Store(w.mapInfo[id]) == Store(m[id])
  {
  }

  lemma StillBelow(e: Env, v: View, id: int)
    requires Loading(e, v)
    ensures id in v.mapInfo ==> id < v.nIdCount
  {
  }
}
