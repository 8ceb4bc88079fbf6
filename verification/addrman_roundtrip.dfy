/**
 A consistent address manager that is saved and loaded again is the same one, up to the names of
 its ids.
 */
module AddrManRoundTrip {
  import opened AddrManState
  import opened AddrManRuns
  import opened AddrManDisk
  import Check = AddrManCheck

  // ----- the lists that are written

  lemma {:induction false} ChosenHas(m: map<int, AddrInfo>, order: seq<int>, tried: bool, id: int)
    requires (forall i :: 0 <= i < |order| ==> order[i] in m) && id in order && GoesTo(m[id], tried)
    ensures id in Chosen(m, order, tried)
  {
    var n := |order| - 1;
    assert order[..n] + [order[n]] == order;
    if id != order[n] { ChosenHas(m, order[..n], tried, id); }
  }

  lemma {:induction false} ChosenOnce(m: map<int, AddrInfo>, order: seq<int>, tried: bool)
    requires (forall i :: 0 <= i < |order| ==> order[i] in m) && forall i, j :: 0 <= i < j < |order| ==> order[i] != order[j]
    ensures forall i, j :: 0 <= i < j < |Chosen(m, order, tried)| ==> Chosen(m, order, tried)[i] != Chosen(m, order, tried)[j]
  {
    if order != [] {
      var n := |order| - 1;
      ChosenOnce(m, order[..n], tried);
      var c := Chosen(m, order[..n], tried);
      forall i | 0 <= i < |c| ensures c[i] != order[n] { assert c[i] in order[..n]; }
    }
  }

  /** The number written for an entry is its place among the entries written. */
  lemma {:induction false} NumberOf(m: map<int, AddrInfo>, order: seq<int>, i: nat)
    requires (forall k :: 0 <= k < |order| ==> order[k] in m) && (forall k, l :: 0 <= k < l < |order| ==> order[k] != order[l])
    requires i < |Chosen(m, order, false)|
    ensures Chosen(m, order, false)[i] in Numbers(m, order) && Numbers(m, order)[Chosen(m, order, false)[i]] == i
  {
    var n := |order| - 1;
    assert order[..n] + [order[n]] == order;
    var c := Chosen(m, order[..n], false);
    if i < |c| {
      NumberOf(m, order[..n], i);
      assert c[i] in order[..n] && c[i] != order[n];
    }
  }

  /** Everything the stages need to know about the state that was saved. */
  ghost predicate Saved(e: Env, v: View, news: seq<int>, tried: seq<int>) {
    && e.Ok() && Inv(e, v, {}, {})
    && (forall i :: 0 <= i < |news| ==> news[i] in v.mapInfo && !v.mapInfo[news[i]].fInTried)
    && (forall i :: 0 <= i < |tried| ==> tried[i] in v.mapInfo && v.mapInfo[tried[i]].fInTried)
    && (forall i, j :: 0 <= i < j < |news| ==> news[i] != news[j])
    && (forall i, j :: 0 <= i < j < |tried| ==> tried[i] != tried[j])
    && (forall id :: id in v.mapInfo && !v.mapInfo[id].fInTried ==> id in news)
    && (forall id :: id in v.mapInfo && v.mapInfo[id].fInTried ==> id in tried)
  }

  lemma SavedLists(e: Env, v: View, order: seq<int>)
    requires Inv(e, v, {}, {}) && Lists(order, v.mapInfo)
    ensures Saved(e, v, Chosen(v.mapInfo, order, false), Chosen(v.mapInfo, order, true))
  {
    hide Inv, Chosen;
    var m := v.mapInfo;
    ChosenOnce(m, order, false);
    ChosenOnce(m, order, true);
    NewOrTried(e, v);
    forall id | id in m && !m[id].fInTried ensures id in Chosen(m, order, false) { ChosenHas(m, order, false, id); }
    forall id | id in m && m[id].fInTried ensures id in Chosen(m, order, true) { ChosenHas(m, order, true, id); }
  }

  /** Entries with references are exactly the ones that are not tried. */
  lemma NewOrTried(e: Env, v: View)
    requires Inv(e, v, {}, {})
    ensures e.Ok() && forall id :: id in v.mapInfo ==> (v.mapInfo[id].nRefCount != 0 <==> !v.mapInfo[id].fInTried)
  {
    hide Indexes, TriedTable, NewTable, RefCounts, Totals, Stamps;
  }

  lemma Services(e: Env, v: View, id: int, id2: int)
    requires Inv(e, v, {}, {}) && id in v.mapInfo && id2 in v.mapInfo && v.mapInfo[id].service == v.mapInfo[id2].service
    ensures id == id2
  {
    hide TriedTable, NewTable, RefCounts, Totals, Stamps, RefStates, RandomIndex;
  }

  lemma Facts(e: Env, v: View, id: int)
    requires Inv(e, v, {}, {}) && id in v.mapInfo
    ensures e.isRoutable(v.mapInfo[id].service.ip) && e.isValid(v.mapInfo[id].service.ip) && v.mapInfo[id].lastSuccess >= 0
    ensures v.mapInfo[id].fInTried ==> v.mapInfo[id].lastSuccess > 0
  {
    hide TriedTable, NewTable, RefCounts, Totals, RefStates, RandomIndex, AddrIndex;
  }

  // ----- stage one: the entries of the new table

  /** The first n entries are in, under their numbers. */
  ghost predicate HasNew(v: View, news: seq<int>, n: nat, u: View)
    requires n <= |news| && forall i :: 0 <= i < |news| ==> news[i] in v.mapInfo
  {
    && u.nIdCount >= n && |u.vRandom| == u.nIdCount
    && (forall id :: id in u.mapInfo <==> 0 <= id < u.nIdCount)
    && (forall i :: 0 <= i < n ==> u.mapInfo[i] == Restored(Store(v.mapInfo[news[i]]), i, false))
  }

  /** A service that was saved is not there twice. */
  lemma NotYet(e: Env, v: View, news: seq<int>, n: nat, u: View)
    requires Inv(e, v, {}, {}) && n < |news| && (forall i :: 0 <= i < |news| ==> news[i] in v.mapInfo)
    requires (forall i, j :: 0 <= i < j < |news| ==> news[i] != news[j]) && HasNew(v, news, n, u) && u.nIdCount == n
    requires AddrIndex(u.mapInfo, u.mapAddr)
    ensures v.mapInfo[news[n]].service !in u.mapAddr
  {
    hide Inv;
    var s := v.mapInfo[news[n]].service;
    if s in u.mapAddr {
      var i := u.mapAddr[s];
      Services(e, v, news[i], news[n]);
    }
  }

  lemma {:induction false} StageNew(e: Env, v: View, news: seq<int>, tried: seq<int>, n: nat)
    requires Saved(e, v, news, tried) && n <= |news|
    ensures var u := LoadNew(e, StoreAll(v.mapInfo, news), n);
      && Inv(e, u, Check.Range(n), {}) && HasNew(v, news, n, u) && u.nIdCount == n
      && u.vvNew == Empty(e).vvNew && u.collisions == {}
  {
    hide Inv, HasNew, Loading, TriedSlot, Bump;
    if n == 0 {
      StageEmpty(e, v, news);
    } else {
      StageNew(e, v, news, tried, n - 1);
      var u := LoadNew(e, StoreAll(v.mapInfo, news), n - 1);
      StageNewStep(e, v, news, tried, n - 1, u);
    }
  }

  lemma StageEmpty(e: Env, v: View, news: seq<int>)
    requires e.Ok() && forall i :: 0 <= i < |news| ==> news[i] in v.mapInfo
    ensures Inv(e, Empty(e), {}, {}) && HasNew(v, news, 0, Empty(e))
  {
    hide Inv;
    EmptyConsistent(e);
  }

  lemma StageNewStep(e: Env, v: View, news: seq<int>, tried: seq<int>, n: nat, u: View)
    requires Saved(e, v, news, tried) && n < |news| && Inv(e, u, Check.Range(n), {}) && HasNew(v, news, n, u) && u.nIdCount == n
    ensures var w := Enter(e, u, Store(v.mapInfo[news[n]]), false);
      Inv(e, w, Check.Range(n + 1), {}) && HasNew(v, news, n + 1, w) && w.nIdCount == n + 1
  {
    hide Inv;
    var s := Store(v.mapInfo[news[n]]);
    IndexOf(e, u, Check.Range(n), {});
    NotYet(e, v, news, n, u);
    Facts(e, v, news[n]);
    EnterKeeps(e, u, s, false, Check.Range(n));
    assert Check.Range(n + 1) == Check.Range(n) + {n};
  }

  lemma IndexOf(e: Env, u: View, pending: set<int>, limbo: set<int>)
    requires Inv(e, u, pending, limbo)
    ensures AddrIndex(u.mapInfo, u.mapAddr) && e.Ok() && GridShape(u.vvTried, e.triedBuckets, e.bucketSize)
    ensures GridShape(u.vvNew, e.newBuckets, e.bucketSize)
  {
    hide RefCounts, Totals, RefStates, RandomIndex, Stamps;
  }

  // ----- stage two: the tried entries

  ghost predicate HasTried(v: View, news: seq<int>, tried: seq<int>, n: nat, u: View)
    requires n <= |tried| && (forall i :: 0 <= i < |news| ==> news[i] in v.mapInfo) && forall i :: 0 <= i < |tried| ==> tried[i] in v.mapInfo
  {
    && HasNew(v, news, |news|, u) && u.nIdCount == |news| + n
    && forall t :: 0 <= t < n ==> u.mapInfo[|news| + t] == Restored(Store(v.mapInfo[tried[t]]), |news| + t, true)
  }

  lemma NotYetTried(e: Env, v: View, news: seq<int>, tried: seq<int>, n: nat, u: View)
    requires Saved(e, v, news, tried) && n < |tried| && HasTried(v, news, tried, n, u) && AddrIndex(u.mapInfo, u.mapAddr)
    ensures v.mapInfo[tried[n]].service !in u.mapAddr
  {
    hide Inv;
    var s := v.mapInfo[tried[n]].service;
    if s in u.mapAddr {
      var i := u.mapAddr[s];
      if i < |news| {
        Services(e, v, news[i], tried[n]);
      } else {
        var t := i - |news|;
        assert u.mapInfo[|news| + t].service == v.mapInfo[tried[t]].service;
        Services(e, v, tried[t], tried[n]);
      }
    }
  }

  /** Tried entries had slots of their own, so none is lost. */
  lemma SlotFree(e: Env, v: View, news: seq<int>, tried: seq<int>, n: nat, u: View)
    requires Saved(e, v, news, tried) && n < |tried| && HasTried(v, news, tried, n, u) && TriedTable(e, u.mapInfo, u.vvTried)
    ensures TriedSlot(e, v.mapInfo[tried[n]].service) in u.vvTried && u.vvTried[TriedSlot(e, v.mapInfo[tried[n]].service)] == -1
  {
    hide Inv, TriedSlot, NewTable, RefCounts, RefStates, AddrIndex;
    TriedSlotInRange(e, v.mapInfo[tried[n]].service);
    TablesOf(e, v, {});
    var k := TriedSlot(e, v.mapInfo[tried[n]].service);
    forall id | id in u.mapInfo && u.mapInfo[id].fInTried ensures TriedSlot(e, u.mapInfo[id].service) != k {
      var t := id - |news|;
      assert u.mapInfo[|news| + t].service == v.mapInfo[tried[t]].service;
      assert v.vvTried[TriedSlot(e, v.mapInfo[tried[t]].service)] == tried[t];
    }
  }

  lemma TablesOf(e: Env, v: View, pending: set<int>)
    requires Inv(e, v, pending, {})
    ensures e.Ok() && TriedTable(e, v.mapInfo, v.vvTried) && NewTable(e, v.mapInfo, v.vvNew) && RefCounts(e, v.mapInfo, v.vvNew)
    ensures -1 !in v.mapInfo && AddrIndex(v.mapInfo, v.mapAddr) && RefStates(v.mapInfo, pending)
  {
    hide Totals, RandomIndex, Stamps;
    var none: set<int> := {};
    assert pending + none == pending;
  }

  lemma StageTriedStep(e: Env, v: View, news: seq<int>, tried: seq<int>, n: nat, u: View)
    requires Saved(e, v, news, tried) && n < |tried| && HasTried(v, news, tried, n, u)
    requires Inv(e, u, Check.Range(|news|), {}) && Loading(e, u)
    ensures var w := LoadTriedOne(e, u, Store(v.mapInfo[tried[n]]));
      && Inv(e, w, Check.Range(|news|), {}) && HasTried(v, news, tried, n + 1, w)
      && w.vvNew == u.vvNew && w.collisions == u.collisions
  {
    hide Inv, TriedSlot, TriedTable, NewTable, RefCounts, AddrIndex, RefStates, Loading;
    var s := Store(v.mapInfo[tried[n]]);
    TablesOf(e, u, Check.Range(|news|));
    NotYetTried(e, v, news, tried, n, u);
    SlotFree(e, v, news, tried, n, u);
    Facts(e, v, tried[n]);
    EnterKeeps(e, u, s, true, Check.Range(|news|));
    hide Restored, Saved;
    OneMoreTried(e, v, news, tried, n, u);
    hide HasTried, Enter;
  }

  lemma OneMoreTried(e: Env, v: View, news: seq<int>, tried: seq<int>, n: nat, u: View)
    requires (forall i :: 0 <= i < |news| ==> news[i] in v.mapInfo) && (forall i :: 0 <= i < |tried| ==> tried[i] in v.mapInfo)
    requires e.Ok() && n < |tried| && HasTried(v, news, tried, n, u)
    ensures HasTried(v, news, tried, n + 1, Enter(e, u, Store(v.mapInfo[tried[n]]), true))
  {
    hide Bump, TriedSlot;
  }

  lemma {:induction false} StageTried(e: Env, v: View, news: seq<int>, tried: seq<int>, n: nat, u: View)
    requires Saved(e, v, news, tried) && n <= |tried| && HasTried(v, news, tried, 0, u)
    requires Inv(e, u, Check.Range(|news|), {}) && Loading(e, u)
    ensures var w := LoadTried(e, u, StoreAll(v.mapInfo, tried), n);
      && Inv(e, w, Check.Range(|news|), {}) && HasTried(v, news, tried, n, w)
      && w.vvNew == u.vvNew && w.collisions == u.collisions
  {
    hide Inv, HasTried, Loading, LoadTriedOne;
    if n > 0 {
      StageTried(e, v, news, tried, n - 1, u);
      StageTriedStep(e, v, news, tried, n - 1, LoadTried(e, u, StoreAll(v.mapInfo, tried), n - 1));
    }
  }

  // ----- stage three: the references

  lemma {:induction false} BucketAre(t: Grid, unk: map<int, int>, b: int, slots: seq<Slot>, limit: int)
    requires forall i :: 0 <= i < |slots| ==> slots[i] in t && t[slots[i]] in unk && slots[i].0 == b && 0 <= unk[t[slots[i]]] < limit
    ensures |InBucket(b, NumbersAt(t, unk, slots), limit)| == |slots|
    ensures forall i :: 0 <= i < |slots| ==> InBucket(b, NumbersAt(t, unk, slots), limit)[i] == (b, unk[t[slots[i]]])
  {
    if slots != [] {
      var n := |slots| - 1;
      BucketAre(t, unk, b, slots[..n], limit);
      assert NumbersAt(t, unk, slots)[..n] == NumbersAt(t, unk, slots[..n]);
    }
  }

  /** Every id in the table has a number in range. */
  ghost predicate Numbered(t: Grid, unk: map<int, int>, limit: int) {
    forall k :: k in t && t[k] != -1 ==> t[k] in unk && 0 <= unk[t[k]] < limit
  }

  function Bucket(t: Grid, unk: map<int, int>, b: int, size: nat, limit: int): seq<int>
    requires Numbered(t, unk, limit) && forall p :: 0 <= p < size ==> (b, p) in t
  {
    NumbersAt(t, unk, Filled(t, b, size))
  }

  /** What is read back from the buckets are the filled slots, in order, with the numbers of their entries. */
  lemma {:induction false} EntriesAre(t: Grid, unk: map<int, int>, buckets: seq<seq<int>>, size: nat, limit: int)
    requires Numbered(t, unk, limit) && forall b, p :: 0 <= b < |buckets| && 0 <= p < size ==> (b, p) in t
    requires forall b :: 0 <= b < |buckets| ==> buckets[b] == Bucket(t, unk, b, size, limit)
    ensures var slots := AllFilled(t, |buckets|, size);
      && |Entries(buckets, limit)| == |slots|
      && forall i :: 0 <= i < |slots| ==> Entries(buckets, limit)[i] == (slots[i].0, unk[t[slots[i]]])
  {
    hide InBucket, NumbersAt;
    if buckets != [] {
      var n := |buckets| - 1;
      EntriesAre(t, unk, buckets[..n], size, limit);
      BucketAre(t, unk, n, Filled(t, n, size), limit);
    }
  }

  /** Entries that wait for a reference. */
  ghost function Pending(u: View): set<int> {
    set id | id in u.mapInfo && !u.mapInfo[id].fInTried && u.mapInfo[id].nRefCount == 0
  }

  lemma PendingIs(e: Env, u: View, pending: set<int>)
    requires Inv(e, u, pending, {})
    ensures pending == Pending(u)
  {
    hide Indexes, TriedTable, NewTable, RefCounts, Totals, Stamps;
    var none: set<int> := {};
    assert pending + none == pending;
    forall id ensures id in pending <==> id in Pending(u) { }
  }

  /** As loaded, but with references for the first n slots of the list. */
  ghost predicate HasRefs(v: View, unk: map<int, int>, slots: seq<Slot>, n: nat, base: View, u: View)
    requires n <= |slots|
  {
    && u == base.(mapInfo := u.mapInfo, vvNew := u.vvNew)
    && u.mapInfo.Keys == base.mapInfo.Keys && u.vvNew.Keys == v.vvNew.Keys
    && (forall id :: id in u.mapInfo ==> u.mapInfo[id] == base.mapInfo[id].(nRefCount := u.mapInfo[id].nRefCount))
    && (forall k :: k in v.vvNew ==> u.vvNew[k] == if v.vvNew[k] != -1 && v.vvNew[k] in unk && k in slots[..n] then unk[v.vvNew[k]] else -1)
  }

  ghost predicate NumberedBy(news: seq<int>, unk: map<int, int>) {
    forall i :: 0 <= i < |news| ==> news[i] in unk && unk[news[i]] == i
  }

  /** The slots to be filled: distinct filled slots of the saved table. */
  ghost predicate SlotList(v: View, slots: seq<Slot>) {
    && (forall j :: 0 <= j < |slots| ==> slots[j] in v.vvNew && v.vvNew[slots[j]] != -1)
    && (forall j, l :: 0 <= j < l < |slots| ==> slots[j] != slots[l])
  }

  /** Before its last reference is back, an entry has fewer references than it had. */
  lemma RoomForOne(e: Env, v: View, unk: map<int, int>, news: seq<int>, tried: seq<int>, slots: seq<Slot>, n: nat, base: View, u: View, i: nat)
    requires Saved(e, v, news, tried) && NumberedBy(news, unk) && SlotList(v, slots)
    requires Inv(e, u, Pending(u), {}) && n < |slots| && HasRefs(v, unk, slots, n, base, u)
    requires i < |news| && v.vvNew[slots[n]] == news[i] && i in u.mapInfo && u.mapInfo[i].service == v.mapInfo[news[i]].service
    ensures u.mapInfo[i].nRefCount < NEW_BUCKETS_PER_ADDRESS && u.vvNew[slots[n]] == -1
    ensures NewPos(e, u.mapInfo[i].service, slots[n].0) == slots[n].1 && 0 <= slots[n].0 < e.newBuckets
  {
    hide Inv, NewPos;
    TablesOf(e, v, {});
    TablesOf(e, u, Pending(u));
    var k, s := slots[n], u.mapInfo[i].service;
    assert k !in slots[..n];
    var refs, was := Refs(e, u.vvNew, s, i), Refs(e, v.vvNew, s, news[i]);
    assert k == (k.0, NewPos(e, s, k.0));
    assert k.0 in was && k.0 !in refs;
    forall b | b in refs ensures b in was { SameEntry(e, v, unk, news, tried, slots, n, base, u, i, (b, NewPos(e, s, b))); }
    Smaller(refs, was, k.0);
  }

  /** A number in the new table stands for the entry that was there. */
  lemma SameEntry(e: Env, v: View, unk: map<int, int>, news: seq<int>, tried: seq<int>, slots: seq<Slot>, n: nat, base: View, u: View, i: nat, k: Slot)
    requires Saved(e, v, news, tried) && NumberedBy(news, unk) && n <= |slots| && HasRefs(v, unk, slots, n, base, u)
    requires i < |news| && k in u.vvNew && u.vvNew[k] == i
    ensures k in v.vvNew && v.vvNew[k] == news[i]
  {
    hide Inv;
    TablesOf(e, v, {});
    var id := v.vvNew[k];
    assert id in news;
  }

  lemma Smaller(a: set<int>, b: set<int>, x: int)
    requires a <= b && x in b && x !in a
    ensures |a| < |b|
  {
    assert b == a + (b - a) && x in b - a;
  }

  lemma EntryOf(e: Env, v: View, news: seq<int>, tried: seq<int>, unk: map<int, int>, slots: seq<Slot>, n: nat)
    requires Saved(e, v, news, tried) && NumberedBy(news, unk) && SlotList(v, slots) && n < |slots|
    ensures var id := v.vvNew[slots[n]]; id in unk && 0 <= unk[id] < |news| && news[unk[id]] == id
  {
    hide Inv;
    TablesOf(e, v, {});
    assert v.vvNew[slots[n]] in news;
  }

  lemma StageRefsStep(e: Env, v: View, news: seq<int>, tried: seq<int>, unk: map<int, int>, slots: seq<Slot>, n: nat, base: View, u: View)
    requires Saved(e, v, news, tried) && NumberedBy(news, unk) && SlotList(v, slots) && n < |slots|
    requires HasTried(v, news, tried, |tried|, base) && HasRefs(v, unk, slots, n, base, u)
    requires Inv(e, u, Pending(u), {}) && Loading(e, u) && v.vvNew[slots[n]] in unk && 0 <= slots[n].0 < e.newBuckets
    ensures var w := LoadRef(e, u, slots[n].0, unk[v.vvNew[slots[n]]], true);
      Inv(e, w, Pending(w), {}) && HasRefs(v, unk, slots, n + 1, base, w)
  {
    hide Inv, NewPos, Loading, NewSlot;
    var k, i := slots[n], unk[v.vvNew[slots[n]]];
    EntryOf(e, v, news, tried, unk, slots, n);
    RoomForOne(e, v, unk, news, tried, slots, n, base, u, i);
    Facts(e, v, news[i]);
    assert k == (k.0, k.1);
    var w := Link(u, i, k);
    LinkKeeps(e, u, i, k, Pending(u), {});
    PendingIs(e, w, Pending(u) - {i});
    LinkRefs(v, unk, slots, n, base, u, i);
  }

  lemma LinkRefs(v: View, unk: map<int, int>, slots: seq<Slot>, n: nat, base: View, u: View, i: int)
    requires n < |slots| && HasRefs(v, unk, slots, n, base, u) && SlotList(v, slots) && i in u.mapInfo
    requires v.vvNew[slots[n]] in unk && unk[v.vvNew[slots[n]]] == i
    ensures HasRefs(v, unk, slots, n + 1, base, Link(u, i, slots[n]))
  {
    var w := Link(u, i, slots[n]);
    assert slots[..n + 1] == slots[..n] + [slots[n]];
    assert w.vvNew.Keys == u.vvNew.Keys && w.mapInfo.Keys == u.mapInfo.Keys;
  }

  lemma {:induction false} StageRefs(e: Env, v: View, news: seq<int>, tried: seq<int>, unk: map<int, int>, slots: seq<Slot>,
                                     entries: seq<(int, int)>, n: nat, base: View)
    requires Saved(e, v, news, tried) && NumberedBy(news, unk) && SlotList(v, slots) && n <= |slots| == |entries|
    requires HasTried(v, news, tried, |tried|, base) && HasRefs(v, unk, slots, 0, base, base)
    requires e.Ok() && Inv(e, base, Pending(base), {}) && Loading(e, base)
    requires forall i :: 0 <= i < |slots| ==> v.vvNew[slots[i]] in unk && entries[i] == (slots[i].0, unk[v.vvNew[slots[i]]])
    requires forall i :: 0 <= i < |entries| ==> 0 <= entries[i].0 < e.newBuckets
    ensures var w := LoadRefs(e, base, entries, n, true); Inv(e, w, Pending(w), {}) && HasRefs(v, unk, slots, n, base, w)
  {
    hide Inv, HasTried, HasRefs, Loading, LoadRef, Saved, SlotList, NumberedBy;
    if n > 0 {
      StageRefs(e, v, news, tried, unk, slots, entries, n - 1, base);
      StageRefsStep(e, v, news, tried, unk, slots, n - 1, base, LoadRefs(e, base, entries, n - 1, true));
    }
  }

  // ----- the whole

  ghost function PosIn(s: seq<int>, id: int): (i: nat)
    requires id in s
    ensures i < |s| && s[i] == id
  {
    var i :| 0 <= i < |s| && s[i] == id;
    i
  }

  /** The id an entry has after loading. */
  ghost function NewName(v: View, news: seq<int>, tried: seq<int>, id: int): int
    requires id in v.mapInfo && (if v.mapInfo[id].fInTried then id in tried else id in news)
  {
    if v.mapInfo[id].fInTried then |news| + PosIn(tried, id) else PosIn(news, id)
  }

  ghost function Names(e: Env, v: View, news: seq<int>, tried: seq<int>): (r: map<int, int>)
    requires Saved(e, v, news, tried)
  {
    hide Inv;
    map id | id in v.mapInfo :: NewName(v, news, tried, id)
  }

  /** Two states that differ only in the names of their ids and in what is not written to disk. */
  ghost predicate Renamed(v: View, w: View, r: map<int, int>) {
    && r.Keys == v.mapInfo.Keys && -1 !in r
    && (forall x, y :: x in r && y in r && r[x] == r[y] ==> x == y)
    && (forall id :: id in w.mapInfo ==> exists x :: x in r && r[x] == id)
    && (forall id :: id in r ==> r[id] in w.mapInfo && SameEntryAs(v.mapInfo[id], w.mapInfo[r[id]]))
    && SameTable(v.vvNew, w.vvNew, r) && SameTable(v.vvTried, w.vvTried, r)
    && w.nNew == v.nNew && w.nTried == v.nTried
    && forall net :: CountOf(w.counts, net) == CountOf(v.counts, net)
  }

  ghost predicate SameEntryAs(i: AddrInfo, j: AddrInfo) {
    Store(i) == Store(j) && i.nRefCount == j.nRefCount && i.fInTried == j.fInTried
  }

  ghost predicate SameTable(t: Grid, u: Grid, r: map<int, int>) {
    && t.Keys == u.Keys
    && forall k :: k in t ==> if t[k] == -1 then u[k] == -1 else t[k] in r && u[k] == r[t[k]]
  }

  lemma NamesMean(e: Env, v: View, news: seq<int>, tried: seq<int>, id: int, i: nat)
    requires Saved(e, v, news, tried) && id in v.mapInfo
    ensures i < |news| && news[i] == id ==> Names(e, v, news, tried)[id] == i
    ensures i < |tried| && tried[i] == id ==> Names(e, v, news, tried)[id] == |news| + i
  {
    hide Inv;
  }

  /** With all slots filled again, every entry has its references back. */
  lemma RefsBack(e: Env, v: View, unk: map<int, int>, news: seq<int>, tried: seq<int>, slots: seq<Slot>, base: View, u: View, i: nat)
    requires Saved(e, v, news, tried) && NumberedBy(news, unk) && SlotList(v, slots) && HasTried(v, news, tried, |tried|, base)
    requires Inv(e, u, Pending(u), {}) && HasRefs(v, unk, slots, |slots|, base, u)
    requires (forall k :: k in v.vvNew && v.vvNew[k] != -1 ==> k in slots) && i < |news|
    ensures i in u.mapInfo && u.mapInfo[i].nRefCount == v.mapInfo[news[i]].nRefCount
  {
    hide Inv, NewPos, SlotList, TriedTable, AddrIndex, RefStates;
    TablesOf(e, v, {});
    TablesOf(e, u, Pending(u));
    assert slots[..|slots|] == slots;
    var s := v.mapInfo[news[i]].service;
    assert u.mapInfo[i].service == s;
    var a, b := Refs(e, u.vvNew, s, i), Refs(e, v.vvNew, s, news[i]);
    forall x | x in a ensures x in b { SameEntry(e, v, unk, news, tried, slots, |slots|, base, u, i, (x, NewPos(e, s, x))); }
    forall x | x in b ensures x in a { assert v.vvNew[(x, NewPos(e, s, x))] == news[i]; }
    assert a == b;
  }

  lemma NothingPending(e: Env, v: View, unk: map<int, int>, news: seq<int>, tried: seq<int>, slots: seq<Slot>, base: View, u: View)
    requires Saved(e, v, news, tried) && NumberedBy(news, unk) && SlotList(v, slots) && HasTried(v, news, tried, |tried|, base)
    requires Inv(e, u, Pending(u), {}) && HasRefs(v, unk, slots, |slots|, base, u)
    requires forall k :: k in v.vvNew && v.vvNew[k] != -1 ==> k in slots
    ensures Pending(u) == {}
  {
    hide Inv, SlotList, NumberedBy;
    TablesOf(e, v, {});
    forall id | id in u.mapInfo && !u.mapInfo[id].fInTried ensures u.mapInfo[id].nRefCount != 0 {
      NotTriedIsNew(v, unk, news, tried, slots, base, u, id);
      RefsBack(e, v, unk, news, tried, slots, base, u, id);
      Referenced(e, v, news[id]);
    }
  }

  lemma Referenced(e: Env, v: View, id: int)
    requires Inv(e, v, {}, {}) && id in v.mapInfo && !v.mapInfo[id].fInTried
    ensures v.mapInfo[id].nRefCount != 0
  {
    hide Indexes, TriedTable, NewTable, RefCounts, Totals, Stamps;
  }

  lemma NotTriedIsNew(v: View, unk: map<int, int>, news: seq<int>, tried: seq<int>, slots: seq<Slot>, base: View, u: View, id: int)
    requires (forall i :: 0 <= i < |news| ==> news[i] in v.mapInfo) && (forall i :: 0 <= i < |tried| ==> tried[i] in v.mapInfo)
    requires HasTried(v, news, tried, |tried|, base) && HasRefs(v, unk, slots, |slots|, base, u)
    requires id in u.mapInfo && !u.mapInfo[id].fInTried
    ensures 0 <= id < |news|
  {
    var t := id - |news|;
    assert id in base.mapInfo && u.mapInfo[id].fInTried == base.mapInfo[id].fInTried;
    assert 0 <= t < |tried| ==> base.mapInfo[|news| + t] == Restored(Store(v.mapInfo[tried[t]]), |news| + t, true);
  }

  lemma {:induction false} PruneNothing(e: Env, u: View, n: int)
    requires Loading(e, u) && Pending(u) == {}
    ensures Prune(e, u, n) == u
    decreases if n < 0 then 0 else n
  {
    hide Loading, Prune;
    if n > 0 {
      PruneNothing(e, u, n - 1);
      PruneNext(e, u, n - 1);
      assert n - 1 !in Pending(u);
    } else {
      PruneNone(e, u, n);
    }
  }

  lemma TriedBack(e: Env, v: View, news: seq<int>, tried: seq<int>, base: View, u: View, r: map<int, int>)
    requires Saved(e, v, news, tried) && HasTried(v, news, tried, |tried|, base) && r == Names(e, v, news, tried)
    requires TriedTable(e, u.mapInfo, u.vvTried) && u.mapInfo.Keys == base.mapInfo.Keys
    requires forall id :: id in u.mapInfo ==> u.mapInfo[id] == base.mapInfo[id].(nRefCount := u.mapInfo[id].nRefCount)
    ensures SameTable(v.vvTried, u.vvTried, r)
  {
    hide Inv, TriedSlot, Names;
    TablesOf(e, v, {});
    assert v.vvTried.Keys == u.vvTried.Keys;
    assert r.Keys == v.mapInfo.Keys by { NamesKeys(e, v, news, tried); }
    forall k | k in v.vvTried ensures if v.vvTried[k] == -1 then u.vvTried[k] == -1 else v.vvTried[k] in r && u.vvTried[k] == r[v.vvTried[k]] {
      TriedSlotBack(e, v, news, tried, base, u, r, k);
    }
  }

  lemma NamesKeys(e: Env, v: View, news: seq<int>, tried: seq<int>)
    requires Saved(e, v, news, tried)
    ensures Names(e, v, news, tried).Keys == v.mapInfo.Keys
  {
    hide Inv, NewName;
  }

  lemma TriedSlotBack(e: Env, v: View, news: seq<int>, tried: seq<int>, base: View, u: View, r: map<int, int>, k: Slot)
    requires Saved(e, v, news, tried) && HasTried(v, news, tried, |tried|, base) && r == Names(e, v, news, tried)
    requires TriedTable(e, u.mapInfo, u.vvTried) && u.mapInfo.Keys == base.mapInfo.Keys
    requires forall id :: id in u.mapInfo ==> u.mapInfo[id] == base.mapInfo[id].(nRefCount := u.mapInfo[id].nRefCount)
    requires k in v.vvTried && k in u.vvTried
    ensures if v.vvTried[k] == -1 then u.vvTried[k] == -1 else v.vvTried[k] in r && u.vvTried[k] == r[v.vvTried[k]]
  {
    hide Inv, TriedSlot, Names, NewTable, RefCounts, RefStates, AddrIndex, HasTried;
    TablesOf(e, v, {});
    NamesKeys(e, v, news, tried);
    if v.vvTried[k] != -1 {
      var t := PosIn(tried, v.vvTried[k]);
      NamesMean(e, v, news, tried, v.vvTried[k], t);
      TriedIs(v, news, tried, base, u, |news| + t);
    } else {
      TriedElsewhere(e, v, news, tried, base, u);
    }
  }

  /** The slots of loaded tried entries were filled when they were saved. */
  lemma TriedElsewhere(e: Env, v: View, news: seq<int>, tried: seq<int>, base: View, u: View)
    requires Saved(e, v, news, tried) && HasTried(v, news, tried, |tried|, base) && u.mapInfo.Keys == base.mapInfo.Keys
    requires forall id :: id in u.mapInfo ==> u.mapInfo[id] == base.mapInfo[id].(nRefCount := u.mapInfo[id].nRefCount)
    ensures forall id :: id in u.mapInfo && u.mapInfo[id].fInTried ==>
      TriedSlot(e, u.mapInfo[id].service) in v.vvTried && v.vvTried[TriedSlot(e, u.mapInfo[id].service)] != -1
  {
    hide Inv, TriedSlot, HasTried;
    forall id | id in u.mapInfo && u.mapInfo[id].fInTried
      ensures TriedSlot(e, u.mapInfo[id].service) in v.vvTried && v.vvTried[TriedSlot(e, u.mapInfo[id].service)] != -1
    {
      TriedIs(v, news, tried, base, u, id);
      TriedHas(e, v, tried[id - |news|]);
    }
  }

  lemma TriedHas(e: Env, v: View, id: int)
    requires Inv(e, v, {}, {}) && id in v.mapInfo && v.mapInfo[id].fInTried
    ensures id != -1 && TriedSlot(e, v.mapInfo[id].service) in v.vvTried && v.vvTried[TriedSlot(e, v.mapInfo[id].service)] == id
  {
    hide NewTable, RefCounts, Totals, Stamps, RefStates, AddrIndex, RandomIndex;
  }

  lemma TriedIs(v: View, news: seq<int>, tried: seq<int>, base: View, u: View, id: int)
    requires (forall i :: 0 <= i < |news| ==> news[i] in v.mapInfo) && (forall i :: 0 <= i < |tried| ==> tried[i] in v.mapInfo)
    requires HasTried(v, news, tried, |tried|, base) && u.mapInfo.Keys == base.mapInfo.Keys
    requires forall id :: id in u.mapInfo ==> u.mapInfo[id] == base.mapInfo[id].(nRefCount := u.mapInfo[id].nRefCount)
    ensures 0 <= id - |news| < |tried| ==> id in u.mapInfo && u.mapInfo[id].fInTried && u.mapInfo[id].service == v.mapInfo[tried[id - |news|]].service
    ensures id in u.mapInfo && u.mapInfo[id].fInTried ==> 0 <= id - |news| < |tried|
  {
    var t := id - |news|;
    assert 0 <= t < |tried| ==> base.mapInfo[|news| + t] == Restored(Store(v.mapInfo[tried[t]]), |news| + t, true);
  }

  /** Renaming does not change how many there are. */
  lemma {:induction false} SameCard(a: set<int>, b: set<int>, r: map<int, int>)
    requires forall x :: x in a ==> x in r && r[x] in b
    requires forall x, y :: x in a && y in a && r[x] == r[y] ==> x == y
    requires forall y :: y in b ==> exists x :: x in a && r[x] == y
    ensures |a| == |b|
  {
    assert (forall x :: x !in a) ==> a == {};
    assert (forall y :: y !in b) ==> b == {};
    if a != {} {
      var x :| x in a;
      SameCard(a - {x}, b - {r[x]}, r);
    }
  }

  lemma NewBack(e: Env, v: View, news: seq<int>, tried: seq<int>, unk: map<int, int>, slots: seq<Slot>, base: View, u: View, r: map<int, int>)
    requires Saved(e, v, news, tried) && NumberedBy(news, unk) && HasRefs(v, unk, slots, |slots|, base, u) && r == Names(e, v, news, tried)
    requires forall k :: k in v.vvNew && v.vvNew[k] != -1 ==> k in slots
    ensures SameTable(v.vvNew, u.vvNew, r)
  {
    hide Inv, Names, TriedTable, RefCounts, RefStates, AddrIndex, NewPos;
    TablesOf(e, v, {});
    NamesKeys(e, v, news, tried);
    assert slots[..|slots|] == slots;
    forall k | k in v.vvNew && v.vvNew[k] != -1 ensures v.vvNew[k] in r && u.vvNew[k] == r[v.vvNew[k]] {
      var i := PosIn(news, v.vvNew[k]);
      NamesMean(e, v, news, tried, v.vvNew[k], i);
    }
  }

  /** Every entry is back under its new name, and nothing else. */
  lemma EntriesBack(e: Env, v: View, news: seq<int>, tried: seq<int>, unk: map<int, int>, slots: seq<Slot>, base: View, u: View, r: map<int, int>, id: int)
    requires Saved(e, v, news, tried) && NumberedBy(news, unk) && SlotList(v, slots) && HasTried(v, news, tried, |tried|, base)
    requires Inv(e, u, Pending(u), {}) && HasRefs(v, unk, slots, |slots|, base, u) && r == Names(e, v, news, tried)
    requires forall k :: k in v.vvNew && v.vvNew[k] != -1 ==> k in slots
    requires id in v.mapInfo
    ensures id in r && r[id] in u.mapInfo && SameEntryAs(v.mapInfo[id], u.mapInfo[r[id]])
    ensures r[id] == if v.mapInfo[id].fInTried then |news| + PosIn(tried, id) else PosIn(news, id)
  {
    hide Inv, Names, SlotList, HasTried, HasRefs, NumberedBy, SameEntryAs;
    NamesKeys(e, v, news, tried);
    if v.mapInfo[id].fInTried {
      NamesMean(e, v, news, tried, id, PosIn(tried, id));
      TriedEntryBack(e, v, news, tried, unk, slots, base, u, PosIn(tried, id));
    } else {
      NamesMean(e, v, news, tried, id, PosIn(news, id));
      NewEntryBack(e, v, news, tried, unk, slots, base, u, PosIn(news, id));
    }
  }

  lemma TriedEntryBack(e: Env, v: View, news: seq<int>, tried: seq<int>, unk: map<int, int>, slots: seq<Slot>, base: View, u: View, t: nat)
    requires Saved(e, v, news, tried) && t < |tried| && HasTried(v, news, tried, |tried|, base)
    requires Inv(e, u, Pending(u), {}) && HasRefs(v, unk, slots, |slots|, base, u)
    ensures |news| + t in u.mapInfo && SameEntryAs(v.mapInfo[tried[t]], u.mapInfo[|news| + t])
  {
    hide Inv, TriedTable, NewTable, RefCounts, AddrIndex;
    TriedUnreferenced(e, v, tried[t]);
    TablesOf(e, u, Pending(u));
    assert base.mapInfo[|news| + t] == Restored(Store(v.mapInfo[tried[t]]), |news| + t, true);
  }

  lemma NewEntryBack(e: Env, v: View, news: seq<int>, tried: seq<int>, unk: map<int, int>, slots: seq<Slot>, base: View, u: View, i: nat)
    requires Saved(e, v, news, tried) && NumberedBy(news, unk) && SlotList(v, slots) && HasTried(v, news, tried, |tried|, base)
    requires Inv(e, u, Pending(u), {}) && HasRefs(v, unk, slots, |slots|, base, u)
    requires (forall k :: k in v.vvNew && v.vvNew[k] != -1 ==> k in slots) && i < |news|
    ensures i in u.mapInfo && SameEntryAs(v.mapInfo[news[i]], u.mapInfo[i])
  {
    hide Inv, SlotList, NumberedBy;
    RefsBack(e, v, unk, news, tried, slots, base, u, i);
  }

  lemma TriedUnreferenced(e: Env, v: View, id: int)
    requires Inv(e, v, {}, {}) && id in v.mapInfo && v.mapInfo[id].fInTried
    ensures v.mapInfo[id].nRefCount == 0
  {
    hide Indexes, TriedTable, NewTable, RefCounts, Totals, Stamps;
  }

  lemma NamesInjective(e: Env, v: View, news: seq<int>, tried: seq<int>, x: int, y: int)
    requires Saved(e, v, news, tried) && x in v.mapInfo && y in v.mapInfo
    requires Names(e, v, news, tried)[x] == Names(e, v, news, tried)[y]
    ensures x == y
  {
    hide Inv;
  }

  lemma NamesOnto(e: Env, v: View, news: seq<int>, tried: seq<int>, base: View, id: int)
    requires Saved(e, v, news, tried) && HasTried(v, news, tried, |tried|, base) && id in base.mapInfo
    ensures exists x :: x in Names(e, v, news, tried) && Names(e, v, news, tried)[x] == id
  {
    hide Inv, Names;
    NamesKeys(e, v, news, tried);
    var x := if id < |news| then news[id] else tried[id - |news|];
    NamesMean(e, v, news, tried, x, if id < |news| then id else id - |news|);
  }

  /** The same entries under other names give the same totals. */
  lemma SameTotals(e: Env, v: View, u: View, r: map<int, int>)
    requires Totals(e, v.mapInfo, {}, v.nNew, v.nTried, v.counts) && Totals(e, u.mapInfo, {}, u.nNew, u.nTried, u.counts)
    requires r.Keys == v.mapInfo.Keys && (forall x, y :: x in r && y in r && r[x] == r[y] ==> x == y)
    requires forall id :: id in u.mapInfo ==> exists x :: x in r && r[x] == id
    requires forall id :: id in r ==> r[id] in u.mapInfo && SameEntryAs(v.mapInfo[id], u.mapInfo[r[id]])
    ensures u.nNew == v.nNew && u.nTried == v.nTried && forall net :: CountOf(u.counts, net) == CountOf(v.counts, net)
  {
    var m, w := v.mapInfo, u.mapInfo;
    SameCard(NewIds(m, {}), NewIds(w, {}), r);
    SameCard(TriedIds(m), TriedIds(w), r);
    forall net ensures CountOf(u.counts, net) == CountOf(v.counts, net) {
      SameCard(OfNet(e, m, NewIds(m, {}), net), OfNet(e, w, NewIds(w, {}), net), r);
      SameCard(OfNet(e, m, TriedIds(m), net), OfNet(e, w, TriedIds(w), net), r);
    }
  }

  lemma TotalsOf(e: Env, u: View, pending: set<int>)
    requires Inv(e, u, pending, {})
    ensures Totals(e, u.mapInfo, {}, u.nNew, u.nTried, u.counts) && -1 !in u.mapInfo
  {
    hide TriedTable, NewTable, RefCounts, RefStates, Stamps, AddrIndex, RandomIndex, Totals;
  }

  lemma RenamedBack(e: Env, v: View, news: seq<int>, tried: seq<int>, unk: map<int, int>, slots: seq<Slot>, base: View, u: View)
    requires Saved(e, v, news, tried) && NumberedBy(news, unk) && SlotList(v, slots) && HasTried(v, news, tried, |tried|, base)
    requires Inv(e, u, Pending(u), {}) && HasRefs(v, unk, slots, |slots|, base, u)
    requires forall k :: k in v.vvNew && v.vvNew[k] != -1 ==> k in slots
    ensures Renamed(v, u, Names(e, v, news, tried))
  {
    hide Inv, Names, SlotList, HasTried, NumberedBy, SameEntryAs, SameTable, Totals, TriedTable, NewTable, RefCounts, RefStates, AddrIndex;
    var r := Names(e, v, news, tried);
    NamesKeys(e, v, news, tried);
    TotalsOf(e, v, {});
    TotalsOf(e, u, Pending(u));
    TablesOf(e, u, Pending(u));
    forall x, y | x in r && y in r && r[x] == r[y] ensures x == y { NamesInjective(e, v, news, tried, x, y); }
    forall id | id in u.mapInfo ensures exists x :: x in r && r[x] == id { NamesOnto(e, v, news, tried, base, id); }
    forall id | id in r ensures r[id] in u.mapInfo && SameEntryAs(v.mapInfo[id], u.mapInfo[r[id]]) {
      EntriesBack(e, v, news, tried, unk, slots, base, u, r, id);
    }
    NewBack(e, v, news, tried, unk, slots, base, u, r);
    TriedBack(e, v, news, tried, base, u, r);
    SameTotals(e, v, u, r);
  }

  lemma KnownTable(e: Env, v: View)
    requires Inv(e, v, {}, {})
    ensures e.Ok() && TableKnown(e, v)
  {
    hide Indexes, TriedTable, RefCounts, Totals, RefStates, Stamps, NewPos;
  }

  ghost function SaveOf(e: Env, v: View, order: seq<int>, asmap: int): Disk
    requires Inv(e, v, {}, {}) && Lists(order, v.mapInfo)
  {
    hide Inv, Lists, Save;
    KnownTable(e, v);
    Save(e, v, order, asmap)
  }

  ghost function NamesOf(e: Env, v: View, order: seq<int>): map<int, int>
    requires Inv(e, v, {}, {}) && Lists(order, v.mapInfo)
  {
    hide Inv, Names, Saved;
    SavedLists(e, v, order);
    Names(e, v, Chosen(v.mapInfo, order, false), Chosen(v.mapInfo, order, true))
  }

  lemma NumbersFit(e: Env, v: View, order: seq<int>)
    requires Inv(e, v, {}, {}) && Lists(order, v.mapInfo)
    ensures var news := Chosen(v.mapInfo, order, false); NumberedBy(news, Numbers(v.mapInfo, order)) && Numbered(v.vvNew, Numbers(v.mapInfo, order), |news|)
  {
    hide Inv, Numbers;
    var news, tried, unk := Chosen(v.mapInfo, order, false), Chosen(v.mapInfo, order, true), Numbers(v.mapInfo, order);
    SavedLists(e, v, order);
    forall i | 0 <= i < |news| ensures news[i] in unk && unk[news[i]] == i { NumberOf(v.mapInfo, order, i); }
    TablesOf(e, v, {});
    forall k | k in v.vvNew && v.vvNew[k] != -1 ensures v.vvNew[k] in unk && 0 <= unk[v.vvNew[k]] < |news| {
      var i := PosIn(news, v.vvNew[k]);
    }
  }

  lemma SlotsFilled(e: Env, v: View)
    requires TableKnown(e, v)
    ensures forall b, p :: 0 <= b < e.newBuckets && 0 <= p < e.bucketSize ==> (b, p) in v.vvNew
    ensures var slots := AllFilled(v.vvNew, e.newBuckets, e.bucketSize);
      && SlotList(v, slots) && (forall k :: k in v.vvNew && v.vvNew[k] != -1 ==> k in slots)
      && forall i :: 0 <= i < |slots| ==> 0 <= slots[i].0 < e.newBuckets
  {
    SlotsThere(e, v);
    var slots := AllFilled(v.vvNew, e.newBuckets, e.bucketSize);
    forall k | k in v.vvNew && v.vvNew[k] != -1 ensures k in slots { assert k == (k.0, k.1); }
  }

  /** The state before the references are put back. */
  lemma BeforeRefs(e: Env, v: View, news: seq<int>, tried: seq<int>, unk: map<int, int>, slots: seq<Slot>)
    requires Saved(e, v, news, tried)
    ensures var base := LoadTried(e, LoadNew(e, StoreAll(v.mapInfo, news), |news|), StoreAll(v.mapInfo, tried), |tried|);
      && Inv(e, base, Pending(base), {}) && HasTried(v, news, tried, |tried|, base) && HasRefs(v, unk, slots, 0, base, base)
      && base.collisions == {}
  {
    hide Inv, LoadNew, LoadTried, Loading;
    StageNew(e, v, news, tried, |news|);
    var v1 := LoadNew(e, StoreAll(v.mapInfo, news), |news|);
    StageTried(e, v, news, tried, |tried|, v1);
    var base := LoadTried(e, v1, StoreAll(v.mapInfo, tried), |tried|);
    PendingIs(e, base, Check.Range(|news|));
    IndexOf(e, v, {}, {});
    assert base.vvNew.Keys == v.vvNew.Keys;
  }

  /** What was written of the buckets is read back as the list of filled slots. */
  lemma ReadBack(e: Env, v: View, order: seq<int>, asmap: int)
    requires Lists(order, v.mapInfo) && TableKnown(e, v)
    requires Numbered(v.vvNew, Numbers(v.mapInfo, order), |Chosen(v.mapInfo, order, false)|)
    ensures forall b, p :: 0 <= b < e.newBuckets && 0 <= p < e.bucketSize ==> (b, p) in v.vvNew
    ensures var d := Save(e, v, order, asmap); var unk := Numbers(v.mapInfo, order);
      var slots := AllFilled(v.vvNew, e.newBuckets, e.bucketSize); var entries := Entries(d.buckets, |d.newInfos|);
      && |d.buckets| == e.newBuckets && |entries| == |slots|
      && forall i :: 0 <= i < |slots| ==> v.vvNew[slots[i]] in unk && entries[i] == (slots[i].0, unk[v.vvNew[slots[i]]])
  {
    hide Entries, AllFilled, Numbers, Chosen;
    var d, unk := Save(e, v, order, asmap), Numbers(v.mapInfo, order);
    SlotsThere(e, v);
    EntriesAre(v.vvNew, unk, d.buckets, e.bucketSize, |d.newInfos|);
    SlotsFilled(e, v);
  }

  /**
   Saving and loading under the same asmap loses nothing: the loaded state is consistent, so the
   check after loading passes, and it is the saved one up to the names of the ids.
   */
  lemma RoundTrip(e: Env, v: View, order: seq<int>, asmap: int)
    requires Consistent(e, v) && Lists(order, v.mapInfo)
    ensures var w := Load(e, SaveOf(e, v, order, asmap), asmap);
      Consistent(e, w) && Check.CheckPasses(e, w) && Renamed(v, w, NamesOf(e, v, order))
  {
    hide Inv, Numbers, Chosen, AllFilled, LoadNew, LoadTried, LoadRefs, Prune, Loading, Entries, Save, Renamed, Names, Saved,
         SlotList, HasTried, HasRefs, NumberedBy, Numbered, Check.CheckPasses;
    KnownTable(e, v);
    var news, tried, unk := Chosen(v.mapInfo, order, false), Chosen(v.mapInfo, order, true), Numbers(v.mapInfo, order);
    SlotsFilled(e, v);
    var slots := AllFilled(v.vvNew, e.newBuckets, e.bucketSize);
    SavedLists(e, v, order);
    NumbersFit(e, v, order);
    BeforeRefs(e, v, news, tried, unk, slots);
    var d := SaveOf(e, v, order, asmap);
    ReadBack(e, v, order, asmap);
    var base := LoadTried(e, LoadNew(e, StoreAll(v.mapInfo, news), |news|), StoreAll(v.mapInfo, tried), |tried|);
    var entries := Entries(d.buckets, |d.newInfos|);
    SaveLists(e, v, order, asmap);
    StageRefs(e, v, news, tried, unk, slots, entries, |slots|, base);
    var w := LoadRefs(e, base, entries, |entries|, true);
    RenamedBack(e, v, news, tried, unk, slots, base, w);
    NothingPending(e, v, unk, news, tried, slots, base, w);
    PruneNothing(e, w, w.nIdCount);
    FreshConsistent(e, v, unk, slots, base, w);
    Check.ConsistentPasses(e, w);
  }

  lemma SaveLists(e: Env, v: View, order: seq<int>, asmap: int)
    requires Inv(e, v, {}, {}) && Lists(order, v.mapInfo)
    ensures var d := SaveOf(e, v, order, asmap);
      && d.newInfos == StoreAll(v.mapInfo, Chosen(v.mapInfo, order, false))
      && d.triedInfos == StoreAll(v.mapInfo, Chosen(v.mapInfo, order, true))
      && d.asmap == asmap
  {
    hide Inv, Chosen;
  }

  lemma FreshConsistent(e: Env, v: View, unk: map<int, int>, slots: seq<Slot>, base: View, w: View)
    requires Inv(e, w, {}, {}) && HasRefs(v, unk, slots, |slots|, base, w) && base.collisions == {}
    ensures Consistent(e, w)
  {
    hide Indexes, NewTable, RefCounts, Totals, RefStates, Stamps;
  }

  // ----- sizes

  lemma {:induction false} ChosenGrows(m: map<int, AddrInfo>, order: seq<int>, tried: bool, n: nat)
    requires n <= |order| && forall i :: 0 <= i < |order| ==> order[i] in m
    ensures |Chosen(m, order[..n], tried)| <= |Chosen(m, order, tried)|
    decreases |order|
  {
    if n < |order| {
      ChosenGrows(m, order[..|order| - 1], tried, n);
      assert order[..|order| - 1][..n] == order[..n];
    } else {
      assert order[..n] == order;
    }
  }

  lemma {:induction false} ListSize(s: seq<int>, a: set<int>)
    requires (forall i, j :: 0 <= i < j < |s| ==> s[i] != s[j]) && forall x :: x in a <==> x in s
    ensures |a| == |s|
  {
    if s == [] {
      assert (forall x :: x !in a) ==> a == {};
    } else {
      var n := |s| - 1;
      assert s == s[..n] + [s[n]];
      ListSize(s[..n], a - {s[n]});
    }
  }

  /** The lists have as many entries as the counters say. */
  lemma ChosenCounts(e: Env, v: View, order: seq<int>)
    requires Inv(e, v, {}, {}) && Lists(order, v.mapInfo)
    ensures |Chosen(v.mapInfo, order, false)| == v.nNew && |Chosen(v.mapInfo, order, true)| == v.nTried
  {
    hide Inv, Chosen;
    SavedLists(e, v, order);
    TotalsOf(e, v, {});
    ListSize(Chosen(v.mapInfo, order, false), NewIds(v.mapInfo, {}));
    ListSize(Chosen(v.mapInfo, order, true), TriedIds(v.mapInfo));
  }

  lemma {:induction false} SlotCount(buckets: nat, size: nat)
    ensures |AllSlots(buckets, size)| == buckets * size
  {
    hide AllSlots, Row;
    if buckets > 0 {
      SlotCount(buckets - 1, size);
      RowCount(buckets - 1, size);
      assert AllSlots(buckets, size) == AllSlots(buckets - 1, size) + Row(buckets - 1, size);
      OneRowMore(buckets - 1, size);
    } else {
      assert AllSlots(0, size) == {};
    }
  }

  lemma OneRowMore(buckets: int, size: int)
    ensures (buckets + 1) * size == buckets * size + size
  {
  }

  ghost function Row(b: int, size: nat): (r: set<Slot>)
    ensures forall k: Slot :: k in r <==> k.0 == b && 0 <= k.1 < size
  {
    if size == 0 then {} else Row(b, size - 1) + {(b, size - 1)}
  }

  lemma {:induction false} RowCount(b: int, size: nat)
    ensures |Row(b, size)| == size
  {
    if size > 0 { RowCount(b, size - 1); }
  }

  lemma {:induction false} ImageSize(slots: set<Slot>, t: Grid, ids: set<int>)
    requires (forall k :: k in slots ==> k in t) && forall id :: id in ids ==> exists k :: k in slots && t[k] == id
    ensures |ids| <= |slots|
  {
    assert (forall x :: x !in ids) ==> ids == {};
    if ids != {} {
      var id :| id in ids;
      var k :| k in slots && t[k] == id;
      ImageSize(slots - {k}, t, ids - {id});
      assert |slots - {k}| == |slots| - 1;
    }
  }

  lemma Occupied(e: Env, v: View, id: int)
    requires Inv(e, v, {}, {}) && id in v.mapInfo
    ensures v.mapInfo[id].fInTried ==> exists k :: k in v.vvTried && v.vvTried[k] == id
    ensures !v.mapInfo[id].fInTried ==> exists k :: k in v.vvNew && v.vvNew[k] == id
  {
    hide Inv, TriedSlot, NewPos, TriedTable, NewTable, RefStates, AddrIndex;
    IndexOf(e, v, {}, {});
    if v.mapInfo[id].fInTried {
      TriedHas(e, v, id);
    } else {
      Referenced(e, v, id);
      TablesOf(e, v, {});
      var refs := Refs(e, v.vvNew, v.mapInfo[id].service, id);
      assert (forall b :: b !in refs) ==> refs == {};
      var b :| b in refs;
      assert v.vvNew[(b, NewPos(e, v.mapInfo[id].service, b))] == id;
    }
  }

  /** There are never more entries than slots, so the sizes written pass the bounds on loading. */
  lemma SizesFit(e: Env, v: View)
    requires Inv(e, v, {}, {})
    ensures 0 <= v.nNew <= e.newBuckets * e.bucketSize && 0 <= v.nTried <= e.triedBuckets * e.bucketSize
  {
    hide Inv, AllSlots;
    TotalsOf(e, v, {});
    IndexOf(e, v, {}, {});
    forall id | id in v.mapInfo
      ensures v.mapInfo[id].fInTried ==> exists k :: k in AllSlots(e.triedBuckets, e.bucketSize) && v.vvTried[k] == id
      ensures !v.mapInfo[id].fInTried ==> exists k :: k in AllSlots(e.newBuckets, e.bucketSize) && v.vvNew[k] == id
    {
      Occupied(e, v, id);
    }
    ImageSize(AllSlots(e.triedBuckets, e.bucketSize), v.vvTried, TriedIds(v.mapInfo));
    ImageSize(AllSlots(e.newBuckets, e.bucketSize), v.vvNew, NewIds(v.mapInfo, {}));
    SlotCount(e.triedBuckets, e.bucketSize);
    SlotCount(e.newBuckets, e.bucketSize);
  }

  /** What is saved is always accepted back: its sizes are in bounds and the check after loading passes. */
  lemma LoadAccepts(e: Env, v: View, order: seq<int>, asmap: int)
    requires Consistent(e, v) && Lists(order, v.mapInfo)
    ensures var d := SaveOf(e, v, order, asmap);
      && |d.newInfos| <= e.newBuckets * e.bucketSize && |d.triedInfos| <= e.triedBuckets * e.bucketSize
      && Check.CheckPasses(e, Load(e, d, asmap))
  {
    hide Inv, Collisions, Chosen, Save, Load, Check.CheckPasses, Renamed;
    SizesFit(e, v);
    ChosenCounts(e, v, order);
    SaveLists(e, v, order, asmap);
    RoundTrip(e, v, order, asmap);
  }
}
