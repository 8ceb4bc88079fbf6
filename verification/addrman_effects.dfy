/**
 What the operations of the address manager achieve, said over the states before and after: which
 addresses are stored, when an entry becomes tried, and how a waiting entry is decided.
 */
module AddrManEffects {
  import opened AddrManState
  import opened AddrManOps
  import Runs = AddrManRuns
  import Bits

  lemma EnvOk(e: Env, v: View)
    requires Inv(e, v, {}, {})
    ensures e.Ok()
  {
  }

  // ----- references in the new table

  /** Clearing a slot takes one reference from its entry, and the entry with its last one. */
  lemma ClearNewExact(e: Env, v: View, k: Slot, pending: set<int>, limbo: set<int>)
    requires Inv(e, v, pending, limbo) && k in v.vvNew
    ensures (v.vvNew[k] != -1 ==> v.vvNew[k] in v.mapInfo) && RandomIndex(v.mapInfo, v.vRandom)
    ensures var w := ClearNew(e, v, k); var there := v.vvNew[k];
      if there == -1 then w == v
      else if v.mapInfo[there].nRefCount == 1 then there !in w.mapInfo && w.nNew == v.nNew - 1
      else w.nNew == v.nNew && there in w.mapInfo && w.mapInfo[there] == v.mapInfo[there].(nRefCount := v.mapInfo[there].nRefCount - 1)
  {
    hide TriedTable, RefCounts, Totals, Stamps, RefStates;
    NewHolds(e, v, k, pending, limbo);
    if v.vvNew[k] != -1 {
      var id := v.vvNew[k];
      var u := Unref(v, k);
      RandomIndexPut(v.mapInfo, v.vRandom, id, u.mapInfo[id]);
      hide RandomIndex;
      if u.mapInfo[id].nRefCount == 0 {
        DeleteFrame(e, u, id);
        DeleteEffect(e, u, id);
      }
    }
  }

  /** The entry of a slot gives way to an entry without references, or to any if it is no good. */
  predicate GivesWay(there: AddrInfo, refs: int, now: int) {
    IsTerrible(there, now) || (there.nRefCount > 1 && refs == 0)
  }

  /** An entry gets a reference from a slot exactly when the slot is empty or its entry gives way; otherwise an entry without any is forgotten. */
  ghost predicate Placing(v: View, w: View, id: int, k: Slot, added: bool, now: int)
    requires id in v.mapInfo && k in v.vvNew && (v.vvNew[k] != -1 ==> v.vvNew[k] in v.mapInfo)
  {
    var there, i := v.vvNew[k], v.mapInfo[id];
    && (added <==> there != id && (there == -1 || GivesWay(v.mapInfo[there], i.nRefCount, now)))
    && (added ==>
         && id in w.mapInfo && w.mapInfo[id] == i.(nRefCount := i.nRefCount + 1, nRandomPos := w.mapInfo[id].nRandomPos)
         && w.vvNew == v.vvNew[k := id])
    && (added && there == -1 ==> w.nNew == v.nNew)
    && (added && there != -1 && v.mapInfo[there].nRefCount == 1 ==> there !in w.mapInfo && w.nNew == v.nNew - 1)
    && (added && there != -1 && v.mapInfo[there].nRefCount != 1 ==>
         there in w.mapInfo && w.mapInfo[there].nRefCount == v.mapInfo[there].nRefCount - 1 && w.nNew == v.nNew)
    && (!added && i.nRefCount == 0 ==> id !in w.mapInfo && w.vvNew == v.vvNew && w.nNew == v.nNew - 1)
    && (!added && i.nRefCount != 0 ==> w == v)
  }

  lemma PlaceExact(e: Env, v: View, id: int, source: NetAddr, now: int)
    requires id in v.mapInfo && !v.mapInfo[id].fInTried && v.mapInfo[id].nRefCount < NEW_BUCKETS_PER_ADDRESS
    requires Inv(e, v, if v.mapInfo[id].nRefCount == 0 then {id} else {}, {})
    ensures var k := NewSlot(e, v.mapInfo[id].service, source); var (w, added) := Place(e, v, id, source, now);
      k in v.vvNew && (v.vvNew[k] != -1 ==> v.vvNew[k] in v.mapInfo) && Placing(v, w, id, k, added, now)
  {
    hide Indexes, TriedTable, NewTable, RefCounts, Totals, Stamps, RefStates, NewSlot, ClearNew, Delete, IsTerrible;
    var pending := if v.mapInfo[id].nRefCount == 0 then {id} else {};
    var k := NewSlot(e, v.mapInfo[id].service, source);
    Slots(e, v, pending, {}, v.mapInfo[id].service, source);
    NewHolds(e, v, k, pending, {});
    IndexOf(e, v, pending, {});
    if v.vvNew[k] == id {
      assert v.mapInfo[id].nRefCount > 0;
    } else if v.vvNew[k] == -1 || Overwrites(v.mapInfo[v.vvNew[k]], v.mapInfo[id], now) {
      ClearNewOnInv(e, v, k, pending, {});
      ClearNewExact(e, v, k, pending, {});
    } else if v.mapInfo[id].nRefCount == 0 {
      DeleteFrame(e, v, id);
      DeleteEffect(e, v, id);
    }
  }

  /** No good: not tried in the last minute, and from the future, older than a month, never reached in three attempts, or not reached for a week with ten failures. */
  lemma TerribleMeans(i: AddrInfo, now: int)
    ensures IsTerrible(i, now) <==>
      && i.lastTry < now - 60
      && (|| i.nTime > now + 10 * 60
          || i.nTime < now - 30 * 86400
          || (i.lastSuccess == 0 && i.nAttempts >= 3)
          || (i.lastSuccess < now - 7 * 86400 && i.nAttempts >= 10))
  {
  }

  // ----- AddSingle

  function Penalty(a: Address, source: NetAddr, timePenalty: int): int {
    if a.service.ip == source then 0 else timePenalty
  }

  /** The entry of an address that was announced for the first time and got its first reference. */
  ghost predicate Stored(v: View, w: View, a: Address, source: NetAddr, penalty: int, k: Slot) {
    && a.service in w.mapAddr && w.mapAddr[a.service] == v.nIdCount && v.nIdCount in w.mapInfo
    && k in w.vvNew && w.vvNew[k] == v.nIdCount
    && w.mapInfo[v.nIdCount] ==
         AddrInfo(a.service, Max(0, a.nTime - penalty), a.nServices, source, 0, 0, 0, 0, 1, false, w.mapInfo[v.nIdCount].nRandomPos)
  }

  /**
   A routable address that is not known is stored exactly when the slot of its source is empty or
   the entry there gives way: its entry then holds the slot and is indexed. Otherwise nothing of it
   is left.
   */
  lemma AddUnknownExact(e: Env, v: View, a: Address, source: NetAddr, timePenalty: int, now: (int, int), draw: nat)
    requires Inv(e, v, {}, {}) && e.isRoutable(a.service.ip) && a.service !in v.mapAddr
    ensures var k := NewSlot(e, a.service, source); var (w, added) := AddSingle(e, v, a, source, timePenalty, now, draw);
      && k in v.vvNew && (v.vvNew[k] != -1 ==> v.vvNew[k] in v.mapInfo)
      && (added <==> v.vvNew[k] == -1 || GivesWay(v.mapInfo[v.vvNew[k]], 0, now.1))
      && (added ==> Stored(v, w, a, source, Penalty(a, source, timePenalty), k))
      && (v.vvNew[k] == -1 ==> w.nNew == v.nNew + 1)
      && (!added ==> a.service !in w.mapAddr && w.vvNew == v.vvNew && w.nNew == v.nNew)
  {
    hide Inv, Place, NewSlot, IsTerrible;
    EnvOk(e, v);
    var penalty := Penalty(a, source, timePenalty);
    var u := CreatePenalised(e, v, a, source, penalty);
    CreatedEntry(e, v, a, source, penalty);
    Slots(e, v, {}, {}, a.service, source);
    NewHolds(e, v, NewSlot(e, a.service, source), {}, {});
    PlaceExact(e, u, v.nIdCount, source, now.1);
    var w := Place(e, u, v.nIdCount, source, now.1).0;
    AddressOf(e, w, v.nIdCount);
    PlaceEvolves(e, u, v.nIdCount, source, now.1);
    if v.nIdCount !in w.mapInfo { Unindexed(e, u, w, v.nIdCount); }
  }

  lemma CreatedEntry(e: Env, v: View, a: Address, source: NetAddr, penalty: int)
    requires Inv(e, v, {}, {}) && e.isRoutable(a.service.ip) && a.service !in v.mapAddr
    ensures var u := CreatePenalised(e, v, a, source, penalty);
      && u.vvNew == v.vvNew && u.nNew == v.nNew + 1
      && u.mapInfo == v.mapInfo[v.nIdCount := u.mapInfo[v.nIdCount]] && v.nIdCount !in v.mapInfo
      && u.mapInfo[v.nIdCount] == AddrInfo(a.service, Max(0, a.nTime - penalty), a.nServices, source, 0, 0, 0, 0, 0, false, |v.vRandom|)
      && (forall k :: k in v.vvNew ==> v.vvNew[k] != v.nIdCount)
  {
    hide TriedTable, RefCounts, Totals, Stamps, RefStates, AddrIndex, RandomIndex;
    assert v.nIdCount !in v.mapInfo && v.nIdCount != -1;
  }

  lemma AddressOf(e: Env, w: View, id: int)
    requires Inv(e, w, {}, {})
    ensures id in w.mapInfo ==> w.mapInfo[id].service in w.mapAddr && w.mapAddr[w.mapInfo[id].service] == id
  {
    hide TriedTable, NewTable, RefCounts, Totals, Stamps, RefStates, RandomIndex;
  }

  /** An address whose only entry is gone is not indexed. */
  lemma Unindexed(e: Env, u: View, w: View, id: int)
    requires Inv(e, u, {id}, {}) && Inv(e, w, {}, {}) && Evolves(u, w, {}) && w.nIdCount == u.nIdCount
    requires id in u.mapInfo && id !in w.mapInfo
    ensures u.mapInfo[id].service !in w.mapAddr
  {
    hide TriedTable, NewTable, RefCounts, Totals, Stamps, RefStates, RandomIndex;
    var s := u.mapInfo[id].service;
    assert u.mapAddr[s] == id;
    forall j | j in w.mapInfo ensures w.mapInfo[j].service != s {
      assert j in u.mapInfo && u.mapAddr[u.mapInfo[j].service] == j;
    }
  }

  /** Whether a known new entry may get one more reference, whatever its slot. */
  predicate MayGrow(i: AddrInfo, a: Address, draw: nat)
    requires i.nRefCount >= 0
  {
    a.nTime > i.nTime && i.nRefCount < NEW_BUCKETS_PER_ADDRESS && draw % Bits.Pow2(i.nRefCount) == 0
  }

  /** The entry keeps its time unless the announcement is newer by more than the interval, and has all services. */
  ghost predicate Brought(i: AddrInfo, j: AddrInfo, a: Address, penalty: int, now: int) {
    && j.nServices == i.nServices | a.nServices
    && j.nTime == (if i.nTime + (if a.nTime > now - 24 * 3600 then 3600 else 24 * 3600) + penalty < a.nTime then Max(0, a.nTime - penalty) else i.nTime)
    && j == i.(nTime := j.nTime, nServices := j.nServices)
  }

  /**
   A known address has its time and services brought up to date. It gets one more reference, from
   the slot of this source, exactly when it is new, newer than before, below the limit, lucky, and
   the slot is empty or its entry gives way.
   */
  lemma AddKnownExact(e: Env, v: View, a: Address, source: NetAddr, timePenalty: int, now: (int, int), draw: nat, renewed: AddrInfo)
    requires Inv(e, v, {}, {}) && e.isRoutable(a.service.ip) && a.service in v.mapAddr && v.mapAddr[a.service] in v.mapInfo
    requires Brought(v.mapInfo[v.mapAddr[a.service]], renewed, a, Penalty(a, source, timePenalty), now.0)
    ensures var id := v.mapAddr[a.service]; var (w, added) := AddSingle(e, v, a, source, timePenalty, now, draw);
      var k := NewSlot(e, a.service, source);
      && k in v.vvNew && (v.vvNew[k] != -1 ==> v.vvNew[k] in v.mapInfo)
      && id in w.mapInfo && w.mapInfo[id] == renewed.(nRefCount := w.mapInfo[id].nRefCount, nRandomPos := w.mapInfo[id].nRandomPos)
      && w.mapInfo[id].nRefCount == renewed.nRefCount + (if added then 1 else 0)
      && (renewed.fInTried ==> !added)
      && (!renewed.fInTried ==> renewed.nRefCount > 0)
      && (!renewed.fInTried ==>
           (added <==> MayGrow(renewed, a, draw) && v.vvNew[k] != id && (v.vvNew[k] == -1 || GivesWay(v.mapInfo[v.vvNew[k]], renewed.nRefCount, now.1))))
      && w.vvNew == (if added then v.vvNew[k := id] else v.vvNew)
  {
    hide Inv, Place, NewSlot, GivesWay, Bits.Pow2, NothingNew, Refreshed, Brought;
    EnvOk(e, v);
    var id := v.mapAddr[a.service];
    Found(e, v, a.service);
    var penalty := Penalty(a, source, timePenalty);
    var u := Refresh(e, v, a, penalty, now.0);
    RenewedIs(v.mapInfo[id], renewed, a, penalty, now.0);
    Slots(e, v, {}, {}, a.service, source);
    NewHolds(e, v, NewSlot(e, a.service, source), {}, {});
    Draws(renewed, a, draw);
    if !NothingNew(renewed, a, draw) {
      PlaceExact(e, u, id, source, now.1);
    }
  }

  lemma RenewedIs(i: AddrInfo, renewed: AddrInfo, a: Address, penalty: int, now: int)
    requires Brought(i, renewed, a, penalty, now)
    ensures renewed == Refreshed(i, a, penalty, now)
    ensures renewed == i.(nTime := renewed.nTime, nServices := renewed.nServices)
  {
  }

  lemma Draws(i: AddrInfo, a: Address, draw: nat)
    requires i.fInTried || 1 <= i.nRefCount <= NEW_BUCKETS_PER_ADDRESS
    ensures i.fInTried ==> NothingNew(i, a, draw)
    ensures !i.fInTried ==> (NothingNew(i, a, draw) <==> !MayGrow(i, a, draw))
  {
    if !i.fInTried { assert Bits.Pow2(i.nRefCount) > 1; }
  }

  /** An address that is not routable is ignored. */
  lemma AddUnroutable(e: Env, v: View, a: Address, source: NetAddr, timePenalty: int, now: (int, int), draw: nat)
    requires Inv(e, v, {}, {}) && !e.isRoutable(a.service.ip)
    ensures AddSingle(e, v, a, source, timePenalty, now, draw) == (v, false)
  {
  }

  // ----- Good_

  /** What a successful connection changes in an entry's statistics. */
  ghost predicate Reached(i: AddrInfo, j: AddrInfo, time: int) {
    j == i.(lastSuccess := time, lastTry := time, nAttempts := 0, nRefCount := j.nRefCount, fInTried := j.fInTried, nRandomPos := j.nRandomPos)
  }

  /**
   A known entry has its success recorded, and moves to tried exactly when it is new and, if the
   holder of its slot is to be tested first, the slot is free. Otherwise a new entry starts
   waiting, as long as not too many do.
   */
  lemma GoodExact(e: Env, v: View, s: Service, testBeforeEvict: bool, time: int)
    requires Inv(e, v, {}, {}) && time > 0
    ensures var (w, moved) := Good(e, v, s, testBeforeEvict, time); var k := TriedSlot(e, s);
      && w.lastGood == time && k in v.vvTried
      && (s !in v.mapAddr ==> !moved && w == v.(lastGood := time))
      && (s in v.mapAddr ==> var id := v.mapAddr[s];
           && id in v.mapInfo && id in w.mapInfo && Reached(v.mapInfo[id], w.mapInfo[id], time)
           && (moved <==> !v.mapInfo[id].fInTried && (!testBeforeEvict || v.vvTried[k] == -1))
           && (moved ==> w.mapInfo[id].fInTried && w.vvTried == v.vvTried[k := id] && EvictedHome(e, v, w, v.vvTried[k]))
           && (!moved ==> w.vvTried == v.vvTried && w.vvNew == v.vvNew && w.mapInfo.Keys == v.mapInfo.Keys)
           && w.collisions == v.collisions +
                if !moved && !v.mapInfo[id].fInTried && |v.collisions| < SET_TRIED_COLLISION_SIZE then {id} else {})
  {
    hide Inv, MakeTried, TriedSlot, AtHome;
    EnvOk(e, v);
    Slots(e, v, {}, {}, s, s.ip);
    if s in v.mapAddr {
      Found(e, v, s);
      var id := v.mapAddr[s];
      var u := MarkGood(e, v, s, time);
      if !v.mapInfo[id].fInTried && (!testBeforeEvict || v.vvTried[TriedSlot(e, s)] == -1) {
        MakeTriedEffect(e, u, id);
        Another(e, v, id, TriedSlot(e, s));
        EvictedSame(e, v, u, Good(e, v, s, testBeforeEvict, time).0, v.vvTried[TriedSlot(e, s)]);
      }
    }
  }

  lemma Another(e: Env, v: View, id: int, k: Slot)
    requires Inv(e, v, {}, {}) && id in v.mapInfo && !v.mapInfo[id].fInTried && k in v.vvTried
    ensures v.vvTried[k] != id
  {
    hide Indexes, NewTable, RefCounts, Totals, Stamps, RefStates, TriedSlot;
    NonNegative(e, v, id);
  }

  lemma EvictedSame(e: Env, v: View, u: View, w: View, out: int)
    requires e.Ok() && EvictedHome(e, u, w, out) && (out in u.mapInfo ==> out in v.mapInfo && v.mapInfo[out] == u.mapInfo[out])
    ensures EvictedHome(e, v, w, out)
  {
  }

  // ----- ResolveCollisions_

  /** The holder of the slot was reached in the last four hours. */
  predicate HolderGood(h: AddrInfo, now: int) { h.lastSuccess > now - 4 * 3600 }

  /** The holder was tried in the last four hours, more than a minute ago, without having been reached; or nobody came to try it. */
  predicate HolderFailed(h: AddrInfo, i: AddrInfo, now: int) {
    && h.lastSuccess <= now - 4 * 3600
    && if h.lastTry > now - 4 * 3600 then h.lastTry < now - 60 else i.lastSuccess < now - 40 * 60
  }

  /**
   A waiting id that no longer exists is dropped. One that exists gives up exactly when the holder
   of its slot is good, takes the slot exactly when the holder has failed, and otherwise waits on.
   */
  lemma ResolveExact(e: Env, v: View, id: int, now: int)
    requires Consistent(e, v) && id in v.collisions && now > 0
    ensures id !in v.mapInfo ==> ResolveOne(e, v, id, now) == v.(collisions := v.collisions - {id})
    ensures id in v.mapInfo ==>
      var i := v.mapInfo[id]; var k := TriedSlot(e, i.service); var w := ResolveOne(e, v, id, now);
      && k in v.vvTried && v.vvTried[k] != id && v.vvTried[k] in v.mapInfo
      && var h := v.mapInfo[v.vvTried[k]];
      && (HolderGood(h, now) ==> w == v.(collisions := v.collisions - {id}))
      && (HolderFailed(h, i, now) ==>
           && id !in w.collisions && w.vvTried == v.vvTried[k := id]
           && id in w.mapInfo && w.mapInfo[id].fInTried && EvictedHome(e, v, w, v.vvTried[k]))
      && (!HolderGood(h, now) && !HolderFailed(h, i, now) ==> w == v)
  {
    hide Inv, Collisions, TriedSlot, Good, EvictedHome;
    EnvOk(e, v);
    if id in v.mapInfo {
      Waiting(e, v, id);
      GoodExact(e, v, v.mapInfo[id].service, false, now);
      EvictedErased(e, v, Good(e, v, v.mapInfo[id].service, false, now).0, id, v.vvTried[TriedSlot(e, v.mapInfo[id].service)]);
    }
  }

  lemma EvictedErased(e: Env, v: View, w: View, id: int, out: int)
    requires e.Ok()
    ensures EvictedHome(e, v, w, out) ==> EvictedHome(e, v, Erase(w, id), out)
  {
  }

  // ----- lists and loops

  ghost predicate AddStep(e: Env, u: View, w: View, a: Address, source: NetAddr, penalty: int, now: (int, int), draw: nat, added: bool) {
    Inv(e, u, {}, {}) && AddSingle(e, u, a, source, penalty, now, draw) == (w, added)
  }

  function Trues(b: seq<bool>): nat {
    if b == [] then 0 else Trues(b[..|b| - 1]) + if b[|b| - 1] then 1 else 0
  }

  /** Adding a list adds its addresses one after another and counts the ones that got a reference. */
  lemma {:induction false} AddAllSteps(e: Env, v: View, addrs: seq<Address>, source: NetAddr, penalty: int,
                                       now: int -> (int, int), draw: int -> nat) returns (us: seq<View>, added: seq<bool>)
    requires Consistent(e, v)
    ensures |us| == |addrs| + 1 && |added| == |addrs| && us[0] == v
    ensures forall i :: 0 <= i < |addrs| ==> AddStep(e, us[i], us[i + 1], addrs[i], source, penalty, now(i), draw(i), added[i])
    ensures Runs.AddAll(e, v, addrs, source, penalty, now, draw) == (us[|addrs|], Trues(added))
  {
    hide Consistent, AddStep, Inv, AddSingle, Runs.AddAll;
    if addrs == [] {
      us, added := [v], [];
      AddNothing(e, v, source, penalty, now, draw);
    } else {
      var n := |addrs| - 1;
      us, added := AddAllSteps(e, v, addrs[..n], source, penalty, now, draw);
      AddLast(e, v, addrs, source, penalty, now, draw, us[n], Trues(added));
      var w, b := OneMore(e, us[n], addrs[n], source, penalty, now(n), draw(n));
      us, added := us + [w], added + [b];
      assert added[..n] == added[..|added| - 1];
    }
  }

  lemma AddNothing(e: Env, v: View, source: NetAddr, penalty: int, now: int -> (int, int), draw: int -> nat)
    requires Consistent(e, v)
    ensures Runs.AddAll(e, v, [], source, penalty, now, draw) == (v, 0)
  {
    hide Consistent;
  }

  lemma OneMore(e: Env, u: View, a: Address, source: NetAddr, penalty: int, now: (int, int), draw: nat) returns (w: View, added: bool)
    requires Consistent(e, u)
    ensures Inv(e, u, {}, {}) && AddSingle(e, u, a, source, penalty, now, draw) == (w, added)
    ensures AddStep(e, u, w, a, source, penalty, now, draw, added)
  {
    hide Inv, Collisions, AddSingle;
    w, added := AddSingle(e, u, a, source, penalty, now, draw).0, AddSingle(e, u, a, source, penalty, now, draw).1;
  }

  lemma AddLast(e: Env, v: View, addrs: seq<Address>, source: NetAddr, penalty: int, now: int -> (int, int), draw: int -> nat, u: View, c: int)
    requires Consistent(e, v) && addrs != [] && Runs.AddAll(e, v, addrs[..|addrs| - 1], source, penalty, now, draw) == (u, c)
    ensures var n := |addrs| - 1;
      && Consistent(e, u) && Inv(e, u, {}, {})
      && var (w, b) := AddSingle(e, u, addrs[n], source, penalty, now(n), draw(n));
      Runs.AddAll(e, v, addrs, source, penalty, now, draw) == (w, if b then c + 1 else c)
  {
    hide Inv, Collisions, AddSingle;
  }

  ghost predicate ResolveStep(e: Env, u: View, w: View, id: int, time: int) {
    Consistent(e, u) && id in u.collisions && time > 0 && ResolveOne(e, u, id, time) == w
  }

  /** Resolving visits every waiting id once, in ascending order. */
  lemma {:induction false} ResolveVisits(e: Env, v: View, todo: set<int>, clock: int -> int) returns (ids: seq<int>, us: seq<View>)
    requires Consistent(e, v) && todo <= v.collisions && forall t :: clock(t) > 0
    ensures (forall i, j :: 0 <= i < j < |ids| ==> ids[i] < ids[j]) && forall id :: id in todo <==> id in ids
    ensures |us| == |ids| + 1 && us[0] == v && us[|ids|] == Runs.Resolve(e, v, todo, clock)
    ensures forall i :: 0 <= i < |ids| ==> ResolveStep(e, us[i], us[i + 1], ids[i], clock(ids[i]))
    decreases |todo|
  {
    hide Consistent, ResolveStep, Runs.Resolve;
    if todo == {} {
      ids, us := [], [v];
      NoneToResolve(e, v, clock);
    } else {
      var id := Runs.Least(todo);
      var u := ResolveFirst(e, v, todo, clock, id);
      var rest, later := ResolveVisits(e, u, todo - {id}, clock);
      ids, us := [id] + rest, [v] + later;
      forall x ensures x in todo <==> x in ids { }
      forall i | 0 <= i < |rest| ensures id < rest[i] { assert rest[i] in todo - {id}; }
      forall i | 0 <= i < |ids| ensures ResolveStep(e, us[i], us[i + 1], ids[i], clock(ids[i])) {
        if i > 0 { assert ids[i] == rest[i - 1] && us[i] == later[i - 1] && us[i + 1] == later[i]; }
      }
    }
  }

  lemma NoneToResolve(e: Env, v: View, clock: int -> int)
    requires Consistent(e, v) && forall t :: clock(t) > 0
    ensures Runs.Resolve(e, v, {}, clock) == v
  {
    hide Consistent;
  }

  lemma ResolveFirst(e: Env, v: View, todo: set<int>, clock: int -> int, id: int) returns (u: View)
    requires Consistent(e, v) && todo <= v.collisions && todo != {} && id == Runs.Least(todo) && forall t :: clock(t) > 0
    ensures ResolveStep(e, v, u, id, clock(id)) && Consistent(e, u) && todo - {id} <= u.collisions
    ensures Runs.Resolve(e, v, todo, clock) == Runs.Resolve(e, u, todo - {id}, clock)
  {
    hide Inv, Collisions, ResolveOne, Evolves;
    ResolveOneKeeps(e, v, id, clock(id));
    u := ResolveOne(e, v, id, clock(id));
  }

  /** The entry to test is another entry, in the tried slot that the waiting one wants. */
  lemma SelectExact(e: Env, v: View, pick: int)
    requires Consistent(e, v) && (v.collisions != {} ==> pick in v.collisions)
    ensures var (w, r) := Runs.SelectTriedCollision(e, v, pick);
      if v.collisions == {} then w == v && r.NoneTested?
      else if pick !in v.mapInfo then w == v.(collisions := v.collisions - {pick}) && r.NoneTested?
      else
        && w == v && r.TestThis? && r.info.fInTried
        && TriedSlot(e, r.info.service) == TriedSlot(e, v.mapInfo[pick].service) && r.info.service != v.mapInfo[pick].service
        && r.info.service in v.mapAddr && v.mapAddr[r.info.service] in v.mapInfo && v.mapInfo[v.mapAddr[r.info.service]] == r.info
  {
    hide NewTable, RefCounts, Totals, Stamps, RefStates, TriedSlot, RandomIndex;
    if v.collisions != {} && pick in v.mapInfo { Waiting(e, v, pick); }
  }

  /** As many as there are, as the percentage allows and as were asked for. */
  lemma LimitMeans(size: nat, maxAddresses: nat, maxPct: nat)
    ensures var n := Runs.Limit(size, maxAddresses, maxPct); var most := if maxPct == 0 then 100 else maxPct;
      && 100 * n <= most * size && (maxAddresses > 0 ==> n <= maxAddresses)
      && (100 * (n + 1) > most * size || n == maxAddresses > 0)
  {
  }

  // ----- Attempt_, Connected_, SetServices_

  /** Only the entry of a known service may differ, and it keeps its place in the tables. */
  ghost predicate OnlyStats(v: View, w: View, s: Service) {
    && (s !in v.mapAddr ==> w == v)
    && (s in v.mapAddr && v.mapAddr[s] in v.mapInfo ==>
         && v.mapAddr[s] in w.mapInfo && w == v.(mapInfo := v.mapInfo[v.mapAddr[s] := w.mapInfo[v.mapAddr[s]]])
         && SameLinks(v.mapInfo[v.mapAddr[s]], w.mapInfo[v.mapAddr[s]]))
  }

  lemma StatsExact(e: Env, v: View, s: Service, countFailure: bool, time: int, services: bv64)
    requires Inv(e, v, {}, {}) && time >= 0
    ensures OnlyStats(v, Attempt(e, v, s, countFailure, time), s)
    ensures OnlyStats(v, Connected(e, v, s, time), s) && OnlyStats(v, SetServices(e, v, s, services), s)
    ensures s in v.mapAddr ==> var id := v.mapAddr[s];
      && id in v.mapInfo && var i := v.mapInfo[id];
      && var j := Attempt(e, v, s, countFailure, time).mapInfo[id];
      && (if countFailure && i.lastCountAttempt < v.lastGood
          then j == i.(lastTry := time, lastCountAttempt := time, nAttempts := i.nAttempts + 1) else j == i.(lastTry := time))
      && Connected(e, v, s, time).mapInfo[id] == (if i.nTime < time - 1200 then i.(nTime := time) else i)
      && SetServices(e, v, s, services).mapInfo[id] == i.(nServices := services)
  {
    hide Inv;
    if s in v.mapAddr { Found(e, v, s); }
  }

  /** Between two successful connections anywhere, failures of an address count once. */
  lemma FailureCountsOnce(e: Env, v: View, s: Service, time: int, later: int)
    requires Inv(e, v, {}, {}) && v.lastGood <= time && 0 <= time && 0 <= later && s in v.mapAddr
    ensures var w := Attempt(e, v, s, true, time);
      && v.mapAddr[s] in v.mapInfo && w.lastGood == v.lastGood
      && w.mapInfo[v.mapAddr[s]].nAttempts <= v.mapInfo[v.mapAddr[s]].nAttempts + 1
      && Attempt(e, w, s, true, later).mapInfo[v.mapAddr[s]].nAttempts <= v.mapInfo[v.mapAddr[s]].nAttempts + 1
  {
    hide Inv;
    StatsExact(e, v, s, true, time, 0);
    StatsExact(e, Attempt(e, v, s, true, time), s, true, later, 0);
  }
}
