/**
 The address manager as the node runs it: mutable tables, maps and counters updated
 step by step, each method proved to have the effect its specification function states.
 */
module AddressManager {
  import opened AddrManState
  import Ops = AddrManOps
  import opened AddrManRuns
  import opened AddrManGrid
  import opened AddrManCheck
  import Disk = AddrManDisk
  import Trip = AddrManRoundTrip
  import Loads = AddrManLoad

  class AddrManImpl {
    const env: Env
    var nIdCount: int
    var mapInfo: map<int, AddrInfo>
    var mapAddr: map<Service, int>
    var vRandom: seq<int>
    var nTried: int
    const vvTried: array2<int>
    var nNew: int
    const vvNew: array2<int>
    var lastGood: int
    var collisions: set<int>
    var counts: map<int, Counts>

    ghost function V(): View
      reads this, vvTried, vvNew
    {
      View(nIdCount, mapInfo, mapAddr, vRandom, nTried, GridOf(vvTried), nNew, GridOf(vvNew), lastGood, collisions, counts)
    }

    ghost predicate Ready() {
      && env.Ok() && vvTried != vvNew
      && vvTried.Length0 == env.triedBuckets && vvNew.Length0 == env.newBuckets
      && vvTried.Length1 == env.bucketSize && vvNew.Length1 == env.bucketSize
    }

    ghost predicate Valid()
      reads this, vvTried, vvNew
    {
      Ready() && Consistent(env, V())
    }

    constructor (e: Env)
      requires e.Ok()
      ensures Valid() && env == e && V() == Empty(e) && fresh(vvTried) && fresh(vvNew)
    {
      env := e;
      nIdCount, mapInfo, mapAddr, vRandom := 0, map[], map[], [];
      nTried, nNew, lastGood, collisions, counts := 0, 0, 1, {}, map[];
      vvTried := new int[e.triedBuckets, e.bucketSize]((b, p) => -1);
      vvNew := new int[e.newBuckets, e.bucketSize]((b, p) => -1);
      new;
      AllEmpty(vvTried);
      AllEmpty(vvNew);
      EmptyConsistent(e);
    }

    method Create(a: Address, source: NetAddr) returns (id: int)
      modifies this
      ensures id == old(nIdCount) && V() == AddrManState.Create(env, old(V()), a, source)
    {
      hide Bump, GridShape;
      id := nIdCount;
      nIdCount := nIdCount + 1;
      mapInfo := mapInfo[id := AddrInfo(a.service, a.nTime, a.nServices, source, 0, 0, 0, 0, 0, false, |vRandom|)];
      mapAddr := mapAddr[a.service := id];
      vRandom := vRandom + [id];
      nNew := nNew + 1;
      counts := Bump(counts, env.networkOf(a.service.ip), 1, 0);
    }

    method SwapRandom(i: int, j: int)
      requires 0 <= i < |vRandom| && 0 <= j < |vRandom| && vRandom[i] in mapInfo && vRandom[j] in mapInfo
      requires i != j ==> vRandom[i] != vRandom[j]
      modifies this`mapInfo, this`vRandom
      ensures V() == AddrManState.SwapRandom(old(V()), i, j)
    {
      if i == j { return; }
      var id1, id2 := vRandom[i], vRandom[j];
      mapInfo := mapInfo[id1 := mapInfo[id1].(nRandomPos := j)];
      mapInfo := mapInfo[id2 := mapInfo[id2].(nRandomPos := i)];
      vRandom := vRandom[i := id2];
      vRandom := vRandom[j := id1];
    }

    method Delete(id: int)
      requires id in mapInfo && RandomIndex(mapInfo, vRandom)
      requires !mapInfo[id].fInTried && mapInfo[id].nRefCount == 0
      modifies this
      ensures V() == AddrManState.Delete(env, old(V()), id)
    {
      hide RandomIndex, SwapPositions;
      LastPosition(mapInfo, vRandom, id);
      SwapKeepsService(V(), mapInfo[id].nRandomPos, |vRandom| - 1, id);
      SwapRandom(mapInfo[id].nRandomPos, |vRandom| - 1);
      Forget(id);
    }

    /** Erase an entry whose id stands last in vRandom. */
    method Forget(id: int)
      requires id in mapInfo && |vRandom| > 0
      modifies `counts, `vRandom, `mapAddr, `mapInfo, `nNew
      ensures V() == Drop(env, old(V()), id)
    {
      hide Bump, GridShape;
      counts := Bump(counts, NetOf(env, mapInfo[id]), -1, 0);
      vRandom, mapAddr, mapInfo, nNew := vRandom[..|vRandom| - 1], mapAddr - {mapInfo[id].service}, mapInfo - {id}, nNew - 1;
    }

    method ClearNew(b: int, p: int)
      requires Ready() && 0 <= b < env.newBuckets && 0 <= p < env.bucketSize
      requires RandomIndex(mapInfo, vRandom)
      requires vvNew[b, p] != -1 ==> vvNew[b, p] in mapInfo && !mapInfo[vvNew[b, p]].fInTried && mapInfo[vvNew[b, p]].nRefCount > 0
      modifies this, vvNew
      ensures V() == AddrManState.ClearNew(env, old(V()), (b, p))
    {
      if vvNew[b, p] != -1 {
        var id := vvNew[b, p];
        assert mapInfo[id].nRefCount > 0;
        Ops.RandomIndexPut(mapInfo, vRandom, id, mapInfo[id].(nRefCount := mapInfo[id].nRefCount - 1));
        mapInfo := mapInfo[id := mapInfo[id].(nRefCount := mapInfo[id].nRefCount - 1)];
        Put(vvNew, b, p, -1);
        assert V() == Unref(old(V()), (b, p));
        if mapInfo[id].nRefCount == 0 {
          Delete(id);
        }
      }
    }

    /** Move an entry from the new table to the tried table. */
    method MakeTried(id: int)
      requires Ready() && Inv(env, V(), {}, {}) && id in mapInfo && !mapInfo[id].fInTried && mapInfo[id].lastSuccess > 0
      modifies this, vvNew, vvTried
      ensures V() == Ops.MakeTried(env, old(V()), id)
    {
      hide Indexes, TriedTable, NewTable, RefCounts, Totals, Stamps, RefStates, AddrManState.ClearNew, TriedSlot, NewSlot;
      ghost var v0 := V();
      UnlinkKeeps(env, v0, id, {}, {});
      Ops.Slots(env, v0, {}, {}, mapInfo[id].service, mapInfo[id].source);
      assert {} + {id} == {id} && {id} - {id} == {};
      RemoveFromNew(id);
      assert mapInfo[id].nRefCount == 0;
      ghost var v1 := V();
      var k := TriedSlot(env, mapInfo[id].service);
      if vvTried[k.0, k.1] != -1 {
        Ops.EvictFrame(env, v1, k, id);
        Evict(k.0, k.1, id);
      }
      assert vvTried[k.0, k.1] == -1;
      EnterTried(id, k.0, k.1);
    }

    /** An entry takes an empty tried slot. */
    method EnterTried(id: int, b: int, p: int)
      requires Ready() && id in mapInfo && 0 <= b < env.triedBuckets && 0 <= p < env.bucketSize
      modifies this`mapInfo, this`nTried, this`counts, vvTried
      ensures V() == IntoTried(env, old(V()), id, (b, p))
    {
      hide Bump, GridShape;
      Put(vvTried, b, p, id);
      nTried := nTried + 1;
      mapInfo := mapInfo[id := mapInfo[id].(fInTried := true)];
      counts := Bump(counts, NetOf(env, mapInfo[id]), 0, 1);
    }

    /** Make space in a tried slot: its entry goes back to the new table, over whatever is there. */
    method Evict(b: int, p: int, ghost id: int)
      requires Ready() && Inv(env, V(), {}, {id})
      requires 0 <= b < env.triedBuckets && 0 <= p < env.bucketSize && vvTried[b, p] != -1
      modifies this, vvNew, vvTried
      ensures V() == Ops.Evict(env, old(V()), (b, p), id)
    {
      hide Indexes, TriedTable, NewTable, RefCounts, Totals, Stamps, RefStates, AddrManState.ClearNew, NewSlot, Inv;
      ghost var v0 := V();
      Ops.TriedHolds(env, v0, (b, p), {}, {id});
      var out := vvTried[b, p];
      LeaveTried(b, p);
      UntryKeeps(env, v0, (b, p), {}, {id});
      Rehome(out, id);
    }

    /** Take an entry out of its tried slot and out of the counters. */
    method LeaveTried(b: int, p: int)
      requires Ready() && 0 <= b < env.triedBuckets && 0 <= p < env.bucketSize && vvTried[b, p] in mapInfo
      modifies this`mapInfo, this`nTried, this`counts, vvTried
      ensures V() == Untry(env, old(V()), (b, p))
    {
      hide Bump, GridShape;
      var out := vvTried[b, p];
      mapInfo := mapInfo[out := mapInfo[out].(fInTried := false)];
      Put(vvTried, b, p, -1);
      nTried := nTried - 1;
      counts := Bump(counts, NetOf(env, mapInfo[out]), 0, -1);
    }

    /** Enter an entry that was just taken out of tried into its home slot of the new table. */
    method Rehome(out: int, ghost id: int)
      requires Ready() && Inv(env, V(), {}, {id} + {out}) && id != out
      modifies this, vvNew
      ensures V() == Ops.Rehome(env, old(V()), out, id)
    {
      hide Indexes, TriedTable, NewTable, RefCounts, Totals, Stamps, RefStates, AddrManState.ClearNew, NewSlot, Inv;
      ghost var v1 := V();
      ghost var limbo := {id} + {out};
      Ops.InTransit(env, v1, out, {}, limbo);
      var home := NewSlot(env, mapInfo[out].service, mapInfo[out].source);
      Ops.Slots(env, v1, {}, limbo, mapInfo[out].service, mapInfo[out].source);
      Ops.ClearNewOnInv(env, v1, home, {}, limbo);
      Ops.NewHolds(env, v1, home, {}, limbo);
      assert home == (home.0, home.1);
      ClearNew(home.0, home.1);
      assert vvNew[home.0, home.1] == -1;
      ghost var v2 := V();
      Ops.InTransit(env, v2, out, {}, limbo);
      EnterNew(out, home.0, home.1);
    }

    /** An entry without references is counted and referenced from an empty new slot. */
    method EnterNew(id: int, b: int, p: int)
      requires Ready() && id in mapInfo && mapInfo[id].nRefCount == 0 && 0 <= b < env.newBuckets && 0 <= p < env.bucketSize
      modifies this`mapInfo, this`nNew, this`counts, vvNew
      ensures V() == Link(Recount(env, old(V()), id), id, (b, p))
    {
      hide Bump, GridShape;
      mapInfo := mapInfo[id := mapInfo[id].(nRefCount := 1)];
      Put(vvNew, b, p, id);
      nNew := nNew + 1;
      counts := Bump(counts, NetOf(env, mapInfo[id]), 1, 0);
    }

    /** Take an entry out of all new buckets and out of the counters. */
    method RemoveFromNew(id: int)
      requires Ready() && Inv(env, V(), {}, {}) && id in mapInfo && !mapInfo[id].fInTried
      modifies this`mapInfo, this`nNew, this`counts, vvNew
      ensures V() == Unlink(env, old(V()), id)
    {
      hide Inv, Bump;
      DropReferences(id);
      nNew, counts := nNew - 1, Bump(counts, NetOf(env, mapInfo[id]), -1, 0);
    }

    method DropReferences(id: int)
      requires Ready() && Inv(env, V(), {}, {}) && id in mapInfo && !mapInfo[id].fInTried
      modifies this`mapInfo, vvNew
      ensures mapInfo == Unlink(env, old(V()), id).mapInfo && GridOf(vvNew) == Unlink(env, old(V()), id).vvNew
    {
      hide Inv, Refs, NewPos, Unlink;
      ghost var v0 := V();
      RefsAreSlots(env, v0, id);
      UnlinkValues(env, v0, id);
      ghost var refs := Refs(env, v0.vvNew, mapInfo[id].service, id);
      forall b, p | 0 <= b < env.newBuckets && 0 <= p < env.bucketSize && vvNew[b, p] == id ensures b in refs && p == NewPos(env, mapInfo[id].service, b) {
        assert (b, p) in v0.vvNew && v0.vvNew[(b, p)] == id;
      }
      ClearReferences(id, refs);
      SameGrid(vvNew, Unlink(env, v0, id).vvNew);
    }

    /** The loop over the new buckets, which stops at the last reference. */
    method ClearReferences(id: int, ghost refs: set<int>)
      requires Ready() && id in mapInfo && mapInfo[id].nRefCount == |refs| && id != -1
      requires forall b :: b in refs ==> 0 <= b < env.newBuckets && vvNew[b, NewPos(env, mapInfo[id].service, b)] == id
      requires forall b, p :: 0 <= b < env.newBuckets && 0 <= p < env.bucketSize && vvNew[b, p] == id ==> b in refs && p == NewPos(env, mapInfo[id].service, b)
      modifies this`mapInfo, vvNew
      ensures mapInfo == old(mapInfo)[id := old(mapInfo)[id].(nRefCount := 0)]
      ensures forall b, p :: 0 <= b < env.newBuckets && 0 <= p < env.bucketSize ==>
                vvNew[b, p] == if old(vvNew[b, p]) == id then -1 else old(vvNew[b, p])
    {
      hide NewPos, NewBucket;
      ghost var left := refs;
      ghost var info := mapInfo[id];
      var startBucket := NewBucket(env, mapInfo[id].service, mapInfo[id].source);
      var n := 0;
      while n < env.newBuckets
        invariant 0 <= n <= env.newBuckets && left <= refs
        invariant forall i :: 0 <= i < n ==> Visit(startBucket, i, env.newBuckets) !in left
        invariant mapInfo == old(mapInfo)[id := info.(nRefCount := |left|)]
        invariant forall b, p :: 0 <= b < env.newBuckets && 0 <= p < env.bucketSize ==>
          vvNew[b, p] == if old(vvNew[b, p]) == id && b !in left then -1 else old(vvNew[b, p])
      {
        var bucket := Visit(startBucket, n, env.newBuckets);
        var pos := NewPos(env, mapInfo[id].service, bucket);
        if vvNew[bucket, pos] == id {
          assert bucket in left;
          vvNew[bucket, pos] := -1;
          mapInfo := mapInfo[id := mapInfo[id].(nRefCount := mapInfo[id].nRefCount - 1)];
          left := left - {bucket};
          assert mapInfo[id].nRefCount == |left|;
          if mapInfo[id].nRefCount == 0 { break; }
        }
        n := n + 1;
      }
      forall b | b in refs && n == env.newBuckets ensures b !in left {
        var i := if b >= startBucket then b - startBucket else b - startBucket + env.newBuckets;
        assert Visit(startBucket, i, env.newBuckets) == b;
      }
      assert |left| == 0;
    }

    /** Give an entry a reference from the bucket its source maps to, if the slot can be had. */
    method Place(id: int, source: NetAddr, now: int) returns (fInsert: bool)
      requires Ready() && id in mapInfo && !mapInfo[id].fInTried && mapInfo[id].nRefCount < NEW_BUCKETS_PER_ADDRESS
      requires Inv(env, V(), if mapInfo[id].nRefCount == 0 then {id} else {}, {})
      modifies this, vvNew
      ensures (V(), fInsert) == Ops.Place(env, old(V()), id, source, now)
    {
      hide Inv, AddrManState.ClearNew, AddrManState.Delete, NewSlot, Ops.Overwrites, RandomIndex;
      ghost var v0 := V();
      ghost var pending := if mapInfo[id].nRefCount == 0 then {id} else {};
      var k := NewSlot(env, mapInfo[id].service, source);
      Ops.Slots(env, v0, pending, {}, mapInfo[id].service, source);
      Ops.NewHolds(env, v0, k, pending, {});
      Ops.IndexOf(env, v0, pending, {});
      assert k == (k.0, k.1);
      fInsert := vvNew[k.0, k.1] == -1;
      if vvNew[k.0, k.1] != id {
        if !fInsert {
          fInsert := Ops.Overwrites(mapInfo[vvNew[k.0, k.1]], mapInfo[id], now);
        }
        if fInsert {
          Ops.ClearNewOnInv(env, v0, k, pending, {});
          ClearNew(k.0, k.1);
          Reference(id, k.0, k.1);
        } else if mapInfo[id].nRefCount == 0 {
          Delete(id);
        }
      } else {
        fInsert := false;
      }
    }

    method Reference(id: int, b: int, p: int)
      requires Ready() && id in mapInfo && 0 <= b < env.newBuckets && 0 <= p < env.bucketSize
      modifies this`mapInfo, vvNew
      ensures V() == Link(old(V()), id, (b, p))
    {
      hide Bump, GridShape;
      mapInfo := mapInfo[id := mapInfo[id].(nRefCount := mapInfo[id].nRefCount + 1)];
      Put(vvNew, b, p, id);
    }

    /** Rewrite the statistics of one entry. */
    method SetInfo(id: int, i: AddrInfo)
      requires id in mapInfo
      modifies this`mapInfo
      ensures V() == Touch(old(V()), id, i)
    {
      mapInfo := mapInfo[id := i];
    }

    method AddSingle(a: Address, source: NetAddr, timePenalty: int, now: (int, int), draw: nat) returns (added: bool)
      requires Ready() && Inv(env, V(), {}, {})
      modifies this, vvNew
      ensures (V(), added) == Ops.AddSingle(env, old(V()), a, source, timePenalty, now, draw)
    {
      hide Inv, Ops.AddSingle;
      if a.service in mapAddr {
        added := AddKnown(a, source, timePenalty, now, draw);
      } else {
        added := AddUnknown(a, source, timePenalty, now, draw);
      }
    }

    /** AddSingle for an address that already has an entry: refresh it, and perhaps reference it once more. */
    method AddKnown(a: Address, source: NetAddr, timePenalty: int, now: (int, int), draw: nat) returns (added: bool)
      requires Ready() && Inv(env, V(), {}, {}) && a.service in mapAddr
      modifies this, vvNew
      ensures (V(), added) == Ops.AddSingle(env, old(V()), a, source, timePenalty, now, draw)
    {
      hide Inv, Ops.Place, NewSlot, Ops.NothingNew, Ops.Refreshed;
      ghost var v0 := V();
      if !env.isRoutable(a.service.ip) { return false; }
      var penalty := if a.service.ip == source then 0 else timePenalty;
      var id := mapAddr[a.service];
      Ops.Found(env, v0, a.service);
      ghost var w := Ops.Refresh(env, v0, a, penalty, now.0);
      SetInfo(id, Ops.Refreshed(mapInfo[id], a, penalty, now.0));
      assert V() == w;
      KnownEntry(env, v0, a, penalty, now.0);
      if Ops.NothingNew(mapInfo[id], a, draw) { return false; }
      RoomLeft(mapInfo[id], a, draw);
      added := Place(id, source, now.1);
    }

    /** AddSingle for an address without an entry. */
    method AddUnknown(a: Address, source: NetAddr, timePenalty: int, now: (int, int), draw: nat) returns (added: bool)
      requires Ready() && Inv(env, V(), {}, {}) && a.service !in mapAddr
      modifies this, vvNew
      ensures (V(), added) == Ops.AddSingle(env, old(V()), a, source, timePenalty, now, draw)
    {
      hide Inv, Ops.Place, NewSlot;
      ghost var v0 := V();
      if !env.isRoutable(a.service.ip) { return false; }
      var penalty := if a.service.ip == source then 0 else timePenalty;
      ghost var w := Ops.CreatePenalised(env, v0, a, source, penalty);
      var id := Create(a, source);
      SetInfo(id, mapInfo[id].(nTime := Max(0, mapInfo[id].nTime - penalty)));
      assert V() == w;
      added := Place(id, source, now.1);
    }

    /** Add_: returns whether any address was added; now(i) are the two times read for address i. */
    method Add(addrs: seq<Address>, source: NetAddr, penalty: int, now: int -> (int, int), draw: int -> nat) returns (any: bool)
      requires Valid()
      modifies this, vvNew
      ensures Valid() && V() == AddAll(env, old(V()), addrs, source, penalty, now, draw).0
      ensures any <==> AddAll(env, old(V()), addrs, source, penalty, now, draw).1 > 0
    {
      hide Inv, Collisions, Ops.AddSingle;
      ghost var v0 := V();
      var added := 0;
      assert addrs[..0] == [];
      for i := 0 to |addrs|
        invariant Ready() && (V(), added) == AddAll(env, v0, addrs[..i], source, penalty, now, draw)
      {
        assert addrs[..i + 1][..i] == addrs[..i];
        var b := AddSingle(addrs[i], source, penalty, now(i), draw(i));
        added := added + if b then 1 else 0;
      }
      assert addrs[..|addrs|] == addrs;
      any := added > 0;
    }

    /** Good_: record a successful connection and move the entry to tried, or note the collision. */
    method MarkGood(s: Service, testBeforeEvict: bool, time: int) returns (moved: bool)
      requires Ready() && Inv(env, V(), {}, {}) && time > 0
      modifies this, vvNew, vvTried
      ensures (V(), moved) == Ops.Good(env, old(V()), s, testBeforeEvict, time)
    {
      hide Inv, Ops.MakeTried, TriedSlot;
      ghost var v0 := V();
      lastGood := time;
      if s !in mapAddr { return false; }
      var id := mapAddr[s];
      Ops.Found(env, v0, s);
      ghost var w := Ops.MarkGood(env, v0, s, time);
      SetInfo(id, Ops.WithSuccess(mapInfo[id], time));
      assert V() == w;
      if mapInfo[id].fInTried { return false; }
      assert mapInfo[id].nRefCount > 0;
      Ops.Slots(env, w, {}, {}, s, s.ip);
      var k := TriedSlot(env, s);
      assert k == (k.0, k.1);
      if testBeforeEvict && vvTried[k.0, k.1] != -1 {
        if |collisions| < SET_TRIED_COLLISION_SIZE {
          collisions := collisions + {id};
        }
        return false;
      } else {
        MakeTried(id);
        return true;
      }
    }

    method Good(s: Service, time: int) returns (moved: bool)
      requires Valid() && time > 0
      modifies this, vvNew, vvTried
      ensures Valid() && (V(), moved) == Ops.Good(env, old(V()), s, true, time)
    {
      hide Inv, Ops.Good, Collisions;
      Ops.GoodKeeps(env, V(), s, time);
      moved := MarkGood(s, true, time);
    }

    method Attempt(s: Service, countFailure: bool, time: int)
      requires Valid() && time >= 0
      modifies this
      ensures Valid() && V() == Ops.Attempt(env, old(V()), s, countFailure, time)
    {
      hide Inv, Collisions;
      ghost var v0 := V();
      Ops.UpdateKeeps(env, v0, s, i => Ops.Attempted(i, countFailure, v0.lastGood, time));
      if s in mapAddr {
        Ops.Found(env, v0, s);
        var info := mapInfo[mapAddr[s]].(lastTry := time);
        if countFailure && info.lastCountAttempt < lastGood {
          info := info.(lastCountAttempt := time, nAttempts := info.nAttempts + 1);
        }
        SetInfo(mapAddr[s], info);
      }
    }

    method Connected(s: Service, time: int)
      requires Valid()
      modifies this
      ensures Valid() && V() == Ops.Connected(env, old(V()), s, time)
    {
      hide Inv, Collisions;
      ghost var v0 := V();
      Ops.UpdateKeeps(env, v0, s, i => Ops.Seen(i, time));
      if s in mapAddr {
        Ops.Found(env, v0, s);
        var id := mapAddr[s];
        SetInfo(id, Ops.Seen(mapInfo[id], time));
      }
    }

    method SetServices(s: Service, services: bv64)
      requires Valid()
      modifies this
      ensures Valid() && V() == Ops.SetServices(env, old(V()), s, services)
    {
      hide Inv, Collisions;
      ghost var v0 := V();
      Ops.UpdateKeeps(env, v0, s, (i: AddrInfo) => i.(nServices := services));
      if s in mapAddr {
        Ops.Found(env, v0, s);
        var id := mapAddr[s];
        SetInfo(id, mapInfo[id].(nServices := services));
      }
    }

    /** A random selection of good addresses; only the order of vRandom changes. */
    method GetAddr(maxAddresses: nat, maxPct: nat, filter: NetFilter, now: int, draw: int -> nat) returns (addrs: seq<Address>)
      requires Valid()
      modifies this`mapInfo, this`vRandom
      ensures Valid()
      ensures var (w, ids) := Pick(env, old(V()), 0, Limit(|old(vRandom)|, maxAddresses, maxPct), filter, now, draw);
        V() == w && Announces(old(mapInfo), ids, addrs)
    {
      hide Inv, Collisions, Shuffled, Pick, Limit, Announces;
      ghost var v0 := V();
      ghost var ids;
      addrs, ids := PickGood(Limit(|vRandom|, maxAddresses, maxPct), filter, now, draw);
      ShuffledConsistent(env, v0, V());
    }

    /** The shuffling loop of GetAddr_. */
    method PickGood(nNodes: nat, filter: NetFilter, now: int, draw: int -> nat) returns (addrs: seq<Address>, ghost ids: seq<int>)
      requires Inv(env, V(), {}, {})
      modifies this`mapInfo, this`vRandom
      ensures (V(), ids) == Pick(env, old(V()), 0, nNodes, filter, now, draw) && Announces(old(mapInfo), ids, addrs)
    {
      hide Inv, Collisions, Shuffled, Drawn, Wanted, OnlyPositions, Pick, Swapped, AddrManState.SwapRandom, StillToPick, Announces;
      ghost var target := Pick(env, V(), 0, nNodes, filter, now, draw);
      addrs, ids := [], [];
      var n := 0;
      PickStart(env, V(), nNodes, filter, now, draw);
      AnnounceNone(mapInfo);
      while n < |vRandom| && |addrs| < nNodes
        invariant n <= |vRandom| && |ids| == |addrs| <= nNodes && Inv(env, V(), {}, {})
        invariant StillToPick(env, V(), n, nNodes - |ids|, filter, now, draw, ids, target)
        invariant OnlyPositions(old(mapInfo), mapInfo) && Announces(old(mapInfo), ids, addrs)
      {
        var j := Drawn(n, |vRandom|, draw(n));
        InOrder(env, V(), n, j);
        PickStep(env, V(), n, nNodes - |ids|, filter, now, draw, ids, target);
        StillInPlace(env, old(mapInfo), V(), n, j);
        SwapRandom(n, j);
        var id := vRandom[n];
        if Wanted(env, mapInfo[id], filter, now) {
          AnnounceOne(old(mapInfo), mapInfo, ids, addrs, id);
          addrs := addrs + [AddressOf(mapInfo[id])];
          ids := ids + [id];
        }
        n := n + 1;
      }
      PickStop(env, V(), n, nNodes - |ids|, filter, now, draw, ids, target);
    }

    /** ResolveCollisions_: visit the waiting ids in ascending order; clock(id) is the time read for id. */
    method ResolveCollisions(clock: int -> int)
      requires Valid() && forall t :: clock(t) > 0
      modifies this, vvNew, vvTried
      ensures Valid() && V() == Resolve(env, old(V()), old(collisions), clock)
    {
      hide Inv, Collisions, Ops.ResolveOne, Persists, Ops.Evolves;
      ghost var target := Resolve(env, V(), collisions, clock);
      var todo := collisions;
      while todo != {}
        invariant Valid() && todo <= collisions
        invariant target == Resolve(env, V(), todo, clock)
        decreases |todo|
      {
        LeastExists(todo);
        var id :| id in todo && forall y :: y in todo ==> id <= y;
        assert id == Least(todo);
        Ops.ResolveOneKeeps(env, V(), id, clock(id));
        ResolveWaiting(id, clock(id));
        todo := todo - {id};
      }
    }

    /** One waiting id: keep it, give it up, or let it replace the entry that holds its tried slot. */
    method ResolveWaiting(id: int, now: int)
      requires Ready() && Inv(env, V(), {}, {}) && now > 0
      modifies this, vvNew, vvTried
      ensures V() == Ops.ResolveOne(env, old(V()), id, now)
    {
      hide Inv, Ops.Good, TriedSlot, Ops.Judge;
      var eraseCollision := true;
      if id in mapInfo {
        var verdict := JudgeWaiting(id, now);
        if verdict == Ops.Replace {
          var _ := MarkGood(mapInfo[id].service, false, now);
        }
        eraseCollision := verdict != Ops.KeepWaiting;
      }
      if eraseCollision {
        collisions := collisions - {id};
      }
    }

    /** The tests ResolveCollisions_ makes on a waiting entry and the entry in its way. */
    method JudgeWaiting(id: int, now: int) returns (verdict: Ops.Verdict)
      requires Ready() && Inv(env, V(), {}, {}) && id in mapInfo
      ensures verdict == Ops.Judge(env.isValid(mapInfo[id].service.ip), Ops.HolderOf(V(), TriedSlot(env, mapInfo[id].service)), mapInfo[id], now)
    {
      hide Inv, TriedSlot;
      var info := mapInfo[id];
      var k := TriedSlot(env, info.service);
      Ops.Slots(env, V(), {}, {}, info.service, info.source);
      assert k == (k.0, k.1);
      SlotHolder(env, V(), k);
      if !env.isValid(info.service.ip) { return Ops.GiveUp; }
      if vvTried[k.0, k.1] == -1 { return Ops.Replace; }
      var holder := mapInfo[vvTried[k.0, k.1]];
      if now - holder.lastSuccess < REPLACEMENT { return Ops.GiveUp; }
      if now - holder.lastTry < REPLACEMENT {
        // The holder gets at least 60 seconds to connect.
        if now - holder.lastTry > 60 { return Ops.Replace; }
      } else if now - info.lastSuccess > TEST_WINDOW {
        return Ops.Replace;
      }
      return Ops.KeepWaiting;
    }

    /** The holder of the slot a randomly picked waiting id collides with. */
    method SelectTriedCollision(pick: int) returns (r: Tested)
      requires Valid() && (collisions != {} ==> pick in collisions)
      modifies this`collisions
      ensures Valid() && (V(), r) == AddrManRuns.SelectTriedCollision(env, old(V()), pick)
    {
      hide Indexes, TriedTable, NewTable, RefCounts, Totals, Stamps, RefStates, TriedSlot, Collisions;
      ghost var target := AddrManRuns.SelectTriedCollision(env, V(), pick);
      if |collisions| == 0 { return NoneTested; }
      if pick !in mapInfo {
        collisions := collisions - {pick};
        assert V() == target.0;
        return NoneTested;
      }
      Ops.Waiting(env, V(), pick);
      var k := TriedSlot(env, mapInfo[pick].service);
      assert k == (k.0, k.1);
      return TestThis(mapInfo[vvTried[k.0, k.1]]);
    }

    // ----- saving and loading

    /** Serialize, walking the entries in some order; the internal assertions on the counters hold. */
    method Serialize(order: seq<int>, asmap: int) returns (d: Disk.Disk)
      requires Valid() && Disk.Lists(order, mapInfo)
      ensures d == Trip.SaveOf(env, V(), order, asmap)
    {
      hide Inv, Collisions, Disk.Chosen, Disk.Numbers, Disk.Filled, Disk.StoreAll;
      Trip.ChosenCounts(env, V(), order);
      Trip.KnownTable(env, V());
      var newInfos, unk := StoreNew(order);
      var triedInfos := StoreTried(order);
      var buckets := StoreBuckets(order, unk);
      d := Disk.Disk(newInfos, triedInfos, buckets, asmap);
    }

    method StoreNew(order: seq<int>) returns (infos: seq<Disk.Stored>, unk: map<int, int>)
      requires (forall i :: 0 <= i < |order| ==> order[i] in mapInfo) && |Disk.Chosen(mapInfo, order, false)| == nNew
      ensures infos == Disk.StoreAll(mapInfo, Disk.Chosen(mapInfo, order, false)) && unk == Disk.Numbers(mapInfo, order)
    {
      infos, unk := [], map[];
      for i := 0 to |order|
        invariant infos == Disk.StoreAll(mapInfo, Disk.Chosen(mapInfo, order[..i], false)) && unk == Disk.Numbers(mapInfo, order[..i])
      {
        assert order[..i + 1][..i] == order[..i];
        Trip.ChosenGrows(mapInfo, order, false, i + 1);
        unk := unk[order[i] := |infos|];
        var info := mapInfo[order[i]];
        if info.nRefCount != 0 {
          assert |infos| != nNew;
          infos := infos + [Disk.Store(info)];
        }
      }
      assert order[..|order|] == order;
    }

    method StoreTried(order: seq<int>) returns (infos: seq<Disk.Stored>)
      requires (forall i :: 0 <= i < |order| ==> order[i] in mapInfo) && |Disk.Chosen(mapInfo, order, true)| == nTried
      ensures infos == Disk.StoreAll(mapInfo, Disk.Chosen(mapInfo, order, true))
    {
      hide Disk.Chosen, Disk.StoreAll;
      infos := [];
      assert order[..0] == [];
      NoneChosen(mapInfo, true);
      for i := 0 to |order|
        invariant infos == Disk.StoreAll(mapInfo, Disk.Chosen(mapInfo, order[..i], true))
      {
        Disk.ChosenNext(mapInfo, order, true, i);
        Trip.ChosenGrows(mapInfo, order, true, i + 1);
        var info := mapInfo[order[i]];
        if info.fInTried {
          assert |infos| != nTried;
          infos := infos + [Disk.Store(info)];
        }
      }
      assert order[..|order|] == order;
    }

    method StoreBuckets(order: seq<int>, unk: map<int, int>) returns (buckets: seq<seq<int>>)
      requires Ready() && Disk.Lists(order, mapInfo) && Disk.TableKnown(env, V()) && unk == Disk.Numbers(mapInfo, order)
      ensures |buckets| == env.newBuckets
      ensures forall b :: 0 <= b < env.newBuckets ==> buckets[b] == Disk.NumbersAt(GridOf(vvNew), unk, Disk.Filled(GridOf(vvNew), b, env.bucketSize))
    {
      hide Disk.Numbers, Disk.Filled, Disk.NumbersAt;
      buckets := [];
      for bucket := 0 to env.newBuckets
        invariant |buckets| == bucket
        invariant forall b :: 0 <= b < bucket ==> buckets[b] == Disk.NumbersAt(GridOf(vvNew), unk, Disk.Filled(GridOf(vvNew), b, env.bucketSize))
      {
        var list := StoreBucket(bucket, unk);
        buckets := buckets + [list];
      }
    }

    /** The numbers of the entries in one bucket. */
    method StoreBucket(bucket: int, unk: map<int, int>) returns (list: seq<int>)
      requires Ready() && 0 <= bucket < env.newBuckets
      requires forall k :: k in GridOf(vvNew) && GridOf(vvNew)[k] != -1 ==> GridOf(vvNew)[k] in unk
      ensures list == Disk.NumbersAt(GridOf(vvNew), unk, Disk.Filled(GridOf(vvNew), bucket, env.bucketSize))
    {
      hide Disk.Filled, Disk.NumbersAt;
      ghost var t := GridOf(vvNew);
      list := [];
      FilledNone(t, unk, bucket);
      for i := 0 to env.bucketSize
        invariant list == Disk.NumbersAt(t, unk, Disk.Filled(t, bucket, i))
      {
        FilledNext(t, unk, bucket, i);
        assert t[(bucket, i)] == vvNew[bucket, i];
        if vvNew[bucket, i] != -1 {
          list := list + [unk[vvNew[bucket, i]]];
        }
      }
    }

    /** Unserialize into an empty manager; fails on sizes out of bounds or when the final check does. */
    method Unserialize(d: Disk.Disk, asmap: int, keyIsNull: bool) returns (ok: bool)
      requires Ready() && V() == Empty(env)
      modifies this, vvNew, vvTried
      ensures ok <==>
        && |d.newInfos| <= env.newBuckets * env.bucketSize && |d.triedInfos| <= env.triedBuckets * env.bucketSize
        && CheckPasses(env, Disk.Load(env, d, asmap)) && !keyIsNull
      ensures ok ==> V() == Disk.Load(env, d, asmap)
      ensures ok && Loads.AllRoutable(env, d.newInfos) && Loads.AllRoutable(env, d.triedInfos) ==> Valid()
    {
      hide Consistent, Loads.AllRoutable, CheckPasses, Disk.LoadNew, Disk.LoadTried, Disk.LoadRefs, Disk.Entries, Disk.Prune, Disk.Loading;
      if |d.newInfos| > env.newBuckets * env.bucketSize { return false; }
      if |d.triedInfos| > env.triedBuckets * env.bucketSize { return false; }
      ReadNew(d);
      ReadTried(d);
      var entries := ReadBuckets(d);
      var restore := |d.buckets| == env.newBuckets && d.asmap == asmap;
      Disk.EntriesInRange(d.buckets, |d.newInfos|);
      ReadRefs(entries, restore);
      PruneUnreferenced();
      assert V() == Disk.Load(env, d, asmap);
      NoNegativeId(env, V());
      var code := CheckAddrman(keyIsNull);
      if code == 0 && Loads.AllRoutable(env, d.newInfos) && Loads.AllRoutable(env, d.triedInfos) {
        Loads.RoutableLoads(env, d, asmap);
      }
      return code == 0;
    }

    method ReadNew(d: Disk.Disk)
      requires Ready() && V() == Empty(env)
      modifies this, vvTried
      ensures V() == Disk.LoadNew(env, d.newInfos, |d.newInfos|)
    {
      hide Disk.Enter, Disk.Loading;
      for n := 0 to |d.newInfos|
        invariant V() == Disk.LoadNew(env, d.newInfos, n)
      {
        EnterEntry(d.newInfos[n], false);
      }
    }

    method ReadTried(d: Disk.Disk)
      requires Ready() && Disk.Loading(env, V())
      modifies this, vvTried
      ensures V() == Disk.LoadTried(env, old(V()), d.triedInfos, |d.triedInfos|)
    {
      hide Disk.Enter, Disk.Loading, TriedSlot;
      for n := 0 to |d.triedInfos|
        invariant V() == Disk.LoadTried(env, old(V()), d.triedInfos, n)
      {
        var info := d.triedInfos[n];
        var k := TriedSlot(env, info.service);
        Disk.TriedSlotInRange(env, info.service);
        assert GridOf(vvTried)[(k.0, k.1)] == vvTried[k.0, k.1];
        assert k == (k.0, k.1);
        if env.isValid(info.service.ip) && vvTried[k.0, k.1] == -1 {
          EnterEntry(info, true);
        }
      }
    }

    method EnterEntry(s: Disk.Stored, tried: bool)
      requires Ready()
      modifies this, vvTried
      ensures V() == Disk.Enter(env, old(V()), s, tried)
    {
      hide Bump, TriedSlot, Disk.Restored, GridShape;
      var id := nIdCount;
      if tried { FillTried(s.service, id); }
      EnterInfo(Disk.Restored(s, |vRandom|, tried), s.service);
      if tried { nTried := nTried + 1; } else { nNew := nNew + 1; }
      counts := Bump(counts, env.networkOf(s.service.ip), Disk.One(!tried), Disk.One(tried));
    }

    method FillTried(s: Service, id: int)
      requires Ready()
      modifies vvTried
      ensures GridOf(vvTried) == old(GridOf(vvTried))[TriedSlot(env, s) := id]
    {
      hide TriedSlot;
      var k := TriedSlot(env, s);
      Disk.TriedSlotInRange(env, s);
      assert k == (k.0, k.1);
      Put(vvTried, k.0, k.1, id);
    }

    method EnterInfo(info: AddrInfo, s: Service)
      modifies `nIdCount, `mapInfo, `mapAddr, `vRandom
      ensures nIdCount == old(nIdCount) + 1 && mapInfo == old(mapInfo)[old(nIdCount) := info]
      ensures mapAddr == old(mapAddr)[s := old(nIdCount)] && vRandom == old(vRandom) + [old(nIdCount)]
    {
      mapInfo := mapInfo[nIdCount := info];
      mapAddr := mapAddr[s := nIdCount];
      vRandom := vRandom + [nIdCount];
      nIdCount := nIdCount + 1;
    }

    /** The references of all buckets, without the ones to entries that are not there. */
    method ReadBuckets(d: Disk.Disk) returns (entries: seq<(int, int)>)
      ensures entries == Disk.Entries(d.buckets, |d.newInfos|)
    {
      entries := [];
      for bucket := 0 to |d.buckets|
        invariant entries == Disk.Entries(d.buckets[..bucket], |d.newInfos|)
      {
        var list := d.buckets[bucket];
        ghost var before := entries;
        for n := 0 to |list|
          invariant entries == before + Disk.InBucket(bucket, list[..n], |d.newInfos|)
        {
          assert list[..n + 1][..n] == list[..n];
          if 0 <= list[n] < |d.newInfos| {
            entries := entries + [(bucket, list[n])];
          }
        }
        assert list[..|list|] == list;
        assert d.buckets[..bucket + 1][..bucket] == d.buckets[..bucket];
      }
      assert d.buckets[..|d.buckets|] == d.buckets;
    }

    method ReadRefs(entries: seq<(int, int)>, restore: bool)
      requires Ready() && Disk.Loading(env, V())
      requires restore ==> forall i :: 0 <= i < |entries| ==> 0 <= entries[i].0 < env.newBuckets
      modifies this`mapInfo, vvNew
      ensures V() == Disk.LoadRefs(env, old(V()), entries, |entries|, restore)
    {
      hide Disk.Loading, Disk.LoadRef;
      for n := 0 to |entries|
        invariant V() == Disk.LoadRefs(env, old(V()), entries, n, restore)
      {
        ReadRef(entries[n].0, entries[n].1, restore);
      }
    }

    method ReadRef(b: int, id: int, restore: bool)
      requires Ready() && Disk.Loading(env, V()) && (restore ==> 0 <= b < env.newBuckets)
      modifies this`mapInfo, vvNew
      ensures V() == Disk.LoadRef(env, old(V()), b, id, restore)
    {
      hide NewPos, NewSlot, Disk.Loading;
      if id !in mapInfo || !env.isValid(mapInfo[id].service.ip) { return; }
      if mapInfo[id].nRefCount >= NEW_BUCKETS_PER_ADDRESS { return; }
      var info := mapInfo[id];
      var p := NewPos(env, info.service, b);
      var k := NewSlot(env, info.service, info.source);
      NewSlotRange(env, info.service, info.source, b);
      assert k == (k.0, k.1);
      if restore && vvNew[b, p] == -1 {
        EnterRef(b, p, id);
      } else if vvNew[k.0, k.1] == -1 {
        EnterRef(k.0, k.1, id);
      }
    }

    method EnterRef(b: int, p: int, id: int)
      requires Ready() && id in mapInfo && 0 <= b < env.newBuckets && 0 <= p < env.bucketSize
      modifies this`mapInfo, vvNew
      ensures V() == Link(old(V()), id, (b, p))
    {
      Put(vvNew, b, p, id);
      mapInfo := mapInfo[id := mapInfo[id].(nRefCount := mapInfo[id].nRefCount + 1)];
    }

    method PruneUnreferenced()
      requires Ready() && Disk.Loading(env, V())
      modifies this
      ensures V() == Disk.Prune(env, old(V()), old(nIdCount))
    {
      hide Disk.Loading, AddrManState.Delete, Disk.Prune;
      ghost var v0 := V();
      Disk.LoadingRandom(env, v0);
      var last := nIdCount;
      var id := 0;
      Disk.PruneNone(env, v0, 0);
      while id < last
        invariant 0 <= id && (id <= last || last < 0) && Disk.Loading(env, V()) && V() == Disk.Prune(env, v0, id)
      {
        Disk.PruneNext(env, v0, id);
        if id in mapInfo && !mapInfo[id].fInTried && mapInfo[id].nRefCount == 0 {
          Disk.LoadingRandom(env, V());
          Delete(id);
        }
        id := id + 1;
      }
      Disk.PruneCount(env, v0);
    }

    /** CheckAddrman: 0, or the code of the first inconsistency met. */
    method CheckAddrman(keyIsNull: bool) returns (code: int)
      requires Ready() && -1 !in mapInfo
      ensures code == 0 <==> CheckPasses(env, V()) && !keyIsNull
    {
      hide TriedTable, NewTable, RefCounts, CountersOk, EntryOk, NetCounts;
      if |vRandom| != nTried + nNew { return -7; }
      var setTried, mapNew, local;
      code, setTried, mapNew, local := CheckEntries(env, mapInfo, mapAddr, vRandom);
      if code != 0 { return; }
      AllVisited(mapInfo);
      EntryCounts(mapInfo, mapAddr, vRandom);
      assert |mapNew.Keys| == |mapNew| && mapNew.Keys == NewIds(mapInfo, {});
      if |setTried| != nTried { return -9; }
      if |mapNew| != nNew { return -10; }
      code := CheckTried(env, mapInfo, vvTried, setTried);
      if code != 0 { return; }
      code := CheckNew(env, mapInfo, vvNew, mapNew);
      if code != 0 { return; }
      if keyIsNull { return -16; }
      code := CheckCounters(env, mapInfo, local, counts);
    }
  }

  lemma NoneChosen(m: map<int, AddrInfo>, tried: bool)
    ensures Disk.StoreAll(m, Disk.Chosen(m, [], tried)) == []
  {
  }

  lemma FilledNone(t: Grid, unk: map<int, int>, b: int)
    ensures Disk.NumbersAt(t, unk, Disk.Filled(t, b, 0)) == []
  {
  }

  lemma FilledNext(t: Grid, unk: map<int, int>, b: int, i: nat)
    requires (forall j :: 0 <= j <= i ==> (b, j) in t) && forall k :: k in t && t[k] != -1 ==> t[k] in unk
    ensures Disk.NumbersAt(t, unk, Disk.Filled(t, b, i + 1)) ==
      Disk.NumbersAt(t, unk, Disk.Filled(t, b, i)) + if t[(b, i)] != -1 then [unk[t[(b, i)]]] else []
  {
  }

  lemma AllVisited(m: map<int, AddrInfo>)
    ensures Done(m, {}) == m
  {
  }

  lemma EntryCounts(m: map<int, AddrInfo>, a: map<Service, int>, r: seq<int>)
    requires EntriesOk(m, a, r)
    ensures forall id :: id in m ==> if m[id].fInTried then m[id].nRefCount == 0 else m[id].nRefCount > 0
  {
  }

  lemma SlotHolder(e: Env, v: View, k: Slot)
    requires Inv(e, v, {}, {}) && k in v.vvTried
    ensures v.vvTried[k] != -1 ==> v.vvTried[k] in v.mapInfo
    ensures v.vvTried[k] == -1 ==> -1 !in v.mapInfo
  {
  }

  /** What has been picked and what is still to be picked from here make up the whole selection. */
  ghost predicate StillToPick(e: Env, v: View, n: nat, limit: nat, filter: NetFilter, now: int, draw: int -> nat,
                              ids: seq<int>, target: (View, seq<int>))
    requires Inv(e, v, {}, {})
  {
    var rest := Pick(e, v, n, limit, filter, now, draw);
    target.0 == rest.0 && target.1 == ids + rest.1
  }

  function AddressOf(i: AddrInfo): Address { Address(i.service, i.nTime, i.nServices) }

  /** The addresses of some entries, in order. */
  ghost predicate Announces(m: map<int, AddrInfo>, ids: seq<int>, addrs: seq<Address>) {
    |addrs| == |ids| && forall i :: 0 <= i < |ids| ==> ids[i] in m && addrs[i] == AddressOf(m[ids[i]])
  }

  lemma AnnounceNone(m: map<int, AddrInfo>)
    ensures Announces(m, [], []) && OnlyPositions(m, m)
  {
  }

  lemma AnnounceOne(m: map<int, AddrInfo>, m': map<int, AddrInfo>, ids: seq<int>, addrs: seq<Address>, id: int)
    requires Announces(m, ids, addrs) && OnlyPositions(m, m') && id in m'
    ensures |ids| == |addrs| && Announces(m, ids + [id], addrs + [AddressOf(m'[id])])
  {
  }

  lemma StillInPlace(e: Env, m: map<int, AddrInfo>, v: View, i: nat, j: nat)
    requires Inv(e, v, {}, {}) && i <= j < |v.vRandom| && OnlyPositions(m, v.mapInfo)
    requires v.vRandom[i] in v.mapInfo && v.vRandom[j] in v.mapInfo
    ensures OnlyPositions(m, AddrManState.SwapRandom(v, i, j).mapInfo)
  {
    hide Inv;
    Ops.IndexOf(e, v, {}, {});
    SwapShuffles(v, i, j);
  }

  lemma PickStart(e: Env, v: View, limit: nat, filter: NetFilter, now: int, draw: int -> nat)
    requires Inv(e, v, {}, {})
    ensures StillToPick(e, v, 0, limit, filter, now, draw, [], Pick(e, v, 0, limit, filter, now, draw))
  {
    hide Inv, Pick;
    var rest := Pick(e, v, 0, limit, filter, now, draw);
    assert [] + rest.1 == rest.1;
  }

  lemma PickStop(e: Env, v: View, n: nat, limit: nat, filter: NetFilter, now: int, draw: int -> nat,
                 ids: seq<int>, target: (View, seq<int>))
    requires Inv(e, v, {}, {}) && (n >= |v.vRandom| || limit == 0) && StillToPick(e, v, n, limit, filter, now, draw, ids, target)
    ensures target == (v, ids)
  {
    hide Inv;
    assert Pick(e, v, n, limit, filter, now, draw) == (v, []);
    assert ids + [] == ids;
  }

  lemma PickStep(e: Env, v: View, n: nat, limit: nat, filter: NetFilter, now: int, draw: int -> nat,
                 ids: seq<int>, target: (View, seq<int>))
    requires Inv(e, v, {}, {}) && n < |v.vRandom| && limit > 0 && StillToPick(e, v, n, limit, filter, now, draw, ids, target)
    requires var j := Drawn(n, |v.vRandom|, draw(n)); v.vRandom[n] in v.mapInfo && v.vRandom[j] in v.mapInfo
    ensures var w := AddrManState.SwapRandom(v, n, Drawn(n, |v.vRandom|, draw(n)));
      && Inv(e, w, {}, {}) && |w.vRandom| == |v.vRandom| && w.vRandom[n] in w.mapInfo
      && if Wanted(e, w.mapInfo[w.vRandom[n]], filter, now)
         then StillToPick(e, w, n + 1, limit - 1, filter, now, draw, ids + [w.vRandom[n]], target)
         else StillToPick(e, w, n + 1, limit, filter, now, draw, ids, target)
  {
    hide Inv, Drawn, Wanted, OnlyPositions, AddrManState.SwapRandom;
    var w := Swapped(e, v, n, Drawn(n, |v.vRandom|, draw(n)));
    var wanted := Wanted(e, w.mapInfo[w.vRandom[n]], filter, now);
    var next := Pick(e, w, n + 1, if wanted then limit - 1 else limit, filter, now, draw);
    assert ids + ([w.vRandom[n]] + next.1) == (ids + [w.vRandom[n]]) + next.1;
  }

  lemma InOrder(e: Env, v: View, i: nat, j: nat)
    requires Inv(e, v, {}, {}) && i <= j < |v.vRandom|
    ensures v.vRandom[i] in v.mapInfo && v.vRandom[j] in v.mapInfo && (i != j ==> v.vRandom[i] != v.vRandom[j])
  {
    hide TriedTable, NewTable, RefCounts, Totals, Stamps, RefStates, AddrIndex;
  }

  lemma KnownEntry(e: Env, v: View, a: Address, penalty: int, now: int)
    requires Inv(e, v, {}, {}) && a.service in v.mapAddr
    ensures v.mapAddr[a.service] in v.mapInfo
    ensures var i := Ops.Refreshed(v.mapInfo[v.mapAddr[a.service]], a, penalty, now);
      i.fInTried || 1 <= i.nRefCount <= NEW_BUCKETS_PER_ADDRESS
  {
    hide Inv;
    Ops.Found(e, v, a.service);
  }

  lemma RoomLeft(i: AddrInfo, a: Address, draw: nat)
    requires (i.fInTried || 1 <= i.nRefCount <= NEW_BUCKETS_PER_ADDRESS) && !Ops.NothingNew(i, a, draw)
    ensures !i.fInTried && 1 <= i.nRefCount < NEW_BUCKETS_PER_ADDRESS
  {
  }

  /** The i-th bucket of a cyclic walk. */
  function Visit(start: int, i: int, n: int): (r: int)
    requires 0 <= start < n && 0 <= i
    ensures 0 <= r < n
    ensures start + i < n ==> r == start + i
    ensures n <= start + i < 2 * n ==> r == start + i - n
  {
    (start + i) % n
  }

  lemma UnlinkValues(e: Env, v: View, id: int)
    requires id in v.mapInfo && GridShape(v.vvNew, e.newBuckets, e.bucketSize)
    ensures var w := Unlink(e, v, id);
      && w.mapInfo == v.mapInfo[id := v.mapInfo[id].(nRefCount := 0)] && GridShape(w.vvNew, e.newBuckets, e.bucketSize)
      && forall b, p :: 0 <= b < e.newBuckets && 0 <= p < e.bucketSize ==>
           w.vvNew[(b, p)] == if v.vvNew[(b, p)] == id then -1 else v.vvNew[(b, p)]
  {
    hide Bump;
    assert Unlink(e, v, id).vvNew.Keys == v.vvNew.Keys;
  }

  lemma RefsAreSlots(e: Env, v: View, id: int)
    requires Inv(e, v, {}, {}) && id in v.mapInfo && !v.mapInfo[id].fInTried
    ensures id != -1
    ensures v.mapInfo[id].nRefCount == |Refs(e, v.vvNew, v.mapInfo[id].service, id)|
    ensures forall k :: k in v.vvNew && v.vvNew[k] == id ==> k.0 in Refs(e, v.vvNew, v.mapInfo[id].service, id) && k.1 == NewPos(e, v.mapInfo[id].service, k.0)
    ensures forall b :: b in Refs(e, v.vvNew, v.mapInfo[id].service, id) <==>
              0 <= b < e.newBuckets && v.vvNew[(b, NewPos(e, v.mapInfo[id].service, b))] == id
  {
    hide TriedTable, Totals, Stamps, RefStates;
    forall k | k in v.vvNew && v.vvNew[k] == id ensures k.0 in Refs(e, v.vvNew, v.mapInfo[id].service, id) && k.1 == NewPos(e, v.mapInfo[id].service, k.0) {
      assert k == (k.0, NewPos(e, v.mapInfo[id].service, k.0));
    }
  }

  lemma SwapKeepsService(v: View, i: int, j: int, id: int)
    requires 0 <= i < |v.vRandom| && 0 <= j < |v.vRandom| && v.vRandom[i] in v.mapInfo && v.vRandom[j] in v.mapInfo && id in v.mapInfo
    ensures var w := AddrManState.SwapRandom(v, i, j);
      |w.vRandom| == |v.vRandom| && id in w.mapInfo && w.mapInfo[id].service == v.mapInfo[id].service
  {
  }

  lemma LastPosition(m: map<int, AddrInfo>, r: seq<int>, id: int)
    requires RandomIndex(m, r) && id in m
    ensures 0 <= m[id].nRandomPos < |r| && r[m[id].nRandomPos] == id
    ensures r[|r| - 1] in m && (m[id].nRandomPos != |r| - 1 ==> r[|r| - 1] != id)
  {
  }

  lemma NoNegativeId(e: Env, v: View)
    requires Disk.Loading(e, v)
    ensures -1 !in v.mapInfo
  {
  }

  lemma NewSlotRange(e: Env, s: Service, src: NetAddr, b: int)
    requires e.Ok()
    ensures 0 <= NewSlot(e, s, src).0 < e.newBuckets && 0 <= NewSlot(e, s, src).1 < e.bucketSize && 0 <= NewPos(e, s, b) < e.bucketSize
  {
  }
}
