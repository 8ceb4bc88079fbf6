/**
 The operations of the address manager, as functions on its state. Each is total on
 consistent states: the preconditions of the moves it is made of are the C++ assertions,
 and they are discharged here.
 */
module AddrManOps {
  import opened AddrManState
  import Bits

  // ----- clearing a new slot

  /** Of the entries, only x may change or disappear; positions in vRandom may change. */
  ghost predicate OnlyEntry(m: map<int, AddrInfo>, m': map<int, AddrInfo>, x: int) {
    && (forall j :: j in m' ==> j in m && m'[j].service == m[j].service && m'[j].fInTried == m[j].fInTried)
    && (forall j :: j in m && j != x ==> j in m' && m'[j] == m[j].(nRandomPos := m'[j].nRandomPos))
  }

  ghost predicate OnlyNewSide(v: View, w: View) {
    && w.vvTried == v.vvTried && w.nIdCount == v.nIdCount && w.nTried == v.nTried
    && w.collisions == v.collisions && w.lastGood == v.lastGood
  }

  lemma DropFrame(e: Env, v: View, id: int, m: map<int, AddrInfo>)
    requires id in v.mapInfo && |v.vRandom| > 0 && OnlyPositions(m, v.mapInfo)
    ensures var w := Drop(e, v, id);
      w.vvNew == v.vvNew && OnlyNewSide(v, w) && OnlyEntry(m, w.mapInfo, id) && id !in w.mapInfo
  {
  }

  lemma DeleteFrame(e: Env, v: View, id: int)
    requires id in v.mapInfo && RandomIndex(v.mapInfo, v.vRandom)
    ensures var w := Delete(e, v, id);
      w.vvNew == v.vvNew && OnlyNewSide(v, w) && OnlyEntry(v.mapInfo, w.mapInfo, id) && id !in w.mapInfo
  {
    hide OnlyEntry, Drop, SwapPositions, OnlyPositions;
    var i, j := v.mapInfo[id].nRandomPos, |v.vRandom| - 1;
    if i != j {
      SwapEffect(v.mapInfo, v.vRandom, i, j);
    } else {
      SamePositions(v.mapInfo);
    }
    DropFrame(e, SwapRandom(v, i, j), id, v.mapInfo);
  }

  lemma LastPlace(v: View, id: int) returns (i: int, j: int)
    requires RandomIndex(v.mapInfo, v.vRandom) && id in v.mapInfo
    ensures i == v.mapInfo[id].nRandomPos && j == |v.vRandom| - 1 && 0 <= i <= j && v.vRandom[i] == id && v.vRandom[j] in v.mapInfo
  {
    i, j := v.mapInfo[id].nRandomPos, |v.vRandom| - 1;
  }

  lemma DropEffect(e: Env, v: View, id: int, m: map<int, AddrInfo>)
    requires |v.vRandom| > 0 && v.vRandom[|v.vRandom| - 1] == id && id in v.mapInfo
    requires OnlyPositions(m, v.mapInfo) && RandomIndex(v.mapInfo, v.vRandom)
    ensures var w := Drop(e, v, id);
      && OnlyPositions(m - {id}, w.mapInfo) && RandomIndex(w.mapInfo, w.vRandom)
      && w == v.(mapInfo := w.mapInfo, vRandom := w.vRandom, mapAddr := v.mapAddr - {v.mapInfo[id].service},
                 nNew := v.nNew - 1, counts := Bump(v.counts, NetOf(e, v.mapInfo[id]), -1, 0))
  {
    DropRandomIndex(v.mapInfo, v.vRandom);
    hide RandomIndex, Bump;
  }

  /** Deleting an entry moves others in vRandom and changes nothing else about them. */
  lemma DeleteEffect(e: Env, v: View, id: int)
    requires RandomIndex(v.mapInfo, v.vRandom) && id in v.mapInfo
    ensures var w := Delete(e, v, id);
      && OnlyPositions(v.mapInfo - {id}, w.mapInfo) && RandomIndex(w.mapInfo, w.vRandom)
      && w == v.(mapInfo := w.mapInfo, vRandom := w.vRandom, mapAddr := v.mapAddr - {v.mapInfo[id].service},
                 nNew := v.nNew - 1, counts := Bump(v.counts, NetOf(e, v.mapInfo[id]), -1, 0))
  {
    hide RandomIndex, Bump, Drop, OnlyPositions, SwapPositions;
    var i, j := LastPlace(v, id);
    if i != j { SwapEffect(v.mapInfo, v.vRandom, i, j); } else { SamePositions(v.mapInfo); }
    var u := SwapRandom(v, i, j);
    SameService(v.mapInfo, u.mapInfo, id);
    DropEffect(e, u, id, v.mapInfo);
  }

  lemma SameService(m: map<int, AddrInfo>, m': map<int, AddrInfo>, id: int)
    requires OnlyPositions(m, m') && id in m
    ensures id in m' && m'[id].service == m[id].service
  {
  }

  lemma SamePositions(m: map<int, AddrInfo>)
    ensures OnlyPositions(m, m)
  {
  }

  lemma RandomIndexPut(m: map<int, AddrInfo>, r: seq<int>, id: int, i: AddrInfo)
    requires RandomIndex(m, r) && id in m && i.nRandomPos == m[id].nRandomPos
    ensures RandomIndex(m[id := i], r)
  {
  }

  lemma OnlyEntryTrans(m: map<int, AddrInfo>, m1: map<int, AddrInfo>, m2: map<int, AddrInfo>, x: int)
    requires OnlyEntry(m, m1, x) && OnlyEntry(m1, m2, x)
    ensures OnlyEntry(m, m2, x)
  {
  }

  /** Clearing a slot touches only the entry it held. */
  lemma ClearNewFrame(e: Env, v: View, k: Slot)
    requires k in v.vvNew && (v.vvNew[k] != -1 ==> v.vvNew[k] in v.mapInfo)
    requires RandomIndex(v.mapInfo, v.vRandom)
    ensures var w := ClearNew(e, v, k);
      w.vvNew == v.vvNew[k := -1] && OnlyNewSide(v, w) && OnlyEntry(v.mapInfo, w.mapInfo, v.vvNew[k])
  {
    if v.vvNew[k] != -1 {
      var id := v.vvNew[k];
      var w := Unref(v, k);
      assert OnlyEntry(v.mapInfo, w.mapInfo, id);
      if w.mapInfo[id].nRefCount == 0 {
        RandomIndexPut(v.mapInfo, v.vRandom, id, w.mapInfo[id]);
        DeleteFrame(e, w, id);
        hide OnlyEntry, Delete;
        OnlyEntryTrans(v.mapInfo, w.mapInfo, Delete(e, w, id).mapInfo, id);
      }
    } else {
      assert v.vvNew[k := -1] == v.vvNew;
    }
  }

  lemma ClearNewKeeps(e: Env, v: View, k: Slot, pending: set<int>, limbo: set<int>)
    requires Inv(e, v, pending, limbo) && k in v.vvNew
    ensures Inv(e, ClearNew(e, v, k), pending, limbo)
  {
    hide TriedTable, RefCounts, Totals, Stamps, Indexes, RandomIndex, RefStates, NewTable, Delete;
    if v.vvNew[k] != -1 {
      var id := v.vvNew[k];
      UnrefKeeps(e, v, k, pending, limbo);
      NewHolds(e, v, k, pending, limbo);
      if v.mapInfo[id].nRefCount == 1 {
        assert (pending + {id}) - {id} == pending;
        DeleteKeeps(e, Unref(v, k), id, pending + {id}, limbo);
      }
    }
  }

  // ----- MakeTried

  /** The entry of a slot, and where its own slots are. */
  lemma TriedHolds(e: Env, v: View, k: Slot, pending: set<int>, limbo: set<int>)
    requires Inv(e, v, pending, limbo) && k in v.vvTried && v.vvTried[k] != -1
    ensures v.vvTried[k] in v.mapInfo && v.mapInfo[v.vvTried[k]].fInTried && v.vvTried[k] !in pending + limbo
  {
    hide Indexes, NewTable, RefCounts, Totals, Stamps;
  }

  lemma Slots(e: Env, v: View, pending: set<int>, limbo: set<int>, s: Service, src: NetAddr)
    requires Inv(e, v, pending, limbo)
    ensures NewSlot(e, s, src) in v.vvNew && TriedSlot(e, s) in v.vvTried
  {
    hide Indexes, RefCounts, Totals, Stamps, RefStates;
  }

  lemma InTransit(e: Env, v: View, id: int, pending: set<int>, limbo: set<int>)
    requires Inv(e, v, pending, limbo) && (id in pending || id in limbo)
    ensures id in v.mapInfo && !v.mapInfo[id].fInTried && v.mapInfo[id].nRefCount == 0
    ensures forall k :: k in v.vvNew && v.vvNew[k] != -1 ==> v.vvNew[k] != id
  {
    hide Indexes, TriedTable, Totals, Stamps;
    assert id in pending + limbo;
    forall k | k in v.vvNew && v.vvNew[k] == id && id != -1 ensures k.0 in Refs(e, v.vvNew, v.mapInfo[id].service, id) {
      assert k == (k.0, NewPos(e, v.mapInfo[id].service, k.0));
    }
  }

  lemma ClearNewOnInv(e: Env, v: View, k: Slot, pending: set<int>, limbo: set<int>)
    requires Inv(e, v, pending, limbo) && k in v.vvNew
    ensures k in v.vvNew && (v.vvNew[k] != -1 ==> v.vvNew[k] in v.mapInfo) && RandomIndex(v.mapInfo, v.vRandom)
    ensures var w := ClearNew(e, v, k);
      && Inv(e, w, pending, limbo)
      && w.vvNew == v.vvNew[k := -1] && OnlyNewSide(v, w)
      && OnlyEntry(v.mapInfo, w.mapInfo, v.vvNew[k])
  {
    hide TriedTable, RefCounts, Totals, Stamps, RefStates, ClearNew, OnlyEntry, OnlyNewSide, RandomIndex;
    ClearNewKeeps(e, v, k, pending, limbo);
    ClearNewFrame(e, v, k);
  }

  // ----- how an operation may change the state

  /**
   Ids are never reused, an id keeps its service, a filled tried slot stays filled,
   and only the ids of `moved` become tried.
   */
  ghost predicate Evolves(v: View, w: View, moved: set<int>) {
    && v.nIdCount <= w.nIdCount
    && (forall j :: j in w.mapInfo && j < v.nIdCount ==> j in v.mapInfo && w.mapInfo[j].service == v.mapInfo[j].service)
    && (forall k :: k in v.vvTried ==> k in w.vvTried && (v.vvTried[k] != -1 ==> w.vvTried[k] != -1))
    && (forall j :: j in w.mapInfo && w.mapInfo[j].fInTried ==> j in moved || (j in v.mapInfo && v.mapInfo[j].fInTried))
  }

  /** No tried entry is forgotten. */
  ghost predicate TriedSurvive(v: View, w: View) {
    forall j :: j in v.mapInfo && v.mapInfo[j].fInTried ==> j in w.mapInfo
  }

  /** An entry is as before, up to its place in vRandom. */
  ghost predicate SameEntry(v: View, w: View, id: int) {
    id in v.mapInfo && id in w.mapInfo && w.mapInfo[id] == v.mapInfo[id].(nRandomPos := w.mapInfo[id].nRandomPos)
  }

  ghost predicate SameMemo(v: View, w: View) {
    w.nIdCount == v.nIdCount && w.collisions == v.collisions && w.lastGood == v.lastGood
  }

  /** What a step inside MakeTried guarantees about the entry being moved and all others. */
  ghost predicate Inside(v: View, w: View, id: int) {
    && SameMemo(v, w) && SameEntry(v, w, id) && TriedSurvive(v, w)
    && (forall j :: j in w.mapInfo ==> j in v.mapInfo && w.mapInfo[j].service == v.mapInfo[j].service)
    && (forall j :: j in w.mapInfo && w.mapInfo[j].fInTried ==> v.mapInfo[j].fInTried)
  }

  lemma InsideTrans(v: View, u: View, w: View, id: int)
    requires Inside(v, u, id) && Inside(u, w, id)
    requires forall j :: j in v.mapInfo && v.mapInfo[j].fInTried && !u.mapInfo[j].fInTried ==> j in w.mapInfo
    ensures Inside(v, w, id)
  {
  }

  lemma EvolvesTrans(v: View, u: View, w: View, moved: set<int>, moved': set<int>)
    requires Evolves(v, u, moved) && Evolves(u, w, moved')
    ensures Evolves(v, w, moved + moved')
  {
  }

  // ----- MakeTried

  lemma RecountAndLink(e: Env, v: View, out: int, id: int, k: Slot)
    requires Inv(e, v, {}, {id} + {out}) && id != out && out in v.mapInfo
    requires k in v.vvNew && v.vvNew[k] == -1 && NewPos(e, v.mapInfo[out].service, k.0) == k.1
    ensures Inv(e, Link(Recount(e, v, out), out, k), {}, {id})
  {
    hide Indexes, TriedTable, NewTable, RefCounts, Totals, Stamps, RefStates, Link;
    InTransit(e, v, out, {}, {id} + {out});
    RecountKeeps(e, v, out, {}, {id} + {out});
    assert {} + {out} == {out} && ({id} + {out}) - {out} == {id} && {out} - {out} == {};
    LinkKeeps(e, Recount(e, v, out), out, k, {out}, {id});
  }

  /** An uncounted entry enters its home slot of the new table, clearing what is there. */
  ghost function Rehome(e: Env, v: View, out: int, id: int): (w: View)
    requires Inv(e, v, {}, {id} + {out}) && id != out
    ensures Inv(e, w, {}, {id})
  {
    var limbo := {id} + {out};
    InTransit(e, v, out, {}, limbo);
    var home := NewSlot(e, v.mapInfo[out].service, v.mapInfo[out].source);
    Slots(e, v, {}, limbo, v.mapInfo[out].service, v.mapInfo[out].source);
    ClearNewOnInv(e, v, home, {}, limbo);
    var v2 := ClearNew(e, v, home);
    RecountAndLink(e, v2, out, id, home);
    Link(Recount(e, v2, out), out, home)
  }

  /** An entry with one reference, from the bucket its own source maps to. */
  ghost predicate AtHome(e: Env, i: AddrInfo, w: View, id: int)
    requires e.Ok()
  {
    && id in w.mapInfo && w.mapInfo[id] == i.(nRefCount := 1, fInTried := false, nRandomPos := w.mapInfo[id].nRandomPos)
    && NewSlot(e, i.service, i.source) in w.vvNew && w.vvNew[NewSlot(e, i.service, i.source)] == id
  }

  lemma RehomeFrame(e: Env, v: View, out: int, id: int)
    requires Inv(e, v, {}, {id} + {out}) && id != out
    ensures var w := Rehome(e, v, out, id); Inside(v, w, id) && w.vvTried == v.vvTried && out in w.mapInfo
    ensures out in v.mapInfo && AtHome(e, v.mapInfo[out], Rehome(e, v, out, id), out)
  {
    hide Indexes, TriedTable, NewTable, RefCounts, Totals, Stamps, RefStates, ClearNew, NewSlot;
    var limbo := {id} + {out};
    InTransit(e, v, out, {}, limbo);
    InTransit(e, v, id, {}, limbo);
    var home := NewSlot(e, v.mapInfo[out].service, v.mapInfo[out].source);
    Slots(e, v, {}, limbo, v.mapInfo[out].service, v.mapInfo[out].source);
    ClearNewOnInv(e, v, home, {}, limbo);
    NewHolds(e, v, home, {}, limbo);
  }

  lemma NewHolds(e: Env, v: View, k: Slot, pending: set<int>, limbo: set<int>)
    requires Inv(e, v, pending, limbo) && k in v.vvNew
    ensures -1 !in v.mapInfo
    ensures v.vvNew[k] != -1 ==> v.vvNew[k] in v.mapInfo && !v.mapInfo[v.vvNew[k]].fInTried && v.vvNew[k] !in pending + limbo
    ensures v.vvNew[k] != -1 ==> v.mapInfo[v.vvNew[k]].nRefCount > 0
  {
    hide TriedTable, Totals, Stamps;
    if v.vvNew[k] != -1 { UnrefTables(e, v, k); }
  }

  /** The tried entry in slot k goes back to its home slot of the new table. */
  ghost function Evict(e: Env, v: View, k: Slot, id: int): (w: View)
    requires Inv(e, v, {}, {id}) && k in v.vvTried && v.vvTried[k] != -1
    ensures Inv(e, w, {}, {id})
  {
    TriedHolds(e, v, k, {}, {id});
    UntryKeeps(e, v, k, {}, {id});
    Rehome(e, Untry(e, v, k), v.vvTried[k], id)
  }

  lemma EvictFrame(e: Env, v: View, k: Slot, id: int)
    requires Inv(e, v, {}, {id}) && k in v.vvTried && v.vvTried[k] != -1
    ensures var w := Evict(e, v, k, id); Inside(v, w, id) && w.vvTried == v.vvTried[k := -1]
    ensures v.vvTried[k] in v.mapInfo && v.vvTried[k] != id && AtHome(e, v.mapInfo[v.vvTried[k]], Evict(e, v, k, id), v.vvTried[k])
  {
    hide Indexes, TriedTable, NewTable, RefCounts, Totals, Stamps, RefStates, Rehome;
    var out := v.vvTried[k];
    TriedHolds(e, v, k, {}, {id});
    InTransit(e, v, id, {}, {id});
    UntryKeeps(e, v, k, {}, {id});
    RehomeFrame(e, Untry(e, v, k), out, id);
    InsideTrans(v, Untry(e, v, k), Rehome(e, Untry(e, v, k), out, id), id);
  }

  ghost function MakeTried(e: Env, v: View, id: int): (w: View)
    requires Inv(e, v, {}, {}) && id in v.mapInfo && !v.mapInfo[id].fInTried && v.mapInfo[id].lastSuccess > 0
    ensures Inv(e, w, {}, {})
  {
    UnlinkKeeps(e, v, id, {}, {});
    var v1 := Unlink(e, v, id);
    assert {} + {id} == {id} && {id} - {id} == {};
    var k := TriedSlot(e, v.mapInfo[id].service);
    Slots(e, v, {}, {}, v.mapInfo[id].service, v.mapInfo[id].source);
    if v1.vvTried[k] != -1 then
      EvictFrame(e, v1, k, id);
      var v2 := Evict(e, v1, k, id);
      IntoTriedKeeps(e, v2, id, k, {}, {id});
      IntoTried(e, v2, id, k)
    else
      IntoTriedKeeps(e, v1, id, k, {}, {id});
      IntoTried(e, v1, id, k)
  }

  /** The entry that held the tried slot, if any, is back in the new table, in its own bucket. */
  ghost predicate EvictedHome(e: Env, v: View, w: View, out: int)
    requires e.Ok()
  {
    out == -1 || (out in v.mapInfo && AtHome(e, v.mapInfo[out], w, out))
  }

  /** The entry ends up tried, in its slot; no tried entry is forgotten and no other becomes tried. */
  lemma MakeTriedEffect(e: Env, v: View, id: int)
    requires Inv(e, v, {}, {}) && id in v.mapInfo && !v.mapInfo[id].fInTried && v.mapInfo[id].lastSuccess > 0
    ensures var w := MakeTried(e, v, id);
      && Evolves(v, w, {id}) && TriedSurvive(v, w) && SameMemo(v, w)
      && id in w.mapInfo && w.mapInfo[id].fInTried && w.mapInfo[id].service == v.mapInfo[id].service
      && TriedSlot(e, v.mapInfo[id].service) in v.vvTried
      && w.vvTried == v.vvTried[TriedSlot(e, v.mapInfo[id].service) := id]
      && w.mapInfo[id] == v.mapInfo[id].(nRefCount := 0, fInTried := true, nRandomPos := w.mapInfo[id].nRandomPos)
      && EvictedHome(e, v, w, v.vvTried[TriedSlot(e, v.mapInfo[id].service)])
  {
    hide Indexes, TriedTable, NewTable, RefCounts, Totals, Stamps, RefStates, Evict, TriedSlot;
    UnlinkKeeps(e, v, id, {}, {});
    var v1 := Unlink(e, v, id);
    assert {} + {id} == {id};
    Slots(e, v, {}, {}, v.mapInfo[id].service, v.mapInfo[id].source);
    NonNegative(e, v, id);
    var k := TriedSlot(e, v.mapInfo[id].service);
    if v1.vvTried[k] != -1 {
      EvictFrame(e, v1, k, id);
    }
  }

  lemma NonNegative(e: Env, v: View, id: int)
    requires Inv(e, v, {}, {}) && id in v.mapInfo
    ensures 0 <= id < v.nIdCount
  {
  }

  // ----- Good_

  /** An id of the reverse index has its entry, and that entry is in one of the tables. */
  lemma Found(e: Env, v: View, s: Service)
    requires Inv(e, v, {}, {}) && s in v.mapAddr
    ensures v.mapAddr[s] in v.mapInfo && v.mapInfo[v.mapAddr[s]].service == s
    ensures !v.mapInfo[v.mapAddr[s]].fInTried ==> 1 <= v.mapInfo[v.mapAddr[s]].nRefCount <= NEW_BUCKETS_PER_ADDRESS
    ensures v.mapInfo[v.mapAddr[s]].lastTry >= 0 && v.mapInfo[v.mapAddr[s]].lastSuccess >= 0
    ensures v.mapInfo[v.mapAddr[s]].fInTried ==> v.mapInfo[v.mapAddr[s]].lastSuccess > 0
    ensures 0 <= v.mapAddr[s] < v.nIdCount
  {
    hide TriedTable, Totals, RandomIndex;
    RefCountNat(e, v, v.mapAddr[s]);
  }

  function WithSuccess(i: AddrInfo, time: int): AddrInfo {
    i.(lastSuccess := time, lastTry := time, nAttempts := 0)
  }

  /** Record a successful connection to a known service. */
  ghost function MarkGood(e: Env, v: View, s: Service, time: int): (w: View)
    requires Inv(e, v, {}, {}) && s in v.mapAddr && time > 0
    ensures Inv(e, w, {}, {})
    ensures v.mapAddr[s] in v.mapInfo
    ensures w == v.(lastGood := time, mapInfo := v.mapInfo[v.mapAddr[s] := WithSuccess(v.mapInfo[v.mapAddr[s]], time)])
  {
    Found(e, v, s);
    var id := v.mapAddr[s];
    TouchKeeps(e, v, id, WithSuccess(v.mapInfo[id], time), {}, {});
    Touch(v, id, WithSuccess(v.mapInfo[id], time)).(lastGood := time)
  }

  ghost function Good(e: Env, v: View, s: Service, testBeforeEvict: bool, time: int): (r: (View, bool))
    requires Inv(e, v, {}, {}) && time > 0
    ensures Inv(e, r.0, {}, {})
  {
    if s !in v.mapAddr then (v.(lastGood := time), false) else
    var id := v.mapAddr[s];
    var w := MarkGood(e, v, s, time);
    if w.mapInfo[id].fInTried then (w, false) else
    Slots(e, w, {}, {}, s, s.ip);
    if testBeforeEvict && w.vvTried[TriedSlot(e, s)] != -1 then
      (w.(collisions := if |w.collisions| < SET_TRIED_COLLISION_SIZE then w.collisions + {id} else w.collisions), false)
    else
      (MakeTried(e, w, id), true)
  }

  lemma GoodEvolves(e: Env, v: View, s: Service, testBeforeEvict: bool, time: int)
    requires Inv(e, v, {}, {}) && time > 0
    ensures var (w, moved) := Good(e, v, s, testBeforeEvict, time);
      && Evolves(v, w, if moved && s in v.mapAddr then {v.mapAddr[s]} else {}) && TriedSurvive(v, w)
      && (moved ==> s in v.mapAddr && w.collisions == v.collisions)
      && (!testBeforeEvict ==> w.collisions == v.collisions)
      && w.nIdCount == v.nIdCount && w.lastGood == time
  {
    hide Indexes, TriedTable, NewTable, RefCounts, Totals, Stamps, RefStates, MakeTried, TriedSlot;
    if s in v.mapAddr {
      Found(e, v, s);
      var id := v.mapAddr[s];
      var w := MarkGood(e, v, s, time);
      if !w.mapInfo[id].fInTried {
        Slots(e, w, {}, {}, s, s.ip);
        if !(testBeforeEvict && w.vvTried[TriedSlot(e, s)] != -1) {
          MakeTriedEffect(e, w, id);
        }
      }
    }
  }

  /** The collision set survives any change that moves none of its ids to tried. */
  lemma CollisionsEvolve(e: Env, v: View, w: View, moved: set<int>)
    requires e.Ok() && GridShape(v.vvTried, e.triedBuckets, e.bucketSize) && GridShape(w.vvTried, e.triedBuckets, e.bucketSize)
    requires Collisions(e, v) && Evolves(v, w, moved)
    requires w.collisions <= v.collisions && w.collisions !! moved
    ensures Collisions(e, w)
  {
    CardOfSubset(w.collisions, v.collisions);
    forall id | id in w.collisions
      ensures 0 <= id < w.nIdCount
      ensures id in w.mapInfo ==> !w.mapInfo[id].fInTried && w.vvTried[TriedSlot(e, w.mapInfo[id].service)] != -1
    {
      assert id in v.collisions;
    }
  }

  lemma CardOfSubset(s: set<int>, t: set<int>)
    requires s <= t
    ensures |s| <= |t|
  {
    assert t == s + (t - s);
  }

  lemma Shapes(e: Env, v: View, pending: set<int>, limbo: set<int>)
    requires Inv(e, v, pending, limbo)
    ensures GridShape(v.vvTried, e.triedBuckets, e.bucketSize) && GridShape(v.vvNew, e.newBuckets, e.bucketSize)
  {
  }

  lemma CollisionsInsert(e: Env, v: View, id: int)
    requires e.Ok() && GridShape(v.vvTried, e.triedBuckets, e.bucketSize) && Collisions(e, v)
    requires |v.collisions| < SET_TRIED_COLLISION_SIZE && 0 <= id < v.nIdCount && id in v.mapInfo
    requires !v.mapInfo[id].fInTried && v.vvTried[TriedSlot(e, v.mapInfo[id].service)] != -1
    ensures Collisions(e, v.(collisions := v.collisions + {id}))
  {
  }

  /** The public Good: keeps the state consistent, the collision set included. */
  lemma GoodKeeps(e: Env, v: View, s: Service, time: int)
    requires Consistent(e, v) && time > 0
    ensures Consistent(e, Good(e, v, s, true, time).0)
  {
    hide Indexes, TriedTable, NewTable, RefCounts, Totals, Stamps, RefStates, MakeTried, TriedSlot, Collisions, Evolves;
    var (w, moved) := Good(e, v, s, true, time);
    GoodEvolves(e, v, s, true, time);
    Shapes(e, v, {}, {});
    Shapes(e, w, {}, {});
    if moved {
      GoodFree(e, v, s, time);
      CollisionsEvolve(e, v, w, {v.mapAddr[s]});
    } else {
      CollisionsEvolve(e, v, w.(collisions := v.collisions), {});
      if w.collisions != v.collisions {
        Found(e, v, s);
        CollisionsInsert(e, w.(collisions := v.collisions), v.mapAddr[s]);
        assert w.(collisions := v.collisions).(collisions := v.collisions + {v.mapAddr[s]}) == w;
      }
    }
  }

  /** With test-before-evict an entry only moves into a free slot, so it was not waiting for one. */
  lemma GoodFree(e: Env, v: View, s: Service, time: int)
    requires Consistent(e, v) && time > 0
    requires Good(e, v, s, true, time).1
    ensures s in v.mapAddr && v.mapAddr[s] !in v.collisions
  {
    hide Indexes, NewTable, RefCounts, Totals, Stamps, RefStates, MakeTried, TriedSlot;
    Found(e, v, s);
  }

  // ----- AddSingle

  /** The time and service update of a known entry. */
  function Refreshed(i: AddrInfo, a: Address, penalty: int, now: int): AddrInfo {
    var interval := if now - a.nTime < 24 * 3600 then 3600 else 24 * 3600;
    var nTime := if i.nTime < a.nTime - interval - penalty then Max(0, a.nTime - penalty) else i.nTime;
    i.(nTime := nTime, nServices := i.nServices | a.nServices)
  }

  /** Why a known entry is not given a further reference. */
  predicate NothingNew(i: AddrInfo, a: Address, draw: nat)
    requires i.fInTried || i.nRefCount >= 0
  {
    || a.nTime <= i.nTime
    || i.fInTried
    || i.nRefCount == NEW_BUCKETS_PER_ADDRESS
    || (Bits.Pow2(i.nRefCount) > 1 && draw % Bits.Pow2(i.nRefCount) != 0)
  }

  /** May the entry in a slot be overwritten by entry i? */
  predicate Overwrites(there: AddrInfo, i: AddrInfo, now: int) {
    IsTerrible(there, now) || (there.nRefCount > 1 && i.nRefCount == 0)
  }

  /** Give id, which is in transit if it has no reference, a reference from the bucket of this source. */
  ghost function Place(e: Env, v: View, id: int, source: NetAddr, now: int): (r: (View, bool))
    requires id in v.mapInfo && !v.mapInfo[id].fInTried
    requires Inv(e, v, if v.mapInfo[id].nRefCount == 0 then {id} else {}, {})
    requires v.mapInfo[id].nRefCount < NEW_BUCKETS_PER_ADDRESS
    ensures Inv(e, r.0, {}, {})
  {
    var pending := if v.mapInfo[id].nRefCount == 0 then {id} else {};
    var k := NewSlot(e, v.mapInfo[id].service, source);
    Slots(e, v, pending, {}, v.mapInfo[id].service, source);
    NewHolds(e, v, k, pending, {});
    if v.vvNew[k] == id then (v, false)
    else if v.vvNew[k] == -1 || Overwrites(v.mapInfo[v.vvNew[k]], v.mapInfo[id], now) then
      ClearNewOnInv(e, v, k, pending, {});
      var w := ClearNew(e, v, k);
      LinkKeeps(e, w, id, k, pending, {});
      assert pending - {id} == {};
      (Link(w, id, k), true)
    else if v.mapInfo[id].nRefCount == 0 then
      DeleteKeeps(e, v, id, pending, {});
      assert pending - {id} == {};
      (Delete(e, v, id), false)
    else (v, false)
  }

  /** A placed id holds the slot; only it and the entry that held the slot can change. */
  ghost predicate PlaceEffect(v: View, w: View, id: int, k: Slot, added: bool) {
    && k in v.vvNew && k in w.vvNew
    && (added ==> id in w.mapInfo && w.vvNew[k] == id)
    && (forall j :: j in v.mapInfo && j != id && j != v.vvNew[k] ==> SameEntry(v, w, j))
  }

  lemma PlaceEvolves(e: Env, v: View, id: int, source: NetAddr, now: int)
    requires id in v.mapInfo && !v.mapInfo[id].fInTried
    requires Inv(e, v, if v.mapInfo[id].nRefCount == 0 then {id} else {}, {})
    requires v.mapInfo[id].nRefCount < NEW_BUCKETS_PER_ADDRESS
    ensures var (w, added) := Place(e, v, id, source, now);
      && Evolves(v, w, {}) && TriedSurvive(v, w) && SameMemo(v, w)
      && PlaceEffect(v, w, id, NewSlot(e, v.mapInfo[id].service, source), added)
  {
    hide Indexes, TriedTable, NewTable, RefCounts, Totals, Stamps, RefStates, NewSlot, ClearNew, Delete, Overwrites, RandomIndex, GridShape;
    var pending := if v.mapInfo[id].nRefCount == 0 then {id} else {};
    var k := NewSlot(e, v.mapInfo[id].service, source);
    Slots(e, v, pending, {}, v.mapInfo[id].service, source);
    NewHolds(e, v, k, pending, {});
    hide Inv, Evolves, TriedSurvive, PlaceEffect, OnlyEntry;
    if v.vvNew[k] == id {
      StayEvolves(v, id, k);
    } else if v.vvNew[k] == -1 || Overwrites(v.mapInfo[v.vvNew[k]], v.mapInfo[id], now) {
      ClearNewOnInv(e, v, k, pending, {});
      LinkEvolves(v, ClearNew(e, v, k), id, k);
    } else if v.mapInfo[id].nRefCount == 0 {
      IndexOf(e, v, pending, {});
      DeleteFrame(e, v, id);
      ForgetEvolves(v, Delete(e, v, id), id, k);
    } else {
      StayEvolves(v, id, k);
    }
  }

  lemma StayEvolves(v: View, id: int, k: Slot)
    requires k in v.vvNew
    ensures Evolves(v, v, {}) && TriedSurvive(v, v) && SameMemo(v, v) && PlaceEffect(v, v, id, k, false)
  {
  }

  lemma LinkEvolves(v: View, u: View, id: int, k: Slot)
    requires k in v.vvNew && u.vvNew == v.vvNew[k := -1] && OnlyNewSide(v, u) && OnlyEntry(v.mapInfo, u.mapInfo, v.vvNew[k])
    requires id in v.mapInfo && !v.mapInfo[id].fInTried && id != v.vvNew[k]
    requires v.vvNew[k] in v.mapInfo ==> !v.mapInfo[v.vvNew[k]].fInTried
    ensures id in u.mapInfo
    ensures var w := Link(u, id, k); Evolves(v, w, {}) && TriedSurvive(v, w) && SameMemo(v, w) && PlaceEffect(v, w, id, k, true)
  {
  }

  lemma ForgetEvolves(v: View, w: View, id: int, k: Slot)
    requires k in v.vvNew && w.vvNew == v.vvNew && OnlyNewSide(v, w) && OnlyEntry(v.mapInfo, w.mapInfo, id)
    requires id in v.mapInfo && !v.mapInfo[id].fInTried
    ensures Evolves(v, w, {}) && TriedSurvive(v, w) && SameMemo(v, w) && PlaceEffect(v, w, id, k, false)
  {
  }

  lemma IndexOf(e: Env, v: View, pending: set<int>, limbo: set<int>)
    requires Inv(e, v, pending, limbo)
    ensures RandomIndex(v.mapInfo, v.vRandom)
  {
  }

  /** A fresh entry, counted but without references, its time penalised. */
  ghost function CreatePenalised(e: Env, v: View, a: Address, source: NetAddr, penalty: int): (w: View)
    requires Inv(e, v, {}, {}) && e.isRoutable(a.service.ip) && a.service !in v.mapAddr
    ensures Inv(e, w, {v.nIdCount}, {}) && v.nIdCount in w.mapInfo && !w.mapInfo[v.nIdCount].fInTried && w.mapInfo[v.nIdCount].nRefCount == 0
  {
    CreateKeeps(e, v, a, source);
    var w := Create(e, v, a, source);
    var i := w.mapInfo[v.nIdCount];
    TouchKeeps(e, w, v.nIdCount, i.(nTime := Max(0, i.nTime - penalty)), {v.nIdCount}, {});
    Touch(w, v.nIdCount, i.(nTime := Max(0, i.nTime - penalty)))
  }

  lemma CreateEvolves(e: Env, v: View, a: Address, source: NetAddr, penalty: int)
    requires Inv(e, v, {}, {}) && e.isRoutable(a.service.ip) && a.service !in v.mapAddr
    ensures var w := CreatePenalised(e, v, a, source, penalty);
      Evolves(v, w, {}) && w.collisions == v.collisions && w.lastGood == v.lastGood
      && (forall j :: j in v.mapInfo ==> j in w.mapInfo && w.mapInfo[j] == v.mapInfo[j])
  {
    hide TriedTable, NewTable, RefCounts, Totals, Stamps, RefStates, AddrIndex, RandomIndex;
    assert v.nIdCount !in v.mapInfo;
  }

  ghost function Refresh(e: Env, v: View, a: Address, penalty: int, now: int): (w: View)
    requires Inv(e, v, {}, {}) && a.service in v.mapAddr
    ensures v.mapAddr[a.service] in v.mapInfo
    ensures w == v.(mapInfo := v.mapInfo[v.mapAddr[a.service] := Refreshed(v.mapInfo[v.mapAddr[a.service]], a, penalty, now)])
    ensures Inv(e, w, {}, {})
  {
    Found(e, v, a.service);
    var id := v.mapAddr[a.service];
    TouchKeeps(e, v, id, Refreshed(v.mapInfo[id], a, penalty, now), {}, {});
    Touch(v, id, Refreshed(v.mapInfo[id], a, penalty, now))
  }

  /** The clock is read once for the refresh and once to judge the entry in the way. */
  ghost function AddSingle(e: Env, v: View, a: Address, source: NetAddr, timePenalty: int, now: (int, int), draw: nat): (r: (View, bool))
    requires Inv(e, v, {}, {})
    ensures Inv(e, r.0, {}, {})
  {
    if !e.isRoutable(a.service.ip) then (v, false) else
    var penalty := if a.service.ip == source then 0 else timePenalty;
    if a.service in v.mapAddr then
      Found(e, v, a.service);
      var id := v.mapAddr[a.service];
      var w := Refresh(e, v, a, penalty, now.0);
      if NothingNew(w.mapInfo[id], a, draw) then (w, false) else Place(e, w, id, source, now.1)
    else
      Place(e, CreatePenalised(e, v, a, source, penalty), v.nIdCount, source, now.1)
  }

  lemma AddNewEvolves(e: Env, v: View, a: Address, source: NetAddr, penalty: int, now: int)
    requires Inv(e, v, {}, {}) && e.isRoutable(a.service.ip) && a.service !in v.mapAddr
    ensures var w := Place(e, CreatePenalised(e, v, a, source, penalty), v.nIdCount, source, now).0;
      Evolves(v, w, {}) && TriedSurvive(v, w) && w.collisions == v.collisions && w.lastGood == v.lastGood
  {
    hide Inv, NewSlot, Place, IsTerrible, PlaceEffect, Evolves, CreatePenalised;
    var u := CreatePenalised(e, v, a, source, penalty);
    CreateEvolves(e, v, a, source, penalty);
    PlaceEvolves(e, u, v.nIdCount, source, now);
    EvolvesTrans(v, u, Place(e, u, v.nIdCount, source, now).0, {}, {});
    var none: set<int> := {};
    assert none + none == none;
  }

  lemma AddKnownEvolves(e: Env, v: View, a: Address, penalty: int, now: int)
    requires Inv(e, v, {}, {}) && a.service in v.mapAddr
    ensures v.mapAddr[a.service] in v.mapInfo
    ensures var w := Refresh(e, v, a, penalty, now);
      Evolves(v, w, {}) && TriedSurvive(v, w) && SameMemo(v, w)
  {
    hide TriedTable, NewTable, RefCounts, Totals, Stamps, RefStates;
    Found(e, v, a.service);
  }

  lemma AddSingleEvolves(e: Env, v: View, a: Address, source: NetAddr, timePenalty: int, now: (int, int), draw: nat)
    requires Inv(e, v, {}, {})
    ensures var (w, added) := AddSingle(e, v, a, source, timePenalty, now, draw);
      Evolves(v, w, {}) && TriedSurvive(v, w) && w.collisions == v.collisions && w.lastGood == v.lastGood
  {
    hide Inv, NewSlot, Place, IsTerrible, PlaceEffect, CreatePenalised, Evolves;
    if e.isRoutable(a.service.ip) {
      var penalty := if a.service.ip == source then 0 else timePenalty;
      if a.service in v.mapAddr {
        Found(e, v, a.service);
        AddKnownEvolves(e, v, a, penalty, now.0);
        var id := v.mapAddr[a.service];
        var u := Refresh(e, v, a, penalty, now.0);
        if !NothingNew(u.mapInfo[id], a, draw) {
          PlaceEvolves(e, u, id, source, now.1);
          EvolvesTrans(v, u, Place(e, u, id, source, now.1).0, {}, {});
          var none: set<int> := {};
          assert none + none == none;
        }
      } else {
        AddNewEvolves(e, v, a, source, penalty, now.1);
      }
    } else {
      EvolvesSame(v);
    }
  }

  lemma EvolvesSame(v: View)
    ensures Evolves(v, v, {}) && TriedSurvive(v, v)
  {
  }

  lemma AddSingleKeeps(e: Env, v: View, a: Address, source: NetAddr, timePenalty: int, now: (int, int), draw: nat)
    requires Consistent(e, v)
    ensures Consistent(e, AddSingle(e, v, a, source, timePenalty, now, draw).0)
  {
    hide Indexes, TriedTable, NewTable, RefCounts, Totals, Stamps, RefStates, AddSingle, Evolves;
    var w := AddSingle(e, v, a, source, timePenalty, now, draw).0;
    AddSingleEvolves(e, v, a, source, timePenalty, now, draw);
    Shapes(e, v, {}, {});
    Shapes(e, w, {}, {});
    CollisionsEvolve(e, v, w, {});
  }

  // ----- Attempt_, Connected_, SetServices_

  function Attempted(i: AddrInfo, countFailure: bool, lastGood: int, time: int): AddrInfo {
    if countFailure && i.lastCountAttempt < lastGood
    then i.(lastTry := time, lastCountAttempt := time, nAttempts := i.nAttempts + 1)
    else i.(lastTry := time)
  }

  function Seen(i: AddrInfo, time: int): AddrInfo {
    if time - i.nTime > 20 * 60 then i.(nTime := time) else i
  }

  /** Rewrite the statistics of a known service; nothing happens for an unknown one. */
  ghost function Update(e: Env, v: View, s: Service, f: AddrInfo -> AddrInfo): (w: View)
    requires Inv(e, v, {}, {})
    requires forall i :: SameLinks(i, f(i)) && f(i).lastSuccess == i.lastSuccess && (i.lastTry >= 0 ==> f(i).lastTry >= 0)
    ensures Inv(e, w, {}, {})
    ensures Evolves(v, w, {}) && SameMemo(v, w)
  {
    if s !in v.mapAddr then v else
    Found(e, v, s);
    var id := v.mapAddr[s];
    TouchKeeps(e, v, id, f(v.mapInfo[id]), {}, {});
    Touch(v, id, f(v.mapInfo[id]))
  }

  lemma UpdateKeeps(e: Env, v: View, s: Service, f: AddrInfo -> AddrInfo)
    requires Consistent(e, v)
    requires forall i :: SameLinks(i, f(i)) && f(i).lastSuccess == i.lastSuccess && (i.lastTry >= 0 ==> f(i).lastTry >= 0)
    ensures Consistent(e, Update(e, v, s, f))
  {
    hide Indexes, TriedTable, NewTable, RefCounts, Totals, Stamps, RefStates, Update;
    var w := Update(e, v, s, f);
    Shapes(e, v, {}, {});
    Shapes(e, w, {}, {});
    CollisionsEvolve(e, v, w, {});
  }

  ghost function Attempt(e: Env, v: View, s: Service, countFailure: bool, time: int): (w: View)
    requires Inv(e, v, {}, {}) && time >= 0
    ensures Inv(e, w, {}, {})
  {
    Update(e, v, s, i => Attempted(i, countFailure, v.lastGood, time))
  }

  ghost function Connected(e: Env, v: View, s: Service, time: int): (w: View)
    requires Inv(e, v, {}, {})
    ensures Inv(e, w, {}, {})
  {
    Update(e, v, s, i => Seen(i, time))
  }

  ghost function SetServices(e: Env, v: View, s: Service, services: bv64): (w: View)
    requires Inv(e, v, {}, {})
    ensures Inv(e, w, {}, {})
  {
    Update(e, v, s, (i: AddrInfo) => i.(nServices := services))
  }

  // ----- ResolveCollisions_ and SelectTriedCollision_

  /** A waiting id that still exists is in the new table, and an entry other than itself holds its slot. */
  lemma Waiting(e: Env, v: View, id: int)
    requires Consistent(e, v) && id in v.collisions && id in v.mapInfo
    ensures e.isValid(v.mapInfo[id].service.ip)
    ensures v.mapInfo[id].service in v.mapAddr && v.mapAddr[v.mapInfo[id].service] == id
    ensures !v.mapInfo[id].fInTried && v.mapInfo[id].nRefCount > 0
    ensures var k := TriedSlot(e, v.mapInfo[id].service);
      k in v.vvTried && v.vvTried[k] != -1 && v.vvTried[k] != id && v.vvTried[k] in v.mapInfo
  {
    hide Totals, Stamps, NewTable;
    Found(e, v, v.mapInfo[id].service);
  }

  function Erase(v: View, id: int): View {
    v.(collisions := v.collisions - {id})
  }

  datatype Holder = Free | Held(info: AddrInfo)
  datatype Verdict = KeepWaiting | GiveUp | Replace

  /** What ResolveCollisions_ does with a waiting entry, given the holder of its tried slot. */
  function Judge(valid: bool, there: Holder, i: AddrInfo, now: int): Verdict {
    if !valid then GiveUp else
    match there
    case Free => Replace
    case Held(h) =>
      if now - h.lastSuccess < REPLACEMENT then GiveUp
      else if now - h.lastTry < REPLACEMENT then (if now - h.lastTry > 60 then Replace else KeepWaiting)
      else if now - i.lastSuccess > TEST_WINDOW then Replace
      else KeepWaiting
  }

  function HolderOf(v: View, k: Slot): Holder {
    if k in v.vvTried && v.vvTried[k] in v.mapInfo then Held(v.mapInfo[v.vvTried[k]]) else Free
  }

  /** One round of the loop in ResolveCollisions_. */
  ghost function ResolveOne(e: Env, v: View, id: int, now: int): (w: View)
    requires Inv(e, v, {}, {}) && now > 0
    ensures Inv(e, w, {}, {})
  {
    if id !in v.mapInfo then Erase(v, id) else
    var i := v.mapInfo[id];
    match Judge(e.isValid(i.service.ip), HolderOf(v, TriedSlot(e, i.service)), i, now)
    case KeepWaiting => v
    case GiveUp => Erase(v, id)
    case Replace => Erase(Good(e, v, i.service, false, now).0, id)
  }

  lemma ResolveOneKeeps(e: Env, v: View, id: int, now: int)
    requires Consistent(e, v) && id in v.collisions && now > 0
    ensures var w := ResolveOne(e, v, id, now);
      Consistent(e, w) && (w.collisions == v.collisions || w.collisions == v.collisions - {id}) && Evolves(v, w, {id})
  {
    hide Indexes, TriedTable, NewTable, RefCounts, Totals, Stamps, RefStates, TriedSlot, Good, Judge, Evolves, Collisions;
    var w := ResolveOne(e, v, id, now);
    Shapes(e, v, {}, {});
    Shapes(e, w, {}, {});
    EvolvesSame(v);
    EvolvesMore(v, v, {}, {id});
    if id !in v.mapInfo {
      ErasedEvolves(v, v, id);
      CollisionsEvolve(e, v, w, {id});
    } else {
      Waiting(e, v, id);
      var u := Good(e, v, v.mapInfo[id].service, false, now).0;
      GoodEvolves(e, v, v.mapInfo[id].service, false, now);
      EvolvesMore(v, u, {}, {id});
      ErasedEvolves(v, v, id);
      ErasedEvolves(v, u, id);
      if w != v { CollisionsEvolve(e, v, w, {id}); }
    }
  }

  lemma ErasedEvolves(v: View, w: View, id: int)
    requires Evolves(v, w, {id})
    ensures Evolves(v, Erase(w, id), {id})
  {
  }

  lemma EvolvesMore(v: View, w: View, moved: set<int>, moved': set<int>)
    requires moved <= moved'
    ensures Evolves(v, w, moved) ==> Evolves(v, w, moved')
  {
  }
}
