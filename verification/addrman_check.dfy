/**
 CheckAddrman: the consistency check the node runs on itself, with the loops and
 scratch tables of the original, proved to pass exactly on the states it describes.
 */
module AddrManCheck {
  import opened AddrManState
  import opened AddrManGrid
  import AddrManOps
  import Runs = AddrManRuns

  /** What the first loop asks of one entry. */
  predicate EntryOk(m: map<int, AddrInfo>, a: map<Service, int>, r: seq<int>, id: int)
    requires id in m
  {
    var i := m[id];
    && (if i.fInTried then i.lastSuccess != 0 && i.nRefCount == 0 else 1 <= i.nRefCount <= NEW_BUCKETS_PER_ADDRESS)
    && i.service in a && a[i.service] == id
    && 0 <= i.nRandomPos < |r| && r[i.nRandomPos] == id
    && i.lastTry >= 0 && i.lastSuccess >= 0
  }

  ghost predicate EntriesOk(m: map<int, AddrInfo>, a: map<Service, int>, r: seq<int>) {
    forall id :: id in m ==> EntryOk(m, a, r, id)
  }

  /** The networks that have entries. */
  ghost function Networks(e: Env, m: map<int, AddrInfo>): set<int> {
    set id | id in m :: NetOf(e, m[id])
  }

  /** The final comparison: every counter kept is right, and there are at least as many counters as networks. */
  ghost predicate CountersOk(e: Env, m: map<int, AddrInfo>, c: map<int, Counts>) {
    && |c| >= |Networks(e, m)|
    && forall net :: net in c ==> c[net] == Counts(|OfNet(e, m, NewIds(m, {}), net)|, |OfNet(e, m, TriedIds(m), net)|)
  }

  /** The states CheckAddrman accepts. */
  ghost predicate CheckPasses(e: Env, v: View)
    requires e.Ok()
  {
    && |v.vRandom| == v.nTried + v.nNew
    && EntriesOk(v.mapInfo, v.mapAddr, v.vRandom)
    && |TriedIds(v.mapInfo)| == v.nTried && |NewIds(v.mapInfo, {})| == v.nNew
    && TriedTable(e, v.mapInfo, v.vvTried)
    && NewTable(e, v.mapInfo, v.vvNew) && RefCounts(e, v.mapInfo, v.vvNew)
    && CountersOk(e, v.mapInfo, v.counts)
  }

  // ----- the tried table

  predicate Before(k: Slot, b: int, p: int) { k.0 < b || (k.0 == b && k.1 < p) }

  lemma BeforeStep(b: int, p: int)
    ensures forall k: Slot :: Before(k, b, p + 1) <==> Before(k, b, p) || k == (b, p)
  {
    forall k: Slot ensures Before(k, b, p + 1) <==> Before(k, b, p) || k == (b, p) { assert k == (k.0, k.1); }
  }

  ghost predicate TriedSlotOk(e: Env, m: map<int, AddrInfo>, id: int, k: Slot)
    requires e.Ok()
  {
    id in m && m[id].fInTried && TriedSlot(e, m[id].service) == k
  }

  /** All slots before (b, p) are in order and `left` are the tried entries not met yet. */
  ghost predicate TriedSeen(e: Env, m: map<int, AddrInfo>, t: Grid, b: int, p: int, left: set<int>)
    requires e.Ok()
  {
    && (forall k :: k in t && Before(k, b, p) && t[k] != -1 ==> TriedSlotOk(e, m, t[k], k))
    && (forall id :: id in left <==> id in m && m[id].fInTried && !(exists k :: k in t && Before(k, b, p) && t[k] == id))
  }

  lemma TriedStep(e: Env, m: map<int, AddrInfo>, t: Grid, b: int, p: int, left: set<int>)
    requires e.Ok() && TriedSeen(e, m, t, b, p, left) && (b, p) in t && -1 !in m
    ensures t[(b, p)] == -1 ==> TriedSeen(e, m, t, b, p + 1, left)
    ensures t[(b, p)] != -1 && TriedSlotOk(e, m, t[(b, p)], (b, p)) ==> t[(b, p)] in left && TriedSeen(e, m, t, b, p + 1, left - {t[(b, p)]})
  {
    var k0 := (b, p);
    BeforeStep(b, p);
    if t[k0] != -1 && TriedSlotOk(e, m, t[k0], k0) {
      forall id ensures id in left - {t[k0]} <==> id in m && m[id].fInTried && !(exists k :: k in t && Before(k, b, p + 1) && t[k] == id) {
        if id == t[k0] { assert Before(k0, b, p + 1); }
      }
    } else if t[k0] == -1 {
      forall id ensures id in left <==> id in m && m[id].fInTried && !(exists k :: k in t && Before(k, b, p + 1) && t[k] == id) { }
    }
  }

  lemma TriedEnd(e: Env, m: map<int, AddrInfo>, t: Grid, left: set<int>)
    requires e.Ok() && GridShape(t, e.triedBuckets, e.bucketSize) && TriedSeen(e, m, t, e.triedBuckets, 0, left)
    requires -1 !in m
    ensures left == {} <==> TriedTable(e, m, t)
  {
    if TriedTable(e, m, t) {
      forall id ensures id !in left {
        if id in m && m[id].fInTried { assert t[TriedSlot(e, m[id].service)] == id; }
      }
    }
    if left == {} {
      forall id | id in m && m[id].fInTried ensures t[TriedSlot(e, m[id].service)] == id {
        assert id !in left;
        var k :| k in t && Before(k, e.triedBuckets, 0) && t[k] == id;
        assert TriedSlotOk(e, m, t[k], k);
      }
    }
  }

  /** The loop over the tried table: 0, or the code of the first slot that is wrong. */
  method CheckTried(e: Env, m: map<int, AddrInfo>, t: array2<int>, setTried: set<int>) returns (code: int)
    requires e.Ok() && t.Length0 == e.triedBuckets && t.Length1 == e.bucketSize && -1 !in m
    requires setTried == TriedIds(m)
    ensures code == 0 <==> TriedTable(e, m, GridOf(t))
  {
    ghost var g := GridOf(t);
    var left := setTried;
    for b := 0 to e.triedBuckets
      invariant TriedSeen(e, m, g, b, 0, left)
    {
      for p := 0 to e.bucketSize
        invariant TriedSeen(e, m, g, b, p, left)
      {
        TriedStep(e, m, g, b, p, left);
        assert g[(b, p)] == t[b, p];
        if t[b, p] != -1 {
          if t[b, p] !in left { return -11; }
          if t[b, p] !in m || TriedSlot(e, m[t[b, p]].service).0 != b { return -17; }
          if TriedSlot(e, m[t[b, p]].service).1 != p { return -18; }
          left := left - {t[b, p]};
        }
      }
      NextBucket(g, b, e.bucketSize, e.triedBuckets);
    }
    TriedEnd(e, m, g, left);
    code := if left != {} then -13 else 0;
  }

  lemma NextBucket(g: Grid, b: int, size: int, buckets: int)
    requires GridShape(g, buckets, size)
    ensures forall k :: k in g ==> (Before(k, b, size) <==> Before(k, b + 1, 0))
  {
  }

  // ----- the new table

  ghost predicate NewSlotOk(e: Env, m: map<int, AddrInfo>, id: int, k: Slot)
    requires e.Ok()
  {
    id in m && !m[id].fInTried && NewPos(e, m[id].service, k.0) == k.1
  }

  /** The buckets whose slot for this entry was passed and holds it. */
  ghost function Met(e: Env, t: Grid, s: Service, id: int, b: int, p: int): set<int>
    requires e.Ok() && GridShape(t, e.newBuckets, e.bucketSize)
  {
    set x | 0 <= x < e.newBuckets && Before((x, NewPos(e, s, x)), b, p) && t[(x, NewPos(e, s, x))] == id
  }

  /** All slots before (b, p) are in order and `left` says how many references of each entry are still to come. */
  ghost predicate NewSeen(e: Env, m: map<int, AddrInfo>, t: Grid, b: int, p: int, left: map<int, int>)
    requires e.Ok() && GridShape(t, e.newBuckets, e.bucketSize)
  {
    && (forall k :: k in t && Before(k, b, p) && t[k] != -1 ==> NewSlotOk(e, m, t[k], k))
    && (forall id :: id in left ==> id in m && !m[id].fInTried && left[id] == m[id].nRefCount - |Met(e, t, m[id].service, id, b, p)| && left[id] > 0)
    && (forall id :: id in m && !m[id].fInTried && id !in left ==> m[id].nRefCount == |Met(e, t, m[id].service, id, b, p)|)
  }

  lemma MetStep(e: Env, t: Grid, s: Service, id: int, b: int, p: int)
    requires e.Ok() && GridShape(t, e.newBuckets, e.bucketSize) && (b, p) in t
    ensures Met(e, t, s, id, b, p + 1) == if NewPos(e, s, b) == p && t[(b, p)] == id then Met(e, t, s, id, b, p) + {b} else Met(e, t, s, id, b, p)
    ensures NewPos(e, s, b) == p ==> b !in Met(e, t, s, id, b, p)
  {
  }

  lemma MetCount(e: Env, t: Grid, s: Service, id: int, b: int, p: int)
    requires e.Ok() && GridShape(t, e.newBuckets, e.bucketSize) && (b, p) in t
    ensures |Met(e, t, s, id, b, p + 1)| == |Met(e, t, s, id, b, p)| + if NewPos(e, s, b) == p && t[(b, p)] == id then 1 else 0
  {
    hide Met;
    MetStep(e, t, s, id, b, p);
  }

  lemma NewStep(e: Env, m: map<int, AddrInfo>, t: Grid, b: int, p: int, left: map<int, int>, id: int)
    requires e.Ok() && GridShape(t, e.newBuckets, e.bucketSize) && NewSeen(e, m, t, b, p, left) && (b, p) in t
    requires id == t[(b, p)] && id != -1 && NewSlotOk(e, m, id, (b, p)) && id in left
    ensures NewSeen(e, m, t, b, p + 1, if left[id] == 1 then left - {id} else left[id := left[id] - 1])
  {
    hide Met, NewPos;
    BeforeStep(b, p);
    forall j | j in m { MetCount(e, t, m[j].service, j, b, p); }
  }

  lemma NewSkip(e: Env, m: map<int, AddrInfo>, t: Grid, b: int, p: int, left: map<int, int>)
    requires e.Ok() && GridShape(t, e.newBuckets, e.bucketSize) && NewSeen(e, m, t, b, p, left) && (b, p) in t
    requires t[(b, p)] == -1 && -1 !in m
    ensures NewSeen(e, m, t, b, p + 1, left)
  {
    hide Met, NewPos;
    BeforeStep(b, p);
    forall j | j in m { MetCount(e, t, m[j].service, j, b, p); }
  }

  lemma MetGrows(e: Env, t: Grid, s: Service, id: int, b: int, p: int)
    requires e.Ok() && GridShape(t, e.newBuckets, e.bucketSize)
    ensures Met(e, t, s, id, b, p) <= Refs(e, t, s, id)
    ensures Met(e, t, s, id, e.newBuckets, 0) == Refs(e, t, s, id)
  {
  }

  /** A slot with a reference too many, or to an entry that is not new, means the tables are wrong. */
  lemma NewSurplus(e: Env, m: map<int, AddrInfo>, t: Grid, b: int, p: int, left: map<int, int>)
    requires e.Ok() && GridShape(t, e.newBuckets, e.bucketSize) && NewSeen(e, m, t, b, p, left) && (b, p) in t
    requires t[(b, p)] != -1 && t[(b, p)] !in left
    ensures !(NewTable(e, m, t) && RefCounts(e, m, t))
  {
    var id := t[(b, p)];
    if NewTable(e, m, t) {
      var s := m[id].service;
      MetStep(e, t, s, id, b, p);
      MetGrows(e, t, s, id, b, p + 1);
      var met, refs := Met(e, t, s, id, b, p), Refs(e, t, s, id);
      assert refs == (met + {b}) + (refs - (met + {b}));
      assert |refs| >= |met| + 1;
    }
  }

  lemma NewEnd(e: Env, m: map<int, AddrInfo>, t: Grid, left: map<int, int>)
    requires e.Ok() && GridShape(t, e.newBuckets, e.bucketSize) && NewSeen(e, m, t, e.newBuckets, 0, left) && -1 !in m
    requires forall id :: id in m && m[id].fInTried ==> m[id].nRefCount == 0
    ensures left == map[] <==> NewTable(e, m, t) && RefCounts(e, m, t)
  {
    assert forall k :: k in t ==> Before(k, e.newBuckets, 0);
    forall id | id in m { MetGrows(e, t, m[id].service, id, e.newBuckets, 0); }
    forall id | id in m && m[id].fInTried ensures Refs(e, t, m[id].service, id) == {} { }
    if left != map[] {
      assert exists id :: id in left by { assert (forall id :: id !in left) ==> left == map[]; }
    }
  }

  lemma NewStart(e: Env, m: map<int, AddrInfo>, t: Grid, mapNew: map<int, int>)
    requires e.Ok() && GridShape(t, e.newBuckets, e.bucketSize) && mapNew == map id | id in NewIds(m, {}) :: m[id].nRefCount
    requires forall id :: id in m && !m[id].fInTried ==> m[id].nRefCount > 0
    ensures NewSeen(e, m, t, 0, 0, mapNew)
  {
    assert forall id :: id in m ==> Met(e, t, m[id].service, id, 0, 0) == {};
  }

  lemma LeftIsNew(e: Env, m: map<int, AddrInfo>, t: Grid, b: int, p: int, left: map<int, int>, id: int)
    requires e.Ok() && GridShape(t, e.newBuckets, e.bucketSize) && NewSeen(e, m, t, b, p, left) && id in left
    ensures id in m && !m[id].fInTried
  {
  }

  lemma NewMisplaced(e: Env, m: map<int, AddrInfo>, t: Grid, b: int, p: int)
    requires e.Ok() && GridShape(t, e.newBuckets, e.bucketSize) && (b, p) in t && t[(b, p)] in m && NewPos(e, m[t[(b, p)]].service, b) != p
    requires t[(b, p)] != -1
    ensures !NewTable(e, m, t)
  {
    hide NewPos;
  }

  /** The loop over the new table. */
  method CheckNew(e: Env, m: map<int, AddrInfo>, t: array2<int>, mapNew: map<int, int>) returns (code: int)
    requires e.Ok() && t.Length0 == e.newBuckets && t.Length1 == e.bucketSize && -1 !in m
    requires mapNew == map id | id in NewIds(m, {}) :: m[id].nRefCount
    requires forall id :: id in m ==> if m[id].fInTried then m[id].nRefCount == 0 else m[id].nRefCount > 0
    ensures code == 0 <==> NewTable(e, m, GridOf(t)) && RefCounts(e, m, GridOf(t))
  {
    hide NewSeen, NewTable, RefCounts, NewPos;
    ghost var g := GridOf(t);
    var left := mapNew;
    NewStart(e, m, g, mapNew);
    for b := 0 to e.newBuckets
      invariant NewSeen(e, m, g, b, 0, left)
    {
      for p := 0 to e.bucketSize
        invariant NewSeen(e, m, g, b, p, left)
      {
        assert g[(b, p)] == t[b, p];
        if t[b, p] != -1 {
          var id := t[b, p];
          if id !in left {
            NewSurplus(e, m, g, b, p, left);
            return -12;
          }
          LeftIsNew(e, m, g, b, p, left, id);
          if id !in m || NewPos(e, m[id].service, b) != p {
            NewMisplaced(e, m, g, b, p);
            return -19;
          }
          NewStep(e, m, g, b, p, left, id);
          left := if left[id] == 1 then left - {id} else left[id := left[id] - 1];
        } else {
          NewSkip(e, m, g, b, p, left);
        }
      }
      NextBucketNew(e, m, g, b, left);
    }
    NewEnd(e, m, g, left);
    code := if left != map[] then -15 else 0;
  }

  lemma NextBucketNew(e: Env, m: map<int, AddrInfo>, t: Grid, b: int, left: map<int, int>)
    requires e.Ok() && GridShape(t, e.newBuckets, e.bucketSize) && NewSeen(e, m, t, b, e.bucketSize, left)
    ensures NewSeen(e, m, t, b + 1, 0, left)
  {
    NextBucket(t, b, e.bucketSize, e.newBuckets);
    forall id | id in m ensures Met(e, t, m[id].service, id, b + 1, 0) == Met(e, t, m[id].service, id, b, e.bucketSize) { }
  }

  // ----- the entries

  ghost function Done(m: map<int, AddrInfo>, todo: set<int>): map<int, AddrInfo> {
    map id | id in m && id !in todo :: m[id]
  }

  /** The scratch tables after the entries outside `todo` were visited. */
  ghost predicate Visited(e: Env, m: map<int, AddrInfo>, todo: set<int>, setTried: set<int>, mapNew: map<int, int>, local: map<int, Counts>) {
    var d := Done(m, todo);
    && setTried == TriedIds(d)
    && mapNew == (map id | id in NewIds(d, {}) :: d[id].nRefCount)
    && local.Keys == Networks(e, d)
    && NetCounts(e, d, {}, local)
  }

  lemma VisitTables(m: map<int, AddrInfo>, todo: set<int>, id: int)
    requires id in m && id in todo
    ensures var d, d' := Done(m, todo), Done(m, todo - {id});
      && d' == d[id := m[id]] && id !in d
      && TriedIds(d') == (if m[id].fInTried then TriedIds(d) + {id} else TriedIds(d))
      && NewIds(d', {}) == (if m[id].fInTried then NewIds(d, {}) else NewIds(d, {}) + {id})
  {
    var d, d' := Done(m, todo), Done(m, todo - {id});
    assert forall j :: j in d' <==> j in d || j == id;
  }

  lemma VisitNetworks(e: Env, d: map<int, AddrInfo>, id: int, i: AddrInfo)
    requires id !in d
    ensures Networks(e, d[id := i]) == Networks(e, d) + {NetOf(e, i)}
  {
    var d' := d[id := i];
    forall net | net in Networks(e, d) + {NetOf(e, i)} ensures net in Networks(e, d') {
      if net != NetOf(e, i) {
        var j :| j in d && NetOf(e, d[j]) == net;
        assert d'[j] == d[j];
      } else {
        assert d'[id] == i;
      }
    }
  }

  lemma VisitCounts(e: Env, m: map<int, AddrInfo>, todo: set<int>, id: int, local: map<int, Counts>)
    requires id in m && id in todo && NetCounts(e, Done(m, todo), {}, local)
    ensures NetCounts(e, Done(m, todo - {id}), {}, Bump(local, NetOf(e, m[id]), if m[id].fInTried then 0 else 1, if m[id].fInTried then 1 else 0))
  {
    var d, d' := Done(m, todo), Done(m, todo - {id});
    VisitTables(m, todo, id);
    TotalsAfter(e, d, d', {}, {}, |NewIds(d, {})|, |TriedIds(d)|, local, id, m[id],
                if m[id].fInTried then 0 else 1, if m[id].fInTried then 1 else 0);
  }

  lemma VisitStep(e: Env, m: map<int, AddrInfo>, todo: set<int>, setTried: set<int>, mapNew: map<int, int>, local: map<int, Counts>, id: int)
    requires id in m && id in todo && Visited(e, m, todo, setTried, mapNew, local)
    ensures Visited(e, m, todo - {id},
              if m[id].fInTried then setTried + {id} else setTried,
              if m[id].fInTried then mapNew else mapNew[id := m[id].nRefCount],
              Bump(local, NetOf(e, m[id]), if m[id].fInTried then 0 else 1, if m[id].fInTried then 1 else 0))
  {
    hide NetCounts;
    VisitTables(m, todo, id);
    VisitNetworks(e, Done(m, todo), id, m[id]);
    VisitCounts(e, m, todo, id, local);
  }

  /** The loop over mapInfo, in any order, which also fills the scratch tables. */
  method CheckEntries(e: Env, m: map<int, AddrInfo>, a: map<Service, int>, r: seq<int>)
    returns (code: int, setTried: set<int>, mapNew: map<int, int>, local: map<int, Counts>)
    ensures code == 0 <==> EntriesOk(m, a, r)
    ensures code == 0 ==> Visited(e, m, {}, setTried, mapNew, local)
  {
    hide Visited, EntryOk;
    setTried, mapNew, local, code := {}, map[], map[], 0;
    var todo := m.Keys;
    NoneVisited(e, m);
    while todo != {}
      invariant todo <= m.Keys && Visited(e, m, todo, setTried, mapNew, local)
      invariant forall id :: id in m && id !in todo ==> EntryOk(m, a, r, id)
    {
      assert (forall x :: x !in todo) ==> todo == {};
      var id :| id in todo;
      var i := m[id];
      VisitStep(e, m, todo, setTried, mapNew, local, id);
      code := CheckEntry(m, a, r, id);
      if code != 0 { return; }
      if i.fInTried {
        setTried := setTried + {id};
        local := Bump(local, NetOf(e, i), 0, 1);
      } else {
        mapNew := mapNew[id := i.nRefCount];
        local := Bump(local, NetOf(e, i), 1, 0);
      }
      todo := todo - {id};
    }
  }

  method CheckEntry(m: map<int, AddrInfo>, a: map<Service, int>, r: seq<int>, id: int) returns (code: int)
    requires id in m
    ensures code == 0 <==> EntryOk(m, a, r, id)
  {
    var i := m[id];
    if i.fInTried {
      if i.lastSuccess == 0 { return -1; }
      if i.nRefCount != 0 { return -2; }
    } else {
      if i.nRefCount < 0 || i.nRefCount > NEW_BUCKETS_PER_ADDRESS { return -3; }
      if i.nRefCount == 0 { return -4; }
    }
    if i.service !in a || a[i.service] != id { return -5; }
    if i.nRandomPos < 0 || i.nRandomPos >= |r| || r[i.nRandomPos] != id { return -14; }
    if i.lastTry < 0 { return -6; }
    if i.lastSuccess < 0 { return -8; }
    return 0;
  }

  lemma NoneVisited(e: Env, m: map<int, AddrInfo>)
    ensures Visited(e, m, m.Keys, {}, map[], map[])
  {
    var none: set<int> := {};
    var d := Done(m, m.Keys);
    assert d == map[];
    assert NewIds(d, {}) == none && TriedIds(d) == none;
    assert forall net :: OfNet(e, d, none, net) == none;
  }

  // ----- the counters

  method CheckCounters(e: Env, m: map<int, AddrInfo>, local: map<int, Counts>, c: map<int, Counts>) returns (code: int)
    requires local.Keys == Networks(e, m) && NetCounts(e, m, {}, local)
    ensures code == 0 <==> CountersOk(e, m, c)
  {
    assert |local| == |local.Keys|;
    if |c| < |local| { return -20; }
    var todo := c.Keys;
    while todo != {}
      invariant todo <= c.Keys
      invariant forall net :: net in c && net !in todo ==> c[net] == CountOf(local, net)
    {
      assert (forall x :: x !in todo) ==> todo == {};
      var net :| net in todo;
      assert CountOf(local, net) == Counts(|OfNet(e, m, NewIds(m, {}), net)|, |OfNet(e, m, TriedIds(m), net)|);
      if CountOf(local, net) != c[net] { return -21; }
      todo := todo - {net};
    }
    return 0;
  }

  // ----- what the check and the invariant say about each other

  /** The check never fires on a consistent manager. */
  lemma ConsistentPasses(e: Env, v: View)
    requires Consistent(e, v)
    ensures CheckPasses(e, v)
  {
    hide Inv, CheckPasses;
    InvPasses(e, v);
  }

  lemma InvPasses(e: Env, v: View)
    requires Inv(e, v, {}, {})
    ensures CheckPasses(e, v)
  {
    hide TriedTable, NewTable, Totals;
    ConsistentEntries(e, v);
    ConsistentCounters(e, v);
    hide RefCounts, RefStates, Indexes, Stamps;
  }

  lemma ConsistentEntries(e: Env, v: View)
    requires Inv(e, v, {}, {})
    ensures EntriesOk(v.mapInfo, v.mapAddr, v.vRandom)
  {
    hide TriedTable, Totals, NewTable;
    forall id | id in v.mapInfo ensures EntryOk(v.mapInfo, v.mapAddr, v.vRandom, id) { RefCountOf(e, v, id); }
  }

  lemma RefCountOf(e: Env, v: View, id: int)
    requires Inv(e, v, {}, {}) && id in v.mapInfo
    ensures v.mapInfo[id].nRefCount >= 0
  {
    RefCountNat(e, v, id);
  }

  /** vRandom has as many elements as there are ids. */
  lemma {:induction false} SizeOf(m: map<int, AddrInfo>, r: seq<int>)
    requires RandomIndex(m, r)
    ensures |r| == |m.Keys|
    decreases |r|
  {
    if r == [] {
      assert forall id :: id !in m.Keys;
      assert m.Keys == {};
    } else {
      var id := r[|r| - 1];
      DropRandomIndex(m, r);
      SizeOf(m - {id}, r[..|r| - 1]);
      assert (m - {id}).Keys == m.Keys - {id};
    }
  }

  lemma ConsistentCounters(e: Env, v: View)
    requires Inv(e, v, {}, {})
    ensures |v.vRandom| == v.nTried + v.nNew
    ensures |TriedIds(v.mapInfo)| == v.nTried && |NewIds(v.mapInfo, {})| == v.nNew
    ensures CountersOk(e, v.mapInfo, v.counts)
  {
    hide TriedTable, NewTable, RefCounts, RefStates, Stamps, AddrIndex;
    var m := v.mapInfo;
    SizeOf(m, v.vRandom);
    KeysSplit(m);
    RightCounts(e, m, v.counts);
  }

  /** Every entry is new or tried. */
  lemma KeysSplit(m: map<int, AddrInfo>)
    ensures |m.Keys| == |NewIds(m, {})| + |TriedIds(m)|
  {
    assert m.Keys == NewIds(m, {}) + TriedIds(m);
  }

  /** Right counters are accepted: every network with entries has one. */
  lemma RightCounts(e: Env, m: map<int, AddrInfo>, c: map<int, Counts>)
    requires NetCounts(e, m, {}, c)
    ensures CountersOk(e, m, c) && Networks(e, m) <= c.Keys
  {
    forall net | net in Networks(e, m) ensures net in c.Keys { SomeOfNet(e, m, net); }
    AddrManOps.CardOfSubset(Networks(e, m), c.Keys);
    assert |c| == |c.Keys|;
  }

  // ----- an accepted vRandom is a permutation of the ids

  ghost function Positions(m: map<int, AddrInfo>, ids: set<int>): set<int>
    requires ids <= m.Keys
  {
    set id | id in ids :: m[id].nRandomPos
  }

  ghost function Range(n: nat): (s: set<int>)
    ensures forall i :: i in s <==> 0 <= i < n
  {
    if n == 0 then {} else Range(n - 1) + {n - 1}
  }

  ghost predicate Placed(m: map<int, AddrInfo>, r: seq<int>) {
    forall id :: id in m ==> 0 <= m[id].nRandomPos < |r| && r[m[id].nRandomPos] == id
  }

  lemma {:induction false} PositionsSize(m: map<int, AddrInfo>, r: seq<int>, ids: set<int>)
    requires ids <= m.Keys && Placed(m, r)
    ensures |Positions(m, ids)| == |ids|
    decreases |ids|
  {
    if ids == {} {
      assert Positions(m, ids) == {};
    } else {
      assert (forall x :: x !in ids) ==> ids == {};
      var x :| x in ids;
      PositionsSize(m, r, ids - {x});
      assert Positions(m, ids) == Positions(m, ids - {x}) + {m[x].nRandomPos};
    }
  }

  lemma {:induction false} RangeSize(n: nat)
    ensures |Range(n)| == n
  {
    if n > 0 {
      RangeSize(n - 1);
    }
  }

  lemma SubsetOfSameSize(s: set<int>, t: set<int>)
    requires s <= t && |s| == |t|
    ensures s == t
  {
    assert t == s + (t - s);
  }

  lemma PlacedIsPermutation(m: map<int, AddrInfo>, r: seq<int>)
    requires Placed(m, r) && |r| == |m.Keys|
    ensures RandomIndex(m, r)
  {
    PositionsSize(m, r, m.Keys);
    RangeSize(|r|);
    SubsetOfSameSize(Positions(m, m.Keys), Range(|r|));
    forall i | 0 <= i < |r| ensures r[i] in m && m[r[i]].nRandomPos == i {
      assert i in Range(|r|);
    }
  }

  /** Conversely, the vRandom of an accepted state is a permutation of the ids. */
  lemma AcceptedPermutation(e: Env, v: View)
    requires e.Ok() && CheckPasses(e, v)
    ensures RandomIndex(v.mapInfo, v.vRandom)
  {
    hide TriedTable, NewTable, RefCounts, CountersOk, RandomIndex, EntriesOk, NewIds, TriedIds, Placed;
    EntriesPlaced(v.mapInfo, v.mapAddr, v.vRandom);
    KeysSplit(v.mapInfo);
    PlacedIsPermutation(v.mapInfo, v.vRandom);
  }

  lemma EntriesPlaced(m: map<int, AddrInfo>, a: map<Service, int>, r: seq<int>)
    requires EntriesOk(m, a, r)
    ensures Placed(m, r)
  {
    forall id | id in m ensures 0 <= m[id].nRandomPos < |r| && r[m[id].nRandomPos] == id { assert EntryOk(m, a, r, id); }
  }

  // ----- when acceptance means that the counters are right

  /** Accepted counters are right exactly when no network with entries lacks one. */
  lemma CountersExact(e: Env, m: map<int, AddrInfo>, c: map<int, Counts>)
    requires CountersOk(e, m, c)
    ensures NetCounts(e, m, {}, c) <==> Networks(e, m) <= c.Keys
  {
    if Networks(e, m) <= c.Keys {
      forall net ensures CountOf(c, net) == Counts(|OfNet(e, m, NewIds(m, {}), net)|, |OfNet(e, m, TriedIds(m), net)|) {
        if net !in c { NoneOfNet(e, m, net); }
      }
    } else {
      var net :| net in Networks(e, m) && net !in c;
      SomeOfNet(e, m, net);
    }
  }

  lemma NoneOfNet(e: Env, m: map<int, AddrInfo>, net: int)
    requires net !in Networks(e, m)
    ensures OfNet(e, m, NewIds(m, {}), net) == {} && OfNet(e, m, TriedIds(m), net) == {}
  {
    forall id | id in m ensures NetOf(e, m[id]) != net { assert NetOf(e, m[id]) in Networks(e, m); }
  }

  lemma SomeOfNet(e: Env, m: map<int, AddrInfo>, net: int)
    requires net in Networks(e, m)
    ensures |OfNet(e, m, NewIds(m, {}), net)| + |OfNet(e, m, TriedIds(m), net)| > 0
  {
    var id :| id in m && NetOf(e, m[id]) == net;
    assert id in OfNet(e, m, if m[id].fInTried then TriedIds(m) else NewIds(m, {}), net);
  }

  /** So accepted counters of which none is all zero are right. */
  lemma NoZeroCounter(e: Env, m: map<int, AddrInfo>, c: map<int, Counts>)
    requires CountersOk(e, m, c) && forall net :: net in c ==> c[net] != Counts(0, 0)
    ensures NetCounts(e, m, {}, c)
  {
    forall net | net in c.Keys ensures net in Networks(e, m) {
      if net !in Networks(e, m) { NoneOfNet(e, m, net); }
    }
    AddrManOps.CardOfSubset(c.Keys, Networks(e, m));
    assert |c| == |c.Keys|;
    SubsetOfSameSize(c.Keys, Networks(e, m));
    CountersExact(e, m, c);
  }

  /** The reverse index points at entries with that service only. */
  ghost predicate Backed(m: map<int, AddrInfo>, a: map<Service, int>) {
    forall s :: s in a ==> a[s] in m && m[a[s]].service == s
  }

  /** What the invariant asks of ids and addresses and the check does not look at. */
  ghost predicate Admitted(e: Env, v: View) {
    0 <= v.nIdCount && forall id :: id in v.mapInfo ==> 0 <= id < v.nIdCount && e.isRoutable(v.mapInfo[id].service.ip)
  }

  /** The check is the invariant, save for the four things it does not test. */
  lemma CheckExact(e: Env, v: View)
    requires e.Ok()
    ensures Inv(e, v, {}, {}) <==>
      && CheckPasses(e, v) && Admitted(e, v) && Backed(v.mapInfo, v.mapAddr) && Networks(e, v.mapInfo) <= v.counts.Keys
  {
    hide TriedTable, NewTable, RefCounts, CountersOk, NetCounts, RandomIndex;
    if Inv(e, v, {}, {}) {
      InvPasses(e, v);
      CountersExact(e, v.mapInfo, v.counts);
    } else if CheckPasses(e, v) && Admitted(e, v) && Backed(v.mapInfo, v.mapAddr) && Networks(e, v.mapInfo) <= v.counts.Keys {
      AcceptedPermutation(e, v);
      CountersExact(e, v.mapInfo, v.counts);
      AcceptedStates(v.mapInfo, v.mapAddr, v.vRandom);
    }
  }

  lemma AcceptedStates(m: map<int, AddrInfo>, a: map<Service, int>, r: seq<int>)
    requires EntriesOk(m, a, r)
    ensures RefStates(m, {} + {}) && Stamps(m)
    ensures Backed(m, a) ==> AddrIndex(m, a)
  {
  }

  /** One new entry whose network has no counter, next to a counter of zero for another network. */
  ghost function MaskedEnv(): (e: Env)
    ensures e.Ok()
  {
    Env(1, 1, 1, s => 0, (a, b) => 0, (s, n, b) => 0, (a: NetAddr) => a.net, (a: NetAddr) => a.net, a => true, a => true)
  }

  ghost function Masked(): View {
    var s := Service(NetAddr(1, []), 0);
    View(1, map[0 := AddrInfo(s, 0, 0, NetAddr(1, []), 0, 0, 0, 0, 1, false, 0)], map[s := 0], [0],
         0, map[(0, 0) := -1], 1, map[(0, 0) := 0], 1, {}, map[2 := Counts(0, 0)])
  }

  /** The check accepts a state in which a counter is missing. */
  lemma MaskedCounter()
    ensures CheckPasses(MaskedEnv(), Masked()) && !NetCounts(MaskedEnv(), Masked().mapInfo, {}, Masked().counts)
  {
    hide MaskedEnv, Masked, TriedTable, NewTable, RefCounts, CountersOk, NetCounts, NewIds, TriedIds, Networks, EntriesOk;
    MaskedTables();
    MaskedCounts();
    MaskedEntries();
    CountersExact(MaskedEnv(), Masked().mapInfo, Masked().counts);
  }

  lemma MaskedEntries()
    ensures EntriesOk(Masked().mapInfo, Masked().mapAddr, Masked().vRandom)
    ensures |Masked().vRandom| == 1 && Masked().nTried == 0 && Masked().nNew == 1 && 1 !in Masked().counts.Keys
  {
  }

  lemma MaskedTables()
    ensures var e, v := MaskedEnv(), Masked();
      TriedTable(e, v.mapInfo, v.vvTried) && NewTable(e, v.mapInfo, v.vvNew) && RefCounts(e, v.mapInfo, v.vvNew)
  {
    var e, v := MaskedEnv(), Masked();
    assert Refs(e, v.vvNew, v.mapInfo[0].service, 0) == {0};
  }

  lemma MaskedCounts()
    ensures var e, v := MaskedEnv(), Masked();
      && NewIds(v.mapInfo, {}) == {0} && TriedIds(v.mapInfo) == {} && Networks(e, v.mapInfo) == {1}
      && CountersOk(e, v.mapInfo, v.counts)
  {
    var e, v := MaskedEnv(), Masked();
    assert NewIds(v.mapInfo, {}) == {0} && TriedIds(v.mapInfo) == {};
    assert Networks(e, v.mapInfo) == {1};
    NoneOfNet(e, v.mapInfo, 2);
  }

  ghost function FromEmpty(e: Env, ops: seq<Runs.Op>): (v: View)
    requires e.Ok() && forall i :: 0 <= i < |ops| ==> Runs.Legal(ops[i])
    ensures Consistent(e, v)
  {
    hide Runs.Run, Consistent;
    Runs.EmptyConsistent(e);
    Runs.Run(e, Runs.Empty(e), ops)
  }

  /** After every run of operations from an empty address manager the check passes and vRandom is a permutation of the ids. */
  lemma EveryRunPasses(e: Env, ops: seq<Runs.Op>)
    requires e.Ok() && forall i :: 0 <= i < |ops| ==> Runs.Legal(ops[i])
    ensures CheckPasses(e, FromEmpty(e, ops))
    ensures RandomIndex(FromEmpty(e, ops).mapInfo, FromEmpty(e, ops).vRandom)
  {
    hide Consistent, CheckPasses, FromEmpty, RandomIndex;
    ConsistentPasses(e, FromEmpty(e, ops));
    AcceptedPermutation(e, FromEmpty(e, ops));
  }
}
