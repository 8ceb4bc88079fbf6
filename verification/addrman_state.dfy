/**
 The address manager as a value: its tables, indexes and counters, the small
 moves every operation is made of, and the invariant those moves keep.

 Hash functions, address classification and table sizes are parameters, so
 every statement holds for all of them.
 */
module AddrManState {

  /** CNetAddr: a network address without a port. */
  datatype NetAddr = NetAddr(net: int, bytes: seq<int>)

  /** CService: an address with a port; the key of the reverse index. */
  datatype Service = Service(ip: NetAddr, port: int)

  /** CAddress: an announced service. */
  datatype Address = Address(service: Service, nTime: int, nServices: bv64)

  datatype AddrInfo = AddrInfo(
    service: Service,
    nTime: int,
    nServices: bv64,
    source: NetAddr,
    lastTry: int,
    lastCountAttempt: int,
    lastSuccess: int,
    nAttempts: int,
    nRefCount: int,
    fInTried: bool,
    nRandomPos: int)

  /** Everything the manager takes from outside: sizes, salted hashes, address classes. */
  datatype Env = Env(
    triedBuckets: nat,
    newBuckets: nat,
    bucketSize: nat,
    triedHash: Service -> nat,
    newHash: (NetAddr, NetAddr) -> nat,
    posHash: (Service, bool, int) -> nat,
    networkOf: NetAddr -> int,
    netClassOf: NetAddr -> int,
    isRoutable: NetAddr -> bool,
    isValid: NetAddr -> bool)
  {
    ghost predicate Ok() {
      && triedBuckets > 0 && newBuckets > 0 && bucketSize > 0
      && forall a :: isRoutable(a) ==> isValid(a)
    }
  }

  const NEW_BUCKETS_PER_ADDRESS := 8
  const HORIZON := 30 * 24 * 3600
  const RETRIES := 3
  const MAX_FAILURES := 10
  const MIN_FAIL := 7 * 24 * 3600
  const REPLACEMENT := 4 * 3600
  const SET_TRIED_COLLISION_SIZE := 10
  const TEST_WINDOW := 40 * 60

  type Slot = (int, int)
  /** A bucket table; -1 marks an empty slot. */
  type Grid = map<Slot, int>

  datatype Counts = Counts(nNew: int, nTried: int)

  datatype View = View(
    nIdCount: int,
    mapInfo: map<int, AddrInfo>,
    mapAddr: map<Service, int>,
    vRandom: seq<int>,
    nTried: int,
    vvTried: Grid,
    nNew: int,
    vvNew: Grid,
    lastGood: int,
    collisions: set<int>,
    counts: map<int, Counts>)

  // ----- where an entry belongs

  function NewBucket(e: Env, s: Service, src: NetAddr): (b: int)
    requires e.Ok()
    ensures 0 <= b < e.newBuckets
  {
    e.newHash(s.ip, src) % e.newBuckets
  }

  function NewPos(e: Env, s: Service, b: int): (p: int)
    requires e.Ok()
    ensures 0 <= p < e.bucketSize
  {
    e.posHash(s, true, b) % e.bucketSize
  }

  function TriedSlot(e: Env, s: Service): (k: Slot)
    requires e.Ok()
    ensures 0 <= k.0 < e.triedBuckets && 0 <= k.1 < e.bucketSize
  {
    var b := e.triedHash(s) % e.triedBuckets;
    (b, e.posHash(s, false, b) % e.bucketSize)
  }

  function NewSlot(e: Env, s: Service, src: NetAddr): (k: Slot)
    requires e.Ok()
    ensures 0 <= k.0 < e.newBuckets && k.1 == NewPos(e, s, k.0)
  {
    var b := NewBucket(e, s, src);
    (b, NewPos(e, s, b))
  }

  function Max(a: int, b: int): int { if a < b then b else a }

  predicate IsTerrible(i: AddrInfo, now: int) {
    if now - i.lastTry <= 60 then false
    else if i.nTime > now + 600 then true
    else if now - i.nTime > HORIZON then true
    else if i.lastSuccess == 0 && i.nAttempts >= RETRIES then true
    else now - i.lastSuccess > MIN_FAIL && i.nAttempts >= MAX_FAILURES
  }

  // ----- the invariant, one index at a time

  ghost predicate GridShape(g: Grid, buckets: int, size: int) {
    forall k: Slot :: k in g <==> 0 <= k.0 < buckets && 0 <= k.1 < size
  }

  /** mapAddr is the exact inverse of "the service of an id". */
  ghost predicate AddrIndex(m: map<int, AddrInfo>, a: map<Service, int>) {
    && (forall id :: id in m ==> m[id].service in a && a[m[id].service] == id)
    && (forall s :: s in a ==> a[s] in m && m[a[s]].service == s)
  }

  /** vRandom is a permutation of the ids and nRandomPos is its inverse. */
  ghost predicate RandomIndex(m: map<int, AddrInfo>, r: seq<int>) {
    && (forall id :: id in m ==> 0 <= m[id].nRandomPos < |r| && r[m[id].nRandomPos] == id)
    && (forall i :: 0 <= i < |r| ==> r[i] in m && m[r[i]].nRandomPos == i)
  }

  /** A tried entry sits in its one slot, and a filled tried slot holds its tried entry. */
  ghost predicate TriedTable(e: Env, m: map<int, AddrInfo>, t: Grid)
    requires e.Ok()
  {
    && GridShape(t, e.triedBuckets, e.bucketSize)
    && (forall k :: k in t && t[k] != -1 ==> t[k] in m && m[t[k]].fInTried && TriedSlot(e, m[t[k]].service) == k)
    && (forall id :: id in m && m[id].fInTried ==> t[TriedSlot(e, m[id].service)] == id)
  }

  /** A filled new slot holds an entry that is not tried, at that entry's own position. */
  ghost predicate NewTable(e: Env, m: map<int, AddrInfo>, t: Grid)
    requires e.Ok()
  {
    && GridShape(t, e.newBuckets, e.bucketSize)
    && (forall k :: k in t && t[k] != -1 ==> t[k] in m && !m[t[k]].fInTried && NewPos(e, m[t[k]].service, k.0) == k.1)
  }

  /** The buckets in which an id is referenced from the new table. */
  ghost function Refs(e: Env, t: Grid, s: Service, id: int): set<int>
    requires e.Ok()
    requires GridShape(t, e.newBuckets, e.bucketSize)
  {
    set b | 0 <= b < e.newBuckets && t[(b, NewPos(e, s, b))] == id
  }

  ghost predicate RefCounts(e: Env, m: map<int, AddrInfo>, t: Grid)
    requires e.Ok()
    requires GridShape(t, e.newBuckets, e.bucketSize)
  {
    forall id :: id in m ==> m[id].nRefCount == |Refs(e, t, m[id].service, id)|
  }

  /** An entry without references is tried, or one of the entries in transit. */
  ghost predicate RefStates(m: map<int, AddrInfo>, transit: set<int>) {
    && (forall id :: id in m ==> m[id].nRefCount <= NEW_BUCKETS_PER_ADDRESS)
    && (forall id :: id in m && m[id].fInTried ==> m[id].nRefCount == 0)
    && (forall id :: id in m && !m[id].fInTried && m[id].nRefCount == 0 ==> id in transit)
    && (forall id :: id in transit ==> id in m && !m[id].fInTried && m[id].nRefCount == 0)
  }

  /** The entries nNew counts: not tried, and not taken out of the count for a move. */
  ghost function NewIds(m: map<int, AddrInfo>, limbo: set<int>): set<int> {
    set id | id in m && !m[id].fInTried && id !in limbo
  }

  ghost function TriedIds(m: map<int, AddrInfo>): set<int> {
    set id | id in m && m[id].fInTried
  }

  ghost function OfNet(e: Env, m: map<int, AddrInfo>, ids: set<int>, net: int): set<int> {
    set id | id in ids && id in m && e.networkOf(m[id].service.ip) == net
  }

  function CountOf(c: map<int, Counts>, net: int): Counts {
    if net in c then c[net] else Counts(0, 0)
  }

  ghost predicate NetCounts(e: Env, m: map<int, AddrInfo>, limbo: set<int>, c: map<int, Counts>) {
    forall net ::
      && CountOf(c, net).nNew == |OfNet(e, m, NewIds(m, limbo), net)|
      && CountOf(c, net).nTried == |OfNet(e, m, TriedIds(m), net)|
  }

  ghost predicate Totals(e: Env, m: map<int, AddrInfo>, limbo: set<int>, nNew: int, nTried: int, c: map<int, Counts>) {
    && nNew == |NewIds(m, limbo)|
    && nTried == |TriedIds(m)|
    && NetCounts(e, m, limbo, c)
  }

  ghost predicate Stamps(m: map<int, AddrInfo>) {
    forall id :: id in m ==>
      && m[id].lastTry >= 0 && m[id].lastSuccess >= 0
      && (m[id].fInTried ==> m[id].lastSuccess > 0)
  }

  /** The id map, its two inverse indexes, and what every stored address satisfies. */
  ghost predicate Indexes(e: Env, m: map<int, AddrInfo>, nIdCount: int, a: map<Service, int>, r: seq<int>) {
    && 0 <= nIdCount
    && (forall id :: id in m ==> 0 <= id < nIdCount && e.isRoutable(m[id].service.ip))
    && AddrIndex(m, a)
    && RandomIndex(m, r)
  }

  /**
   The invariant of a state in which the entries of `pending` are counted but not yet
   referenced, and those of `limbo` are neither counted nor referenced.
   */
  ghost predicate Inv(e: Env, v: View, pending: set<int>, limbo: set<int>)
  {
    && e.Ok()
    && Indexes(e, v.mapInfo, v.nIdCount, v.mapAddr, v.vRandom)
    && TriedTable(e, v.mapInfo, v.vvTried)
    && NewTable(e, v.mapInfo, v.vvNew)
    && RefCounts(e, v.mapInfo, v.vvNew)
    && pending !! limbo
    && RefStates(v.mapInfo, pending + limbo)
    && Totals(e, v.mapInfo, limbo, v.nNew, v.nTried, v.counts)
    && Stamps(v.mapInfo)
  }

  /** Ids waiting for a tried slot: still in new if they exist, their slot held by another entry. */
  ghost predicate Collisions(e: Env, v: View)
    requires e.Ok()
    requires GridShape(v.vvTried, e.triedBuckets, e.bucketSize)
  {
    && |v.collisions| <= SET_TRIED_COLLISION_SIZE
    && forall id :: id in v.collisions ==>
      && 0 <= id < v.nIdCount
      && (id in v.mapInfo ==>
        && !v.mapInfo[id].fInTried
        && v.vvTried[TriedSlot(e, v.mapInfo[id].service)] != -1)
  }

  ghost predicate Consistent(e: Env, v: View) {
    Inv(e, v, {}, {}) && Collisions(e, v)
  }

  // ----- the moves

  function Bump(c: map<int, Counts>, net: int, dNew: int, dTried: int): map<int, Counts> {
    c[net := Counts(CountOf(c, net).nNew + dNew, CountOf(c, net).nTried + dTried)]
  }

  function NetOf(e: Env, i: AddrInfo): int { e.networkOf(i.service.ip) }

  /** Create: a new id at the end of vRandom, counted but not referenced. */
  function Create(e: Env, v: View, a: Address, source: NetAddr): View {
    var id := v.nIdCount;
    var info := AddrInfo(a.service, a.nTime, a.nServices, source, 0, 0, 0, 0, 0, false, |v.vRandom|);
    v.(nIdCount := id + 1,
       mapInfo := v.mapInfo[id := info],
       mapAddr := v.mapAddr[a.service := id],
       vRandom := v.vRandom + [id],
       nNew := v.nNew + 1,
       counts := Bump(v.counts, e.networkOf(a.service.ip), 1, 0))
  }

  function SwapPositions(m: map<int, AddrInfo>, id1: int, i: int, id2: int, j: int): map<int, AddrInfo>
    requires id1 in m && id2 in m
  {
    m[id1 := m[id1].(nRandomPos := j)][id2 := m[id2].(nRandomPos := i)]
  }

  function SwapRandom(v: View, i: int, j: int): View
    requires 0 <= i < |v.vRandom| && 0 <= j < |v.vRandom|
    requires v.vRandom[i] in v.mapInfo && v.vRandom[j] in v.mapInfo
  {
    if i == j then v else
    v.(mapInfo := SwapPositions(v.mapInfo, v.vRandom[i], i, v.vRandom[j], j),
       vRandom := v.vRandom[i := v.vRandom[j]][j := v.vRandom[i]])
  }

  /** Forget an entry that stands last in vRandom. */
  function Drop(e: Env, v: View, id: int): View
    requires id in v.mapInfo && |v.vRandom| > 0
  {
    v.(counts := Bump(v.counts, NetOf(e, v.mapInfo[id]), -1, 0),
       vRandom := v.vRandom[..|v.vRandom| - 1],
       mapAddr := v.mapAddr - {v.mapInfo[id].service},
       mapInfo := v.mapInfo - {id},
       nNew := v.nNew - 1)
  }

  function Delete(e: Env, v: View, id: int): View
    requires id in v.mapInfo && RandomIndex(v.mapInfo, v.vRandom)
  {
    Drop(e, SwapRandom(v, v.mapInfo[id].nRandomPos, |v.vRandom| - 1), id)
  }

  /** Drop one reference from the new table. */
  function Unref(v: View, k: Slot): View
    requires k in v.vvNew && v.vvNew[k] in v.mapInfo
  {
    var id := v.vvNew[k];
    v.(mapInfo := v.mapInfo[id := v.mapInfo[id].(nRefCount := v.mapInfo[id].nRefCount - 1)],
       vvNew := v.vvNew[k := -1])
  }

  function ClearNew(e: Env, v: View, k: Slot): View
    requires k in v.vvNew && (v.vvNew[k] != -1 ==> v.vvNew[k] in v.mapInfo)
    requires RandomIndex(v.mapInfo, v.vRandom)
  {
    if v.vvNew[k] == -1 then v else
    var id := v.vvNew[k];
    var w := Unref(v, k);
    if w.mapInfo[id].nRefCount == 0 then Delete(e, w, id) else w
  }

  /** Enter an id into an empty slot of the new table. */
  function Link(v: View, id: int, k: Slot): View
    requires id in v.mapInfo
  {
    v.(mapInfo := v.mapInfo[id := v.mapInfo[id].(nRefCount := v.mapInfo[id].nRefCount + 1)],
       vvNew := v.vvNew[k := id])
  }

  /** Take an entry out of every new bucket and out of the counters. */
  function Unlink(e: Env, v: View, id: int): View
    requires id in v.mapInfo
  {
    v.(mapInfo := v.mapInfo[id := v.mapInfo[id].(nRefCount := 0)],
       vvNew := map k | k in v.vvNew :: if v.vvNew[k] == id then -1 else v.vvNew[k],
       nNew := v.nNew - 1,
       counts := Bump(v.counts, NetOf(e, v.mapInfo[id]), -1, 0))
  }

  /** Take an entry out of the tried table and out of the counters. */
  function Untry(e: Env, v: View, k: Slot): View
    requires k in v.vvTried && v.vvTried[k] in v.mapInfo
  {
    var id := v.vvTried[k];
    v.(mapInfo := v.mapInfo[id := v.mapInfo[id].(fInTried := false)],
       vvTried := v.vvTried[k := -1],
       nTried := v.nTried - 1,
       counts := Bump(v.counts, NetOf(e, v.mapInfo[id]), 0, -1))
  }

  /** Count an uncounted entry among the new ones again. */
  function Recount(e: Env, v: View, id: int): View
    requires id in v.mapInfo
  {
    v.(nNew := v.nNew + 1, counts := Bump(v.counts, NetOf(e, v.mapInfo[id]), 1, 0))
  }

  /** Enter an uncounted entry into its empty tried slot. */
  function IntoTried(e: Env, v: View, id: int, k: Slot): View
    requires id in v.mapInfo
  {
    v.(mapInfo := v.mapInfo[id := v.mapInfo[id].(fInTried := true)],
       vvTried := v.vvTried[k := id],
       nTried := v.nTried + 1,
       counts := Bump(v.counts, NetOf(e, v.mapInfo[id]), 0, 1))
  }

  /** Change only statistics of an entry. */
  function Touch(v: View, id: int, i: AddrInfo): View
    requires id in v.mapInfo
  {
    v.(mapInfo := v.mapInfo[id := i])
  }

  ghost predicate SameLinks(i: AddrInfo, j: AddrInfo) {
    && i.service == j.service && i.nRefCount == j.nRefCount
    && i.fInTried == j.fInTried && i.nRandomPos == j.nRandomPos
  }

  // ----- every move keeps the invariant

  lemma CardAfter(s: set<int>, t: set<int>, id: int)
    requires forall j :: j != id ==> (j in s <==> j in t)
    ensures |t| == |s| + (if id in t then 1 else 0) - (if id in s then 1 else 0)
  {
    assert s - {id} == t - {id} by {
      forall j ensures j in s - {id} <==> j in t - {id} { }
    }
    if id in s { assert s == (s - {id}) + {id}; }
    if id in t { assert t == (t - {id}) + {id}; }
  }

  /** All counters after a move that changes the class of one id only. */
  lemma TotalsAfter(e: Env, m: map<int, AddrInfo>, m': map<int, AddrInfo>, limbo: set<int>, limbo': set<int>,
                    nNew: int, nTried: int, c: map<int, Counts>, id: int, info: AddrInfo, dNew: int, dTried: int)
    requires Totals(e, m, limbo, nNew, nTried, c)
    requires (id in m ==> m[id].service == info.service) && (id in m' ==> m'[id].service == info.service)
    requires forall j :: j != id ==> (j in m <==> j in m')
    requires forall j :: j != id && j in m ==> m'[j].service == m[j].service && m'[j].fInTried == m[j].fInTried
    requires forall j :: j != id ==> (j in limbo <==> j in limbo')
    requires dNew == (if id in NewIds(m', limbo') then 1 else 0) - (if id in NewIds(m, limbo) then 1 else 0)
    requires dTried == (if id in TriedIds(m') then 1 else 0) - (if id in TriedIds(m) then 1 else 0)
    ensures Totals(e, m', limbo', nNew + dNew, nTried + dTried, Bump(c, NetOf(e, info), dNew, dTried))
  {
    var home := NetOf(e, info);
    var c' := Bump(c, home, dNew, dTried);
    CardAfter(NewIds(m, limbo), NewIds(m', limbo'), id);
    CardAfter(TriedIds(m), TriedIds(m'), id);
    forall net
      ensures CountOf(c', net).nNew == |OfNet(e, m', NewIds(m', limbo'), net)|
      ensures CountOf(c', net).nTried == |OfNet(e, m', TriedIds(m'), net)|
    {
      CardAfter(OfNet(e, m, NewIds(m, limbo), net), OfNet(e, m', NewIds(m', limbo'), net), id);
      CardAfter(OfNet(e, m, TriedIds(m), net), OfNet(e, m', TriedIds(m'), net), id);
    }
  }

  // Rewriting one entry: what each part of the invariant asks of the new value.

  lemma IndexesPut(e: Env, m: map<int, AddrInfo>, id: int, i: AddrInfo, n: int, a: map<Service, int>, r: seq<int>)
    requires Indexes(e, m, n, a, r) && id in m
    requires i.service == m[id].service && i.nRandomPos == m[id].nRandomPos
    ensures Indexes(e, m[id := i], n, a, r)
  {
    assert AddrIndex(m[id := i], a);
    assert RandomIndex(m[id := i], r);
  }

  lemma StatesPut(m: map<int, AddrInfo>, id: int, i: AddrInfo, transit: set<int>, transit': set<int>)
    requires RefStates(m, transit) && Stamps(m) && id in m
    requires 0 <= i.nRefCount <= NEW_BUCKETS_PER_ADDRESS && (i.fInTried ==> i.nRefCount == 0)
    requires id in transit' <==> !i.fInTried && i.nRefCount == 0
    requires forall j :: j != id ==> (j in transit <==> j in transit')
    requires i.lastTry >= 0 && i.lastSuccess >= 0 && (i.fInTried ==> i.lastSuccess > 0)
    ensures RefStates(m[id := i], transit') && Stamps(m[id := i])
  {
  }

  lemma TotalsPut(e: Env, m: map<int, AddrInfo>, id: int, i: AddrInfo, limbo: set<int>, limbo': set<int>,
                  nNew: int, nTried: int, c: map<int, Counts>, dNew: int, dTried: int)
    requires Totals(e, m, limbo, nNew, nTried, c) && id in m && i.service == m[id].service
    requires forall j :: j != id ==> (j in limbo <==> j in limbo')
    requires dNew == (if !i.fInTried && id !in limbo' then 1 else 0) - (if !m[id].fInTried && id !in limbo then 1 else 0)
    requires dTried == (if i.fInTried then 1 else 0) - (if m[id].fInTried then 1 else 0)
    ensures Totals(e, m[id := i], limbo', nNew + dNew, nTried + dTried, Bump(c, NetOf(e, i), dNew, dTried))
  {
    TotalsAfter(e, m, m[id := i], limbo, limbo', nNew, nTried, c, id, i, dNew, dTried);
  }

  lemma TotalsSame(e: Env, m: map<int, AddrInfo>, m': map<int, AddrInfo>, limbo: set<int>, nNew: int, nTried: int, c: map<int, Counts>)
    requires Totals(e, m, limbo, nNew, nTried, c)
    requires forall id :: id in m <==> id in m'
    requires forall id :: id in m ==> m'[id].service == m[id].service && m'[id].fInTried == m[id].fInTried
    ensures Totals(e, m', limbo, nNew, nTried, c)
  {
    var a, a', b, b' := NewIds(m, limbo), NewIds(m', limbo), TriedIds(m), TriedIds(m');
    assert a' == a by { forall id ensures id in a' <==> id in a { } }
    assert b' == b by { forall id ensures id in b' <==> id in b { } }
    forall net ensures OfNet(e, m', a', net) == OfNet(e, m, a, net) && OfNet(e, m', b', net) == OfNet(e, m, b, net) {
      forall id ensures id in OfNet(e, m', a', net) <==> id in OfNet(e, m, a, net) { }
      forall id ensures id in OfNet(e, m', b', net) <==> id in OfNet(e, m, b, net) { }
    }
  }

  lemma TotalsSamePut(e: Env, m: map<int, AddrInfo>, id: int, i: AddrInfo, limbo: set<int>, nNew: int, nTried: int, c: map<int, Counts>)
    requires Totals(e, m, limbo, nNew, nTried, c) && id in m && i.service == m[id].service && i.fInTried == m[id].fInTried
    ensures Totals(e, m[id := i], limbo, nNew, nTried, c)
  {
    TotalsSame(e, m, m[id := i], limbo, nNew, nTried, c);
  }

  lemma TablesSame(e: Env, m: map<int, AddrInfo>, m': map<int, AddrInfo>, t: Grid, n: Grid)
    requires e.Ok() && TriedTable(e, m, t) && NewTable(e, m, n) && RefCounts(e, m, n)
    requires forall id :: id in m <==> id in m'
    requires forall id :: id in m ==> m'[id].service == m[id].service && m'[id].fInTried == m[id].fInTried && m'[id].nRefCount == m[id].nRefCount
    ensures TriedTable(e, m', t) && NewTable(e, m', n) && RefCounts(e, m', n)
  {
  }

  /** Reference counts after writing x into one slot of the new table. */
  lemma RefCountsPut(e: Env, m: map<int, AddrInfo>, m': map<int, AddrInfo>, t: Grid, k: Slot, x: int)
    requires e.Ok() && GridShape(t, e.newBuckets, e.bucketSize) && k in t && t[k] != x
    requires RefCounts(e, m, t)
    requires forall j :: j in m <==> j in m'
    requires forall j :: j in m ==> m'[j].service == m[j].service
    requires forall j :: j in m && (j == x || j == t[k]) ==> NewPos(e, m[j].service, k.0) == k.1
    requires forall j :: j in m ==> m'[j].nRefCount == m[j].nRefCount + (if j == x then 1 else 0) - (if j == t[k] then 1 else 0)
    ensures GridShape(t[k := x], e.newBuckets, e.bucketSize)
    ensures RefCounts(e, m', t[k := x])
  {
    forall j | j in m' ensures m'[j].nRefCount == |Refs(e, t[k := x], m'[j].service, j)| {
      CardAfter(Refs(e, t, m[j].service, j), Refs(e, t[k := x], m[j].service, j), k.0);
    }
  }

  // Create

  lemma CreateIndexes(e: Env, v: View, a: Address, source: NetAddr)
    requires Indexes(e, v.mapInfo, v.nIdCount, v.mapAddr, v.vRandom)
    requires e.isRoutable(a.service.ip) && a.service !in v.mapAddr
    ensures var w := Create(e, v, a, source); Indexes(e, w.mapInfo, w.nIdCount, w.mapAddr, w.vRandom)
  {
    var w := Create(e, v, a, source);
    assert AddrIndex(w.mapInfo, w.mapAddr);
    assert RandomIndex(w.mapInfo, w.vRandom);
  }

  lemma CreateTables(e: Env, v: View, a: Address, source: NetAddr)
    requires e.Ok() && v.nIdCount !in v.mapInfo && v.nIdCount >= 0
    requires TriedTable(e, v.mapInfo, v.vvTried) && NewTable(e, v.mapInfo, v.vvNew) && RefCounts(e, v.mapInfo, v.vvNew)
    ensures var w := Create(e, v, a, source);
      TriedTable(e, w.mapInfo, w.vvTried) && NewTable(e, w.mapInfo, w.vvNew) && RefCounts(e, w.mapInfo, w.vvNew)
  {
    assert Refs(e, v.vvNew, a.service, v.nIdCount) == {};
  }

  lemma CreateTotals(e: Env, v: View, a: Address, source: NetAddr)
    requires v.nIdCount !in v.mapInfo
    requires Totals(e, v.mapInfo, {}, v.nNew, v.nTried, v.counts)
    ensures var w := Create(e, v, a, source); Totals(e, w.mapInfo, {}, w.nNew, w.nTried, w.counts)
  {
    var w := Create(e, v, a, source);
    TotalsAfter(e, v.mapInfo, w.mapInfo, {}, {}, v.nNew, v.nTried, v.counts, v.nIdCount, w.mapInfo[v.nIdCount], 1, 0);
  }

  lemma CreateStates(e: Env, v: View, a: Address, source: NetAddr)
    requires v.nIdCount !in v.mapInfo
    requires RefStates(v.mapInfo, {}) && Stamps(v.mapInfo)
    ensures var w := Create(e, v, a, source); RefStates(w.mapInfo, {v.nIdCount}) && Stamps(w.mapInfo)
  {
  }

  lemma CreateKeeps(e: Env, v: View, a: Address, source: NetAddr)
    requires Inv(e, v, {}, {})
    requires e.isRoutable(a.service.ip) && a.service !in v.mapAddr
    ensures Inv(e, Create(e, v, a, source), {v.nIdCount}, {})
  {
    assert v.nIdCount !in v.mapInfo;
    var none: set<int> := {};
    assert none + none == none && {v.nIdCount} + none == {v.nIdCount};
    CreateIndexes(e, v, a, source);
    CreateTables(e, v, a, source);
    CreateTotals(e, v, a, source);
    CreateStates(e, v, a, source);
  }

  // Touch

  lemma TouchKeeps(e: Env, v: View, id: int, i: AddrInfo, pending: set<int>, limbo: set<int>)
    requires Inv(e, v, pending, limbo)
    requires id in v.mapInfo && SameLinks(v.mapInfo[id], i)
    requires i.lastTry >= 0 && i.lastSuccess >= 0 && (i.fInTried ==> i.lastSuccess > 0)
    ensures Inv(e, Touch(v, id, i), pending, limbo)
  {
    hide Indexes, TriedTable, NewTable, RefCounts, Totals, RefStates, Stamps;
    var m, m' := v.mapInfo, v.mapInfo[id := i];
    Basics(e, v, id, pending, limbo);
    EntryStates(m, pending + limbo, id);
    IndexesPut(e, m, id, i, v.nIdCount, v.mapAddr, v.vRandom);
    TablesSame(e, m, m', v.vvTried, v.vvNew);
    TotalsSame(e, m, m', limbo, v.nNew, v.nTried, v.counts);
    StatesPut(m, id, i, pending + limbo, pending + limbo);
  }

  lemma RefCountNat(e: Env, v: View, id: int)
    requires e.Ok() && GridShape(v.vvNew, e.newBuckets, e.bucketSize) && RefCounts(e, v.mapInfo, v.vvNew) && id in v.mapInfo
    ensures v.mapInfo[id].nRefCount >= 0
  {
  }

  lemma Basics(e: Env, v: View, id: int, pending: set<int>, limbo: set<int>)
    requires Inv(e, v, pending, limbo) && id in v.mapInfo
    ensures e.Ok() && -1 !in v.mapInfo && 0 <= id < v.nIdCount && v.mapInfo[id].nRefCount >= 0
  {
    hide TriedTable, Totals, RefStates, Stamps, AddrIndex, RandomIndex;
    RefCountNat(e, v, id);
  }

  lemma FilledTried(e: Env, m: map<int, AddrInfo>, t: Grid, k: Slot)
    requires e.Ok() && TriedTable(e, m, t) && k in t && t[k] != -1
    ensures t[k] in m && m[t[k]].fInTried
  {
    hide TriedSlot;
  }

  lemma TransitEntry(m: map<int, AddrInfo>, transit: set<int>, id: int)
    requires RefStates(m, transit) && id in transit
    ensures id in m && !m[id].fInTried && m[id].nRefCount == 0
  {
  }

  lemma EntryStates(m: map<int, AddrInfo>, transit: set<int>, id: int)
    requires RefStates(m, transit) && id in m && m[id].nRefCount >= 0
    ensures m[id].nRefCount <= NEW_BUCKETS_PER_ADDRESS && (m[id].fInTried ==> m[id].nRefCount == 0)
    ensures id in transit <==> !m[id].fInTried && m[id].nRefCount == 0
  {
  }

  // SwapRandom and Delete

  ghost predicate OnlyPositions(m: map<int, AddrInfo>, m': map<int, AddrInfo>) {
    && (forall id :: id in m ==> id in m' && m'[id] == m[id].(nRandomPos := m'[id].nRandomPos))
    && (forall id :: id in m' ==> id in m)
  }

  lemma SwapEffect(m: map<int, AddrInfo>, r: seq<int>, i: int, j: int)
    requires RandomIndex(m, r) && 0 <= i < |r| && 0 <= j < |r| && i != j
    ensures OnlyPositions(m, SwapPositions(m, r[i], i, r[j], j))
    ensures RandomIndex(SwapPositions(m, r[i], i, r[j], j), r[i := r[j]][j := r[i]])
  {
    var id1, id2 := r[i], r[j];
    assert id1 != id2;
    var m', r' := SwapPositions(m, id1, i, id2, j), r[i := id2][j := id1];
    forall id | id in m' ensures 0 <= m'[id].nRandomPos < |r'| && r'[m'[id].nRandomPos] == id {
      if id != id1 && id != id2 { assert m'[id] == m[id]; }
    }
    forall k | 0 <= k < |r'| ensures r'[k] in m' && m'[r'[k]].nRandomPos == k {
      if k != i && k != j { assert r'[k] == r[k] && r[k] != id1 && r[k] != id2; }
    }
  }

  lemma AddrIndexPositions(m: map<int, AddrInfo>, m': map<int, AddrInfo>, a: map<Service, int>)
    requires AddrIndex(m, a) && OnlyPositions(m, m')
    ensures AddrIndex(m', a)
  {
    forall s | s in a ensures a[s] in m' && m'[a[s]].service == s {
      var id := a[s];
      assert id in m && id in m';
    }
  }

  lemma StatesPositions(m: map<int, AddrInfo>, m': map<int, AddrInfo>, transit: set<int>)
    requires RefStates(m, transit) && Stamps(m) && OnlyPositions(m, m')
    ensures RefStates(m', transit) && Stamps(m')
  {
  }

  lemma SwapKeeps(e: Env, v: View, i: int, j: int, pending: set<int>, limbo: set<int>)
    requires Inv(e, v, pending, limbo)
    requires 0 <= i < |v.vRandom| && 0 <= j < |v.vRandom|
    ensures Inv(e, SwapRandom(v, i, j), pending, limbo)
  {
    if i != j {
      var m, m' := v.mapInfo, SwapRandom(v, i, j).mapInfo;
      SwapEffect(m, v.vRandom, i, j);
      AddrIndexPositions(m, m', v.mapAddr);
      StatesPositions(m, m', pending + limbo);
      TablesSame(e, m, m', v.vvTried, v.vvNew);
      TotalsSame(e, m, m', limbo, v.nNew, v.nTried, v.counts);
    }
  }

  lemma DropAddrIndex(m: map<int, AddrInfo>, a: map<Service, int>, id: int)
    requires AddrIndex(m, a) && id in m
    ensures AddrIndex(m - {id}, a - {m[id].service})
  {
  }

  lemma DropRandomIndex(m: map<int, AddrInfo>, r: seq<int>)
    requires RandomIndex(m, r) && |r| > 0
    ensures RandomIndex(m - {r[|r| - 1]}, r[..|r| - 1])
  {
  }

  lemma DropTables(e: Env, m: map<int, AddrInfo>, id: int, t: Grid, n: Grid)
    requires e.Ok() && TriedTable(e, m, t) && NewTable(e, m, n) && RefCounts(e, m, n)
    requires id in m && !m[id].fInTried && m[id].nRefCount == 0
    ensures TriedTable(e, m - {id}, t) && NewTable(e, m - {id}, n) && RefCounts(e, m - {id}, n)
  {
    RefsHas(e, m, id, n);
  }

  /** Every slot of the new table that holds an entry counts as one of its references. */
  lemma RefsHas(e: Env, m: map<int, AddrInfo>, id: int, n: Grid)
    requires e.Ok() && NewTable(e, m, n) && id in m
    ensures forall k :: k in n && n[k] == id && id != -1 ==> k.0 in Refs(e, n, m[id].service, id)
  {
    forall k | k in n && n[k] == id && id != -1 ensures k.0 in Refs(e, n, m[id].service, id) {
      assert k == (k.0, NewPos(e, m[id].service, k.0));
    }
  }

  lemma DropStates(m: map<int, AddrInfo>, id: int, transit: set<int>)
    requires RefStates(m, transit) && Stamps(m)
    ensures RefStates(m - {id}, transit - {id}) && Stamps(m - {id})
  {
  }

  lemma DropTotals(e: Env, m: map<int, AddrInfo>, id: int, limbo: set<int>, nNew: int, nTried: int, c: map<int, Counts>)
    requires Totals(e, m, limbo, nNew, nTried, c) && id in m && !m[id].fInTried && id !in limbo
    ensures Totals(e, m - {id}, limbo, nNew - 1, nTried, Bump(c, NetOf(e, m[id]), -1, 0))
  {
    TotalsAfter(e, m, m - {id}, limbo, limbo, nNew, nTried, c, id, m[id], -1, 0);
  }

  lemma DropIndexes(e: Env, v: View, id: int)
    requires |v.vRandom| > 0 && id == v.vRandom[|v.vRandom| - 1] && Indexes(e, v.mapInfo, v.nIdCount, v.mapAddr, v.vRandom)
    ensures var w := Drop(e, v, id); Indexes(e, w.mapInfo, w.nIdCount, w.mapAddr, w.vRandom)
  {
    DropAddrIndex(v.mapInfo, v.mapAddr, id);
    DropRandomIndex(v.mapInfo, v.vRandom);
  }

  lemma DropKeeps(e: Env, v: View, id: int, pending: set<int>, limbo: set<int>)
    requires Inv(e, v, pending, limbo) && |v.vRandom| > 0 && id == v.vRandom[|v.vRandom| - 1] && id in pending
    ensures Inv(e, Drop(e, v, id), pending - {id}, limbo)
  {
    assert id in pending + limbo && id !in limbo;
    assert (pending - {id}) + limbo == (pending + limbo) - {id};
    DropIndexes(e, v, id);
    DropTables(e, v.mapInfo, id, v.vvTried, v.vvNew);
    DropTotals(e, v.mapInfo, id, limbo, v.nNew, v.nTried, v.counts);
    DropStates(v.mapInfo, id, pending + limbo);
  }

  lemma DeleteKeeps(e: Env, v: View, id: int, pending: set<int>, limbo: set<int>)
    requires Inv(e, v, pending, limbo) && id in pending
    ensures Inv(e, Delete(e, v, id), pending - {id}, limbo)
  {
    hide Inv, SwapRandom, Drop;
    LastForDelete(e, v, id, pending, limbo);
    var i, j := v.mapInfo[id].nRandomPos, |v.vRandom| - 1;
    SwapKeeps(e, v, i, j, pending, limbo);
    DropKeeps(e, SwapRandom(v, i, j), id, pending, limbo);
  }

  /** Swapped with the last entry of vRandom, an entry stands last. */
  lemma LastForDelete(e: Env, v: View, id: int, pending: set<int>, limbo: set<int>)
    requires Inv(e, v, pending, limbo) && id in pending
    ensures id in v.mapInfo && |v.vRandom| > 0 && 0 <= v.mapInfo[id].nRandomPos < |v.vRandom|
    ensures v.vRandom[v.mapInfo[id].nRandomPos] in v.mapInfo && v.vRandom[|v.vRandom| - 1] in v.mapInfo
    ensures var w := SwapRandom(v, v.mapInfo[id].nRandomPos, |v.vRandom| - 1); |w.vRandom| == |v.vRandom| && w.vRandom[|v.vRandom| - 1] == id && id in w.mapInfo
  {
    hide TriedTable, NewTable, RefCounts, Totals, Stamps, AddrIndex;
    assert id in pending + limbo;
  }

  // References in the new table

  lemma UnrefTables(e: Env, v: View, k: Slot)
    requires e.Ok() && TriedTable(e, v.mapInfo, v.vvTried) && NewTable(e, v.mapInfo, v.vvNew) && RefCounts(e, v.mapInfo, v.vvNew)
    requires k in v.vvNew && v.vvNew[k] != -1 && -1 !in v.mapInfo
    ensures var w := Unref(v, k);
      TriedTable(e, w.mapInfo, w.vvTried) && NewTable(e, w.mapInfo, w.vvNew) && RefCounts(e, w.mapInfo, w.vvNew)
    ensures v.mapInfo[v.vvNew[k]].nRefCount > 0
  {
    var id := v.vvNew[k];
    var w := Unref(v, k);
    FilledSlot(e, v.mapInfo, v.vvNew, k);
    UnrefNewTable(e, v, k);
    TablesPut(e, v.mapInfo, id, w.mapInfo[id], v.vvTried);
    hide TriedTable, NewTable, Refs, NewPos;
    RefCountsPut(e, v.mapInfo, w.mapInfo, v.vvNew, k, -1);
  }

  lemma FilledSlot(e: Env, m: map<int, AddrInfo>, n: Grid, k: Slot)
    requires e.Ok() && NewTable(e, m, n) && RefCounts(e, m, n) && k in n && n[k] != -1
    ensures n[k] in m && !m[n[k]].fInTried && NewPos(e, m[n[k]].service, k.0) == k.1 && m[n[k]].nRefCount > 0
  {
    RefsHas(e, m, n[k], n);
  }

  lemma UnrefNewTable(e: Env, v: View, k: Slot)
    requires e.Ok() && NewTable(e, v.mapInfo, v.vvNew) && k in v.vvNew && v.vvNew[k] != -1
    ensures NewTable(e, Unref(v, k).mapInfo, Unref(v, k).vvNew)
  {
    hide NewPos;
    assert v.vvNew[k := -1].Keys == v.vvNew.Keys;
  }

  lemma TablesPut(e: Env, m: map<int, AddrInfo>, id: int, i: AddrInfo, t: Grid)
    requires e.Ok() && TriedTable(e, m, t) && id in m && i.service == m[id].service && i.fInTried == m[id].fInTried
    ensures TriedTable(e, m[id := i], t)
  {
    hide TriedSlot;
  }

  lemma UnrefKeeps(e: Env, v: View, k: Slot, pending: set<int>, limbo: set<int>)
    requires Inv(e, v, pending, limbo)
    requires k in v.vvNew && v.vvNew[k] != -1
    ensures v.mapInfo[v.vvNew[k]].nRefCount > 0
    ensures var id := v.vvNew[k];
      Inv(e, Unref(v, k), if v.mapInfo[id].nRefCount == 1 then pending + {id} else pending, limbo)
  {
    hide Indexes, TriedTable, NewTable, RefCounts, Totals, RefStates, Stamps;
    var id := v.vvNew[k];
    FilledSlot(e, v.mapInfo, v.vvNew, k);
    Basics(e, v, id, pending, limbo);
    var m, i := v.mapInfo, v.mapInfo[id].(nRefCount := v.mapInfo[id].nRefCount - 1);
    var pending' := if i.nRefCount == 0 then pending + {id} else pending;
    UnrefTables(e, v, k);
    IndexesPut(e, m, id, i, v.nIdCount, v.mapAddr, v.vRandom);
    TotalsSamePut(e, m, id, i, limbo, v.nNew, v.nTried, v.counts);
    UnrefStates(m, id, i, pending, pending', limbo);
  }

  lemma UnrefStates(m: map<int, AddrInfo>, id: int, i: AddrInfo, pending: set<int>, pending': set<int>, limbo: set<int>)
    requires RefStates(m, pending + limbo) && Stamps(m) && id in m && !m[id].fInTried && m[id].nRefCount > 0
    requires i == m[id].(nRefCount := m[id].nRefCount - 1)
    requires pending' == if i.nRefCount == 0 then pending + {id} else pending
    ensures id !in limbo
    ensures RefStates(m[id := i], pending' + limbo) && Stamps(m[id := i])
  {
    assert id !in pending + limbo;
    StatesPut(m, id, i, pending + limbo, pending' + limbo);
  }

  lemma LinkTables(e: Env, v: View, id: int, k: Slot)
    requires e.Ok() && TriedTable(e, v.mapInfo, v.vvTried) && NewTable(e, v.mapInfo, v.vvNew) && RefCounts(e, v.mapInfo, v.vvNew)
    requires id in v.mapInfo && id != -1 && -1 !in v.mapInfo && !v.mapInfo[id].fInTried
    requires k in v.vvNew && v.vvNew[k] == -1 && NewPos(e, v.mapInfo[id].service, k.0) == k.1
    ensures var w := Link(v, id, k);
      TriedTable(e, w.mapInfo, w.vvTried) && NewTable(e, w.mapInfo, w.vvNew) && RefCounts(e, w.mapInfo, w.vvNew)
  {
    var w := Link(v, id, k);
    RefCountsPut(e, v.mapInfo, w.mapInfo, v.vvNew, k, id);
  }

  lemma LinkStates(m: map<int, AddrInfo>, id: int, i: AddrInfo, pending: set<int>, limbo: set<int>)
    requires RefStates(m, pending + limbo) && Stamps(m) && id in m && !m[id].fInTried
    requires 0 <= m[id].nRefCount < NEW_BUCKETS_PER_ADDRESS && id !in limbo
    requires i == m[id].(nRefCount := m[id].nRefCount + 1)
    ensures RefStates(m[id := i], (pending - {id}) + limbo) && Stamps(m[id := i])
  {
    StatesPut(m, id, i, pending + limbo, (pending - {id}) + limbo);
  }

  /** Entering a counted entry into an empty slot of its own; it is no longer pending. */
  lemma LinkKeeps(e: Env, v: View, id: int, k: Slot, pending: set<int>, limbo: set<int>)
    requires Inv(e, v, pending, limbo)
    requires id in v.mapInfo && !v.mapInfo[id].fInTried && id !in limbo
    requires v.mapInfo[id].nRefCount < NEW_BUCKETS_PER_ADDRESS
    requires k in v.vvNew && v.vvNew[k] == -1 && NewPos(e, v.mapInfo[id].service, k.0) == k.1
    ensures Inv(e, Link(v, id, k), pending - {id}, limbo)
  {
    hide Indexes, TriedTable, NewTable, RefCounts, Totals, RefStates, Stamps;
    var m, i := v.mapInfo, v.mapInfo[id].(nRefCount := v.mapInfo[id].nRefCount + 1);
    Basics(e, v, id, pending, limbo);
    LinkTables(e, v, id, k);
    IndexesPut(e, m, id, i, v.nIdCount, v.mapAddr, v.vRandom);
    TotalsSamePut(e, m, id, i, limbo, v.nNew, v.nTried, v.counts);
    LinkStates(m, id, i, pending, limbo);
  }

  lemma UnlinkTables(e: Env, v: View, id: int)
    requires e.Ok() && TriedTable(e, v.mapInfo, v.vvTried) && NewTable(e, v.mapInfo, v.vvNew) && RefCounts(e, v.mapInfo, v.vvNew)
    requires id in v.mapInfo && -1 !in v.mapInfo && !v.mapInfo[id].fInTried
    ensures var w := Unlink(e, v, id);
      TriedTable(e, w.mapInfo, w.vvTried) && NewTable(e, w.mapInfo, w.vvNew) && RefCounts(e, w.mapInfo, w.vvNew)
  {
    var w := Unlink(e, v, id);
    UnlinkNewTable(e, v, id);
    TablesPut(e, v.mapInfo, id, w.mapInfo[id], v.vvTried);
    hide TriedTable, NewTable, Refs;
    forall j | j in v.mapInfo ensures w.mapInfo[j].nRefCount == |Refs(e, w.vvNew, v.mapInfo[j].service, j)| {
      UnlinkRefs(e, v, id, v.mapInfo[j].service, j);
    }
  }

  lemma UnlinkNewTable(e: Env, v: View, id: int)
    requires e.Ok() && NewTable(e, v.mapInfo, v.vvNew) && id in v.mapInfo
    ensures NewTable(e, Unlink(e, v, id).mapInfo, Unlink(e, v, id).vvNew)
  {
    hide NewPos, Bump;
    assert Unlink(e, v, id).vvNew.Keys == v.vvNew.Keys;
  }

  lemma UnlinkRefs(e: Env, v: View, id: int, s: Service, j: int)
    requires e.Ok() && GridShape(v.vvNew, e.newBuckets, e.bucketSize) && id in v.mapInfo && id != -1 && j != -1
    ensures var n := Unlink(e, v, id).vvNew;
      && GridShape(n, e.newBuckets, e.bucketSize)
      && Refs(e, n, s, j) == if j == id then {} else Refs(e, v.vvNew, s, j)
  {
    hide Bump;
    assert Unlink(e, v, id).vvNew.Keys == v.vvNew.Keys;
  }

  lemma UnlinkStates(m: map<int, AddrInfo>, id: int, i: AddrInfo, pending: set<int>, limbo: set<int>)
    requires RefStates(m, pending + limbo) && Stamps(m) && id in m && !m[id].fInTried
    requires i == m[id].(nRefCount := 0)
    ensures RefStates(m[id := i], pending + (limbo + {id})) && Stamps(m[id := i])
  {
    StatesPut(m, id, i, pending + limbo, pending + (limbo + {id}));
  }

  lemma UnlinkKeeps(e: Env, v: View, id: int, pending: set<int>, limbo: set<int>)
    requires Inv(e, v, pending, limbo)
    requires id in v.mapInfo && !v.mapInfo[id].fInTried && id !in pending && id !in limbo
    ensures Inv(e, Unlink(e, v, id), pending, limbo + {id})
  {
    hide Indexes, TriedTable, NewTable, RefCounts, Totals, RefStates, Stamps;
    var m, i := v.mapInfo, v.mapInfo[id].(nRefCount := 0);
    Basics(e, v, id, pending, limbo);
    UnlinkTables(e, v, id);
    IndexesPut(e, m, id, i, v.nIdCount, v.mapAddr, v.vRandom);
    TotalsPut(e, m, id, i, limbo, limbo + {id}, v.nNew, v.nTried, v.counts, -1, 0);
    UnlinkStates(m, id, i, pending, limbo);
  }

  // The tried table

  lemma UntryTables(e: Env, v: View, k: Slot)
    requires e.Ok() && TriedTable(e, v.mapInfo, v.vvTried) && NewTable(e, v.mapInfo, v.vvNew) && RefCounts(e, v.mapInfo, v.vvNew)
    requires k in v.vvTried && v.vvTried[k] != -1
    ensures var w := Untry(e, v, k);
      TriedTable(e, w.mapInfo, w.vvTried) && NewTable(e, w.mapInfo, w.vvNew) && RefCounts(e, w.mapInfo, w.vvNew)
  {
  }

  lemma UntryStates(m: map<int, AddrInfo>, id: int, i: AddrInfo, pending: set<int>, limbo: set<int>)
    requires RefStates(m, pending + limbo) && Stamps(m) && id in m && m[id].fInTried
    requires i == m[id].(fInTried := false)
    ensures id !in pending + limbo
    ensures RefStates(m[id := i], pending + (limbo + {id})) && Stamps(m[id := i])
  {
    StatesPut(m, id, i, pending + limbo, pending + (limbo + {id}));
  }

  lemma UntryKeeps(e: Env, v: View, k: Slot, pending: set<int>, limbo: set<int>)
    requires Inv(e, v, pending, limbo)
    requires k in v.vvTried && v.vvTried[k] != -1
    ensures v.vvTried[k] !in pending + limbo
    ensures Inv(e, Untry(e, v, k), pending, limbo + {v.vvTried[k]})
  {
    hide Indexes, TriedTable, NewTable, RefCounts, Totals, RefStates, Stamps;
    var m, id := v.mapInfo, v.vvTried[k];
    FilledTried(e, m, v.vvTried, k);
    var i := m[id].(fInTried := false);
    UntryTables(e, v, k);
    UntryStates(m, id, i, pending, limbo);
    IndexesPut(e, m, id, i, v.nIdCount, v.mapAddr, v.vRandom);
    TotalsPut(e, m, id, i, limbo, limbo + {id}, v.nNew, v.nTried, v.counts, 0, -1);
  }

  lemma RecountKeeps(e: Env, v: View, id: int, pending: set<int>, limbo: set<int>)
    requires Inv(e, v, pending, limbo) && id in limbo
    ensures Inv(e, Recount(e, v, id), pending + {id}, limbo - {id})
  {
    hide Indexes, TriedTable, NewTable, RefCounts, Totals, RefStates, Stamps;
    var m := v.mapInfo;
    assert (pending + {id}) + (limbo - {id}) == pending + limbo;
    TransitEntry(m, pending + limbo, id);
    TotalsPut(e, m, id, m[id], limbo, limbo - {id}, v.nNew, v.nTried, v.counts, 1, 0);
    assert m[id := m[id]] == m;
  }

  lemma TriedTablePut(e: Env, m: map<int, AddrInfo>, t: Grid, id: int, i: AddrInfo, k: Slot)
    requires e.Ok() && TriedTable(e, m, t) && id in m && -1 !in m && !m[id].fInTried
    requires i == m[id].(fInTried := true)
    requires k in t && t[k] == -1 && k == TriedSlot(e, m[id].service)
    ensures TriedTable(e, m[id := i], t[k := id])
  {
  }

  lemma NewTablePut(e: Env, m: map<int, AddrInfo>, n: Grid, id: int, i: AddrInfo)
    requires e.Ok() && NewTable(e, m, n) && RefCounts(e, m, n) && id in m && id != -1 && m[id].nRefCount == 0
    requires i == m[id].(fInTried := true)
    ensures NewTable(e, m[id := i], n) && RefCounts(e, m[id := i], n)
  {
    forall j | j in n && n[j] == id ensures j.0 in Refs(e, n, m[id].service, id) {
      assert j == (j.0, NewPos(e, m[id].service, j.0));
    }
  }

  lemma IntoTriedStates(m: map<int, AddrInfo>, id: int, i: AddrInfo, pending: set<int>, limbo: set<int>)
    requires RefStates(m, pending + limbo) && Stamps(m) && id in m && id in limbo && id !in pending && m[id].lastSuccess > 0
    requires i == m[id].(fInTried := true)
    ensures RefStates(m[id := i], pending + (limbo - {id})) && Stamps(m[id := i])
  {
    assert id in pending + limbo;
    StatesPut(m, id, i, pending + limbo, pending + (limbo - {id}));
  }

  lemma IntoTriedKeeps(e: Env, v: View, id: int, k: Slot, pending: set<int>, limbo: set<int>)
    requires Inv(e, v, pending, limbo)
    requires id in limbo && id in v.mapInfo && v.mapInfo[id].lastSuccess > 0
    requires k in v.vvTried && v.vvTried[k] == -1 && k == TriedSlot(e, v.mapInfo[id].service)
    ensures Inv(e, IntoTried(e, v, id, k), pending, limbo - {id})
  {
    hide Indexes, TriedTable, NewTable, RefCounts, Totals, RefStates, Stamps;
    var m := v.mapInfo;
    var i := m[id].(fInTried := true);
    assert id in pending + limbo && id !in pending;
    Basics(e, v, id, pending, limbo);
    TransitEntry(m, pending + limbo, id);
    TriedTablePut(e, m, v.vvTried, id, i, k);
    NewTablePut(e, m, v.vvNew, id, i);
    IntoTriedStates(m, id, i, pending, limbo);
    IndexesPut(e, m, id, i, v.nIdCount, v.mapAddr, v.vRandom);
    TotalsPut(e, m, id, i, limbo, limbo - {id}, v.nNew, v.nTried, v.counts, 0, 1);
  }
}
