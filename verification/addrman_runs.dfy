/**
 Whole runs of the address manager: every finite sequence of public operations from
 the empty manager stays consistent.
 */
module AddrManRuns {
  import opened AddrManState
  import opened AddrManOps

  /** Ids are never reused, an id keeps its service, and a filled tried slot never becomes empty. */
  ghost predicate Persists(v: View, w: View) {
    && v.nIdCount <= w.nIdCount
    && (forall j :: j in w.mapInfo && j < v.nIdCount ==> j in v.mapInfo && w.mapInfo[j].service == v.mapInfo[j].service)
    && (forall k :: k in v.vvTried ==> k in w.vvTried && (v.vvTried[k] != -1 ==> w.vvTried[k] != -1))
  }

  lemma PersistsOf(v: View, u: View, w: View, moved: set<int>)
    requires Persists(v, u) && Evolves(u, w, moved)
    ensures Persists(v, w)
  {
  }

  lemma PersistsSame(v: View)
    ensures Persists(v, v)
  {
  }

  // ----- Add_

  ghost function AddAll(e: Env, v: View, addrs: seq<Address>, source: NetAddr, penalty: int, now: int -> (int, int), draw: int -> nat): (r: (View, int))
    requires Consistent(e, v)
    ensures Consistent(e, r.0) && Persists(v, r.0) && 0 <= r.1 <= |addrs|
  {
    hide Inv, Collisions, AddSingle, Evolves, Persists;
    if addrs == [] then PersistsSame(v); (v, 0) else
    var n := |addrs| - 1;
    var (u, added) := AddAll(e, v, addrs[..n], source, penalty, now, draw);
    AddSingleKeeps(e, u, addrs[n], source, penalty, now(n), draw(n));
    AddSingleEvolves(e, u, addrs[n], source, penalty, now(n), draw(n));
    var (w, b) := AddSingle(e, u, addrs[n], source, penalty, now(n), draw(n));
    PersistsOf(v, u, w, {});
    (w, if b then added + 1 else added)
  }

  // ----- GetAddr_

  function Limit(size: nat, maxAddresses: nat, maxPct: nat): nat {
    var n := if maxPct != 0 then maxPct * size / 100 else size;
    if maxAddresses != 0 && maxAddresses < n then maxAddresses else n
  }

  /** A uniformly drawn position from n on. */
  function Drawn(n: nat, size: nat, d: nat): (j: nat)
    requires n < size
    ensures n <= j < size
  {
    d % (size - n) + n
  }

  datatype NetFilter = AnyNet | OnlyNet(net: int)

  predicate Wanted(e: Env, i: AddrInfo, filter: NetFilter, now: int) {
    (filter.AnyNet? || e.netClassOf(i.service.ip) == filter.net) && !IsTerrible(i, now)
  }

  /** Only vRandom and the positions changed, and the first n elements of vRandom did not. */
  ghost predicate Shuffled(v: View, w: View, n: nat) {
    && w == v.(mapInfo := w.mapInfo, vRandom := w.vRandom)
    && OnlyPositions(v.mapInfo, w.mapInfo)
    && |w.vRandom| == |v.vRandom|
    && (forall i :: 0 <= i < n && i < |v.vRandom| ==> w.vRandom[i] == v.vRandom[i])
  }

  lemma ShuffledTrans(v: View, u: View, w: View, n: nat)
    requires Shuffled(v, u, n) && Shuffled(u, w, n + 1)
    ensures Shuffled(v, w, n)
  {
  }

  lemma SwapShuffles(v: View, i: nat, j: nat)
    requires RandomIndex(v.mapInfo, v.vRandom) && i <= j < |v.vRandom|
    ensures Shuffled(v, SwapRandom(v, i, j), i) && RandomIndex(SwapRandom(v, i, j).mapInfo, SwapRandom(v, i, j).vRandom)
  {
    if i != j { SwapEffect(v.mapInfo, v.vRandom, i, j); }
  }

  ghost function Swapped(e: Env, v: View, i: nat, j: nat): (w: View)
    requires Inv(e, v, {}, {}) && i <= j < |v.vRandom|
    ensures Inv(e, w, {}, {}) && Shuffled(v, w, i) && w.vRandom[i] in w.mapInfo
  {
    hide Inv, Shuffled;
    IndexOf(e, v, {}, {});
    SwapKeeps(e, v, i, j, {}, {});
    SwapShuffles(v, i, j);
    SwapRandom(v, i, j)
  }

  /** The ids GetAddr_ picks, from position n of the shuffled vector on, and the state it leaves. */
  ghost function Pick(e: Env, v: View, n: nat, limit: nat, filter: NetFilter, now: int, draw: int -> nat): (r: (View, seq<int>))
    requires Inv(e, v, {}, {})
    ensures Inv(e, r.0, {}, {}) && Shuffled(v, r.0, n)
    decreases |v.vRandom| - n
  {
    hide Inv, OnlyPositions, Drawn;
    if n >= |v.vRandom| || limit == 0 then SamePositions(v.mapInfo); (v, []) else
    var j := Drawn(n, |v.vRandom|, draw(n));
    var w := Swapped(e, v, n, j);
    var id := w.vRandom[n];
    var wanted := Wanted(e, w.mapInfo[id], filter, now);
    var (x, ids) := Pick(e, w, n + 1, if wanted then limit - 1 else limit, filter, now, draw);
    ShuffledTrans(v, w, x, n);
    (x, if wanted then [id] + ids else ids)
  }

  ghost function Rest(r: seq<int>, n: nat): set<int> {
    set i | n <= i < |r| :: r[i]
  }

  ghost function Tail(v: View, n: nat): set<int> { Rest(v.vRandom, n) }

  lemma TailSwap(v: View, i: nat, j: nat)
    requires RandomIndex(v.mapInfo, v.vRandom) && i <= j < |v.vRandom|
    ensures var w := SwapRandom(v, i, j); w.vRandom[i] in Tail(v, i) && Tail(w, i + 1) == Tail(v, i) - {w.vRandom[i]}
  {
    hide Rest;
    RestSwap(v.vRandom, i, j);
    assert v.vRandom[i := v.vRandom[j]][j := v.vRandom[i]] == SwapRandom(v, i, j).vRandom;
  }

  lemma RestSwap(r: seq<int>, i: nat, j: nat)
    requires i <= j < |r| && Distinct(r)
    ensures var w := r[i := r[j]][j := r[i]]; w[i] in Rest(r, i) && Rest(w, i + 1) == Rest(r, i) - {w[i]}
  {
    var w := r[i := r[j]][j := r[i]];
    forall x ensures x in Rest(w, i + 1) <==> x in Rest(r, i) - {w[i]} {
      if x in Rest(w, i + 1) {
        var k :| i + 1 <= k < |w| && w[k] == x;
        assert r[if k == j then i else k] == x;
      }
      if x in Rest(r, i) - {w[i]} {
        var k :| i <= k < |r| && r[k] == x;
        assert w[if k == i then j else k] == x;
      }
    }
  }

  lemma WantedSame(e: Env, v: View, w: View, id: int, filter: NetFilter, now: int)
    requires OnlyPositions(v.mapInfo, w.mapInfo) && id in v.mapInfo
    ensures id in w.mapInfo && Wanted(e, w.mapInfo[id], filter, now) == Wanted(e, v.mapInfo[id], filter, now)
  {
  }

  ghost predicate Distinct(s: seq<int>) { forall i, j :: 0 <= i < j < |s| ==> s[i] != s[j] }

  /**
   GetAddr_ returns distinct wanted entries, no more than asked for, and leaves a wanted
   entry out only when it has already returned as many as asked for.
   */
  lemma {:induction false} PickSound(e: Env, v: View, n: nat, limit: nat, filter: NetFilter, now: int, draw: int -> nat)
    requires Inv(e, v, {}, {})
    ensures var ids := Pick(e, v, n, limit, filter, now, draw).1;
      && |ids| <= limit && Distinct(ids)
      && (forall id :: id in ids ==> id in Tail(v, n) && id in v.mapInfo && Wanted(e, v.mapInfo[id], filter, now))
      && (|ids| < limit ==> forall id :: id in Tail(v, n) && id in v.mapInfo && Wanted(e, v.mapInfo[id], filter, now) ==> id in ids)
    decreases |v.vRandom| - n
  {
    hide Inv, OnlyPositions, Drawn, Wanted, Tail, SwapRandom, Distinct;
    DistinctNone();
    if n >= |v.vRandom| || limit == 0 {
      TailEnd(v, n);
    } else {
      var j := Drawn(n, |v.vRandom|, draw(n));
      IndexOf(e, v, {}, {});
      var w := Swapped(e, v, n, j);
      TailSwap(v, n, j);
      var id := w.vRandom[n];
      var wanted := Wanted(e, w.mapInfo[id], filter, now);
      var rest := Pick(e, w, n + 1, if wanted then limit - 1 else limit, filter, now, draw).1;
      PickSound(e, w, n + 1, if wanted then limit - 1 else limit, filter, now, draw);
      DistinctFront(id, rest);
      SameWanted(e, v, w, filter, now);
    }
  }

  lemma DistinctNone()
    ensures Distinct([])
  {
  }

  lemma DistinctFront(id: int, ids: seq<int>)
    requires Distinct(ids)
    ensures id !in ids ==> Distinct([id] + ids)
  {
  }

  lemma SameWanted(e: Env, v: View, w: View, filter: NetFilter, now: int)
    requires OnlyPositions(v.mapInfo, w.mapInfo)
    ensures forall x :: x in v.mapInfo <==> x in w.mapInfo
    ensures forall x :: x in v.mapInfo ==> Wanted(e, w.mapInfo[x], filter, now) == Wanted(e, v.mapInfo[x], filter, now)
  {
    hide Wanted, OnlyPositions;
    forall x ensures x in v.mapInfo <==> x in w.mapInfo { SameIds(v.mapInfo, w.mapInfo, x); }
    forall x | x in v.mapInfo ensures Wanted(e, w.mapInfo[x], filter, now) == Wanted(e, v.mapInfo[x], filter, now) {
      WantedSame(e, v, w, x, filter, now);
    }
  }

  lemma SameIds(m: map<int, AddrInfo>, m': map<int, AddrInfo>, x: int)
    requires OnlyPositions(m, m')
    ensures x in m <==> x in m'
  {
  }

  lemma TailEnd(v: View, n: nat)
    ensures n >= |v.vRandom| ==> Tail(v, n) == {}
  {
  }

  // ----- ResolveCollisions_

  lemma {:induction false} LeastOf(s: set<int>) returns (x: int)
    requires s != {}
    ensures x in s && forall y :: y in s ==> x <= y
  {
    assert (forall y :: y !in s) ==> s == {};
    x :| x in s;
    if s != {x} {
      var rest := s - {x};
      assert rest == {} ==> s == {x};
      var y := LeastOf(rest);
      assert forall z :: z in s ==> z == x || z in rest;
      if y < x { x := y; }
    }
  }

  lemma LeastExists(s: set<int>)
    requires s != {}
    ensures exists x :: x in s && forall y :: y in s ==> x <= y
  {
    var x := LeastOf(s);
  }

  /** The element std::set iterates over first. */
  ghost function Least(s: set<int>): (x: int)
    requires s != {}
    ensures x in s && forall y :: y in s ==> x <= y
  {
    LeastExists(s);
    var x :| x in s && forall y :: y in s ==> x <= y;
    x
  }

  /** The loop of ResolveCollisions_ over the ids still to visit; clock(id) is the time read for id. */
  ghost function Resolve(e: Env, v: View, todo: set<int>, clock: int -> int): (w: View)
    requires Consistent(e, v) && todo <= v.collisions && forall t :: clock(t) > 0
    ensures Consistent(e, w) && Persists(v, w) && w.collisions <= v.collisions
    decreases |todo|
  {
    hide Inv, Collisions, ResolveOne, Evolves, Persists;
    PersistsSame(v);
    if todo == {} then v else
    var id := Least(todo);
    ResolveOneKeeps(e, v, id, clock(id));
    var u := ResolveOne(e, v, id, clock(id));
    var w := Resolve(e, u, todo - {id}, clock);
    PersistsOf(v, v, u, {id});
    PersistsTrans(v, u, w);
    w
  }

  lemma PersistsTrans(v: View, u: View, w: View)
    requires Persists(v, u) && Persists(u, w)
    ensures Persists(v, w)
  {
  }

  // ----- SelectTriedCollision_

  datatype Tested = NoneTested | TestThis(info: AddrInfo)

  /** pick is the id at the randomly chosen position of the set. */
  ghost function SelectTriedCollision(e: Env, v: View, pick: int): (r: (View, Tested))
    requires Consistent(e, v) && (v.collisions != {} ==> pick in v.collisions)
    ensures Consistent(e, r.0) && Persists(v, r.0)
  {
    hide Indexes, TriedTable, NewTable, RefCounts, Totals, Stamps, RefStates, TriedSlot, Persists;
    PersistsSame(v);
    if v.collisions == {} then (v, NoneTested)
    else if pick !in v.mapInfo then
      ErasedConsistent(e, v, pick);
      (Erase(v, pick), NoneTested)
    else
      Waiting(e, v, pick);
      (v, TestThis(v.mapInfo[v.vvTried[TriedSlot(e, v.mapInfo[pick].service)]]))
  }

  lemma ErasedConsistent(e: Env, v: View, id: int)
    requires Consistent(e, v)
    ensures Consistent(e, Erase(v, id)) && Persists(v, Erase(v, id))
  {
    hide Indexes, TriedTable, NewTable, RefCounts, Totals, Stamps, RefStates, TriedSlot;
    Shapes(e, v, {}, {});
    EvolvesSame(v);
    CollisionsEvolve(e, v, Erase(v, id), {});
  }

  // ----- runs

  datatype Op =
    | Add(addrs: seq<Address>, source: NetAddr, penalty: int, times: int -> (int, int), draw: int -> nat)
    | Good(service: Service, time: int)
    | Attempt(service: Service, countFailure: bool, time: int)
    | Connected(service: Service, time: int)
    | SetServices(service: Service, services: bv64)
    | GetAddr(maxAddresses: nat, maxPct: nat, filter: NetFilter, now: int, draw: int -> nat)
    | ResolveCollisions(clock: int -> int)
    | SelectCollision(pick: int)

  /** Callers pass positive times. */
  ghost predicate Legal(op: Op) {
    match op
    case Good(_, time) => time > 0
    case Attempt(_, _, time) => time >= 0
    case ResolveCollisions(clock) => forall t :: clock(t) > 0
    case _ => true
  }

  ghost function Apply(e: Env, v: View, op: Op): (w: View)
    requires Consistent(e, v) && Legal(op)
    ensures Consistent(e, w) && Persists(v, w)
  {
    hide Inv, Collisions, Evolves, Persists, AddrManOps.Good, AddrManOps.Update, Pick, Resolve, AddAll, SelectTriedCollision;
    PersistsSame(v);
    match op
    case Add(addrs, source, penalty, now, draw) => AddAll(e, v, addrs, source, penalty, now, draw).0
    case Good(s, time) =>
      GoodKeeps(e, v, s, time);
      GoodEvolves(e, v, s, true, time);
      var (w, moved) := AddrManOps.Good(e, v, s, true, time);
      PersistsOf(v, v, w, if moved && s in v.mapAddr then {v.mapAddr[s]} else {});
      w
    case Attempt(s, countFailure, time) =>
      var f := i => Attempted(i, countFailure, v.lastGood, time);
      UpdateKeeps(e, v, s, f);
      PersistsOf(v, v, Update(e, v, s, f), {});
      Update(e, v, s, f)
    case Connected(s, time) =>
      var f := i => Seen(i, time);
      UpdateKeeps(e, v, s, f);
      PersistsOf(v, v, Update(e, v, s, f), {});
      Update(e, v, s, f)
    case SetServices(s, services) =>
      var f := (i: AddrInfo) => i.(nServices := services);
      UpdateKeeps(e, v, s, f);
      PersistsOf(v, v, Update(e, v, s, f), {});
      Update(e, v, s, f)
    case GetAddr(maxAddresses, maxPct, filter, now, draw) =>
      var w := Pick(e, v, 0, Limit(|v.vRandom|, maxAddresses, maxPct), filter, now, draw).0;
      ShuffledConsistent(e, v, w);
      w
    case ResolveCollisions(clock) => Resolve(e, v, v.collisions, clock)
    case SelectCollision(pick) =>
      if v.collisions != {} && pick !in v.collisions then v else SelectTriedCollision(e, v, pick).0
  }

  lemma ShuffledConsistent(e: Env, v: View, w: View)
    requires Consistent(e, v) && Inv(e, w, {}, {}) && Shuffled(v, w, 0)
    ensures Consistent(e, w) && Persists(v, w)
  {
    hide Indexes, TriedTable, NewTable, RefCounts, Totals, Stamps, RefStates, TriedSlot;
    Shapes(e, v, {}, {});
    assert Evolves(v, w, {});
    CollisionsEvolve(e, v, w, {});
  }

  ghost function AllSlots(buckets: nat, size: nat): (s: set<Slot>)
    ensures forall k: Slot :: k in s <==> 0 <= k.0 < buckets && 0 <= k.1 < size
  {
    set b, p | 0 <= b < buckets && 0 <= p < size :: (b, p)
  }

  ghost function EmptyGrid(buckets: nat, size: nat): (g: Grid)
    ensures GridShape(g, buckets, size) && forall k :: k in g ==> g[k] == -1
  {
    hide AllSlots;
    map k | k in AllSlots(buckets, size) :: -1
  }

  ghost function Empty(e: Env): View {
    View(0, map[], map[], [], 0, EmptyGrid(e.triedBuckets, e.bucketSize), 0, EmptyGrid(e.newBuckets, e.bucketSize), 1, {}, map[])
  }

  lemma EmptyTables(e: Env)
    requires e.Ok()
    ensures var v := Empty(e);
      TriedTable(e, v.mapInfo, v.vvTried) && NewTable(e, v.mapInfo, v.vvNew) && RefCounts(e, v.mapInfo, v.vvNew)
  {
  }

  lemma EmptyTotals(e: Env)
    ensures Totals(e, map[], {}, 0, 0, map[])
  {
    var none: set<int> := {};
    assert NewIds(map[], {}) == none && TriedIds(map[]) == none;
    assert forall net :: OfNet(e, map[], none, net) == none;
  }

  /** A new manager is consistent. */
  lemma EmptyConsistent(e: Env)
    requires e.Ok()
    ensures Consistent(e, Empty(e))
  {
    hide TriedTable, NewTable, RefCounts, Totals, EmptyGrid;
    EmptyTables(e);
    EmptyTotals(e);
    Shapes(e, Empty(e), {}, {});
  }

  ghost function Run(e: Env, v: View, ops: seq<Op>): (w: View)
    requires Consistent(e, v) && forall i :: 0 <= i < |ops| ==> Legal(ops[i])
    ensures Consistent(e, w) && Persists(v, w)
  {
    hide Consistent, Apply, Persists, Legal;
    PersistsSame(v);
    if ops == [] then v else
    var u := Run(e, v, ops[..|ops| - 1]);
    var w := Apply(e, u, ops[|ops| - 1]);
    PersistsTrans(v, u, w);
    w
  }
}
