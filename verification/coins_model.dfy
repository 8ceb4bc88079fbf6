/**
 The UTXO cache stack as a value: write-back caches with DIRTY and FRESH flags, layered
 to any depth over a plain map, and the proof that the whole stack behaves as one map
 per level.
 */
module CoinsModel {

  datatype OutPoint = OutPoint(txid: seq<int>, n: int)

  /** A spent coin is always nulled out. */
  datatype Coin = Spent | Unspent(value: int, script: seq<int>, height: int, coinbase: bool)

  /** A coin in one cache, with its DIRTY and FRESH flags. */
  datatype Entry = Entry(coin: Coin, dirty: bool, isFresh: bool)

  type Entries = map<OutPoint, Entry>
  type CoinMap = map<OutPoint, Coin>

  /** A cache's backing view is the database or another cache. */
  datatype Stack = Db(coins: CoinMap) | Cache(entries: Entries, below: Stack)

  /** What a layer shows on top of the view under it. */
  ghost function LayerView(m: Entries, under: CoinMap): CoinMap {
    map o | o in m.Keys + under.Keys && (if o in m then m[o].coin.Unspent? else o in under) ::
      if o in m then m[o].coin else under[o]
  }

  /** The UTXO set a stack represents to its users. */
  ghost function View(s: Stack): CoinMap {
    match s
    case Db(coins) => coins
    case Cache(entries, below) => LayerView(entries, View(below))
  }

  /** The view of every level, the database first. */
  ghost function Views(s: Stack): seq<CoinMap> {
    match s
    case Db(coins) => [coins]
    case Cache(_, below) => Views(below) + [View(s)]
  }

  /** What the flags of an entry promise about the view below; four of the eight flag states are left. */
  ghost predicate EntryOk(e: Entry, o: OutPoint, under: CoinMap) {
    && (e.coin.Spent? ==> e.dirty && !e.isFresh)
    && (e.isFresh ==> e.dirty && o !in under)
    && (!e.dirty ==> o in under && under[o] == e.coin)
  }

  ghost predicate LayerOk(m: Entries, under: CoinMap) {
    forall o :: o in m ==> EntryOk(m[o], o, under)
  }

  ghost predicate Wf(s: Stack) {
    match s
    case Db(coins) => forall o :: o in coins ==> coins[o].Unspent?
    case Cache(entries, below) => Wf(below) && LayerOk(entries, View(below))
  }

  lemma {:induction false} ViewUnspent(s: Stack)
    requires Wf(s)
    ensures forall o :: o in View(s) ==> View(s)[o].Unspent?
  {
    if s.Cache? { ViewUnspent(s.below); }
  }

  lemma ViewsTop(s: Stack)
    ensures |Views(s)| > 0 && Views(s)[|Views(s)| - 1] == View(s)
  {
  }

  // ----- reading

  datatype Found<T> = Missing | Hit(it: T)

  /** GetCoin: an unspent coin, cached on the way up in every layer that asked for it. */
  function GetCoin(s: Stack, o: OutPoint): (Stack, Found<Coin>)
    decreases s, 1
  {
    match s
    case Db(coins) => (s, if o in coins then Hit(coins[o]) else Missing)
    case Cache(_, _) =>
      var t := FetchCoin(s, o);
      (t, if t.Cache? && o in t.entries && t.entries[o].coin.Unspent? then Hit(t.entries[o].coin) else Missing)
  }

  /** FetchCoin: afterwards the layer has an entry for the outpoint if there is one to be had. */
  function FetchCoin(s: Stack, o: OutPoint): Stack
    requires s.Cache?
    decreases s, 0
  {
    if o in s.entries then s else
    var (below, r) := GetCoin(s.below, o);
    match r
    case Missing => Cache(s.entries, below)
    case Hit(coin) => Cache(s.entries[o := Entry(coin, false, coin.Spent?)], below)
  }

  lemma CleanEntry(m: Entries, under: CoinMap, o: OutPoint)
    requires LayerOk(m, under) && o !in m && o in under && under[o].Unspent?
    ensures var m' := m[o := Entry(under[o], false, false)]; LayerOk(m', under) && LayerView(m', under) == LayerView(m, under)
  {
    var m' := m[o := Entry(under[o], false, false)];
    forall p ensures p in LayerView(m', under) <==> p in LayerView(m, under) { }
  }

  /** Reading never changes what any layer of the stack represents, and reads the view. */
  lemma {:induction false} GetCoinSound(s: Stack, o: OutPoint)
    requires Wf(s)
    ensures var (t, r) := GetCoin(s, o);
      && Wf(t) && Views(t) == Views(s)
      && r == (if o in View(s) then Hit(View(s)[o]) else Missing)
    decreases s, 1
  {
    match s
    case Db(_) =>
    case Cache(_, _) => FetchSound(s, o);
  }

  /** What FetchCoin does to the entries of its own layer. */
  ghost predicate Fetched(m: Entries, m': Entries, o: OutPoint) {
    || m' == m
    || (o !in m && o in m' && m' == m[o := m'[o]] && m'[o].coin.Unspent? && !m'[o].dirty && !m'[o].isFresh)
  }

  lemma {:induction false} FetchSound(s: Stack, o: OutPoint)
    requires Wf(s) && s.Cache?
    ensures var t := FetchCoin(s, o);
      && t.Cache? && Wf(t) && Views(t) == Views(s) && Fetched(s.entries, t.entries, o)
      && (o in View(s) <==> o in t.entries && t.entries[o].coin.Unspent?)
      && (o in View(s) ==> t.entries[o].coin == View(s)[o])
    decreases s, 0
  {
    hide LayerOk, EntryOk;
    ViewUnspent(s.below);
    if o !in s.entries {
      GetCoinSound(s.below, o);
      ViewsTop(s.below);
      ViewsTop(FetchCoin(s, o).below);
      if o in View(s.below) { CleanEntry(s.entries, View(s.below), o); }
    }
  }

  // ----- writing

  datatype Outcome<T> = Returned(value: T) | Thrown

  function EntryAt(m: Entries, o: OutPoint): Entry {
    if o in m then m[o] else Entry(Spent, false, false)
  }

  /** AddCoin on a spendable output; thrown when it would overwrite an unspent coin it was promised not to find. */
  function AddCoin(s: Stack, o: OutPoint, coin: Coin, possibleOverwrite: bool): Outcome<Stack>
    requires s.Cache?
  {
    var e := EntryAt(s.entries, o);
    if !possibleOverwrite && e.coin.Unspent? then Thrown
    else Returned(s.(entries := s.entries[o := Entry(coin, true, e.isFresh || (!possibleOverwrite && !e.dirty))]))
  }

  lemma PutEntry(m: Entries, under: CoinMap, o: OutPoint, e: Entry)
    requires LayerOk(m, under) && EntryOk(e, o, under)
    ensures LayerOk(m[o := e], under)
    ensures LayerView(m[o := e], under) == if e.coin.Unspent? then LayerView(m, under)[o := e.coin] else LayerView(m, under) - {o}
  {
    var m', v := m[o := e], LayerView(m, under);
    var w := if e.coin.Unspent? then v[o := e.coin] else v - {o};
    forall p ensures p in LayerView(m', under) <==> p in w { }
  }

  /**
   AddCoin keeps the stack well formed, and adds exactly this coin to the top view, if and
   only if it is told about a possible overwrite or the view has no unspent coin there.
   */
  lemma AddCoinExact(s: Stack, o: OutPoint, coin: Coin, possibleOverwrite: bool)
    requires Wf(s) && s.Cache? && coin.Unspent?
    ensures var r := AddCoin(s, o, coin, possibleOverwrite);
      && (r.Returned? && Wf(r.value) <==> possibleOverwrite || o !in View(s))
      && (r.Returned? ==> r.value.Cache? && r.value.below == s.below && View(r.value) == View(s)[o := coin])
  {
    hide LayerOk;
    var r := AddCoin(s, o, coin, possibleOverwrite);
    EntryHolds(s.entries, View(s.below), o);
    if r.Returned? {
      AddedView(s.entries, View(s.below), o, r.value.entries[o]);
      if possibleOverwrite || o !in View(s) {
        PutEntry(s.entries, View(s.below), o, r.value.entries[o]);
      } else {
        EntryBreaks(r.value.entries, View(s.below), o);
      }
    }
  }

  lemma EntryHolds(m: Entries, under: CoinMap, o: OutPoint)
    requires LayerOk(m, under)
    ensures o in m ==> EntryOk(m[o], o, under)
  {
  }

  lemma EntryBreaks(m: Entries, under: CoinMap, o: OutPoint)
    requires o in m && !EntryOk(m[o], o, under)
    ensures !LayerOk(m, under)
  {
  }

  lemma AddedView(m: Entries, under: CoinMap, o: OutPoint, e: Entry)
    requires e.coin.Unspent?
    ensures LayerView(m[o := e], under) == LayerView(m, under)[o := e.coin]
  {
    assert LayerView(m[o := e], under).Keys == LayerView(m, under)[o := e.coin].Keys;
  }

  /** SpendCoin; the flag is what the C++ call returns. */
  function SpendCoin(s: Stack, o: OutPoint): (Stack, bool)
    requires s.Cache?
  {
    var t := FetchCoin(s, o);
    if t.Db? || o !in t.entries then (t, false)
    else if t.entries[o].isFresh then (t.(entries := t.entries - {o}), true)
    else (t.(entries := t.entries[o := Entry(Spent, true, false)]), true)
  }

  lemma DropEntry(m: Entries, under: CoinMap, o: OutPoint)
    requires LayerOk(m, under) && o in m && (m[o].isFresh || !m[o].dirty)
    ensures LayerOk(m - {o}, under)
    ensures LayerView(m - {o}, under) == if m[o].isFresh then LayerView(m, under) - {o} else LayerView(m, under)
  {
    var m', v := m - {o}, LayerView(m, under);
    assert EntryOk(m[o], o, under);
    var w := if m[o].isFresh then v - {o} else v;
    assert LayerView(m', under).Keys == w.Keys;
  }

  /** SpendCoin removes exactly this outpoint from the top view; it can also return true when nothing was there. */
  lemma SpendCoinSound(s: Stack, o: OutPoint)
    requires Wf(s) && s.Cache?
    ensures var (t, found) := SpendCoin(s, o);
      && t.Cache? && Wf(t) && Views(t.below) == Views(s.below) && View(t) == View(s) - {o}
      && (o in View(s) ==> found)
      && (found && o !in View(s) ==> o in s.entries && s.entries[o] == Entry(Spent, true, false))
  {
    hide LayerOk;
    FetchSound(s, o);
    var t := FetchCoin(s, o);
    ViewsTop(s);
    ViewsTop(t);
    ViewsBelow(s, t);
    EntryHolds(t.entries, View(t.below), o);
    if o in t.entries {
      if t.entries[o].isFresh {
        DropEntry(t.entries, View(t.below), o);
      } else {
        PutEntry(t.entries, View(t.below), o, Entry(Spent, true, false));
      }
    } else {
      assert View(s) - {o} == View(s);
    }
  }

  lemma ViewsBelow(s: Stack, t: Stack)
    requires s.Cache? && t.Cache? && Views(s) == Views(t)
    ensures Views(s.below) == Views(t.below) && View(s.below) == View(t.below) && View(s) == View(t)
  {
    assert Views(s)[..|Views(s)| - 1] == Views(s.below) && Views(t)[..|Views(t)| - 1] == Views(t.below);
    ViewsTop(s.below);
    ViewsTop(t.below);
    ViewsTop(s);
    ViewsTop(t);
  }

  function Uncache(s: Stack, o: OutPoint): Stack
    requires s.Cache?
  {
    if o in s.entries && !s.entries[o].dirty && !s.entries[o].isFresh then s.(entries := s.entries - {o}) else s
  }

  /** Uncache changes no view. */
  lemma UncacheSound(s: Stack, o: OutPoint)
    requires Wf(s) && s.Cache?
    ensures var t := Uncache(s, o); t.Cache? && Wf(t) && t.below == s.below && View(t) == View(s)
  {
    if Uncache(s, o) != s { DropEntry(s.entries, View(s.below), o); }
  }

  // ----- writing back

  /** What one entry of a child cache does to the entry a cache has for it. */
  datatype Merged = Absent | Present(entry: Entry) | Misapplied

  function Merge(p: Found<Entry>, e: Entry): Merged {
    if !e.dirty then (if p.Missing? then Absent else Present(p.it)) else
    match p
    case Missing => if e.isFresh && e.coin.Spent? then Absent else Present(Entry(e.coin, true, e.isFresh))
    case Hit(us) =>
      if e.isFresh && us.coin.Unspent? then Misapplied
      else if us.isFresh && e.coin.Spent? then Absent
      else Present(Entry(e.coin, true, us.isFresh))
  }

  function At<T>(m: map<OutPoint, T>, o: OutPoint): Found<T> {
    if o in m then Hit(m[o]) else Missing
  }

  ghost function MergedAt(m: Entries, child: Entries, o: OutPoint): Merged {
    if o in child then Merge(At(m, o), child[o]) else if o in m then Present(m[o]) else Absent
  }

  /** The entries of a cache after a child wrote all of its entries back, in whatever order. */
  ghost function MergeAll(m: Entries, child: Entries): Entries {
    map o | o in m.Keys + child.Keys && MergedAt(m, child, o).Present? :: MergedAt(m, child, o).entry
  }

  ghost predicate NoneMisapplied(m: Entries, child: Entries) {
    forall o :: o in child ==> !Merge(At(m, o), child[o]).Misapplied?
  }

  ghost function WriteAll(coins: CoinMap, child: Entries): CoinMap {
    map o | o in coins.Keys + child.Keys && (if o in child && child[o].dirty then child[o].coin.Unspent? else o in coins) ::
      if o in child && child[o].dirty then child[o].coin else coins[o]
  }

  ghost function BatchWrite(s: Stack, child: Entries): Outcome<Stack> {
    match s
    case Db(coins) => Returned(Db(WriteAll(coins, child)))
    case Cache(m, below) => if NoneMisapplied(m, child) then Returned(Cache(MergeAll(m, child), below)) else Thrown
  }

  lemma MergeSound(m: Entries, under: CoinMap, child: Entries)
    requires LayerOk(m, under) && LayerOk(child, LayerView(m, under))
    ensures NoneMisapplied(m, child)
    ensures LayerOk(MergeAll(m, child), under)
    ensures LayerView(MergeAll(m, child), under) == LayerView(child, LayerView(m, under))
  {
    var v := LayerView(m, under);
    forall o | o in child ensures !Merge(At(m, o), child[o]).Misapplied? {
      assert EntryOk(child[o], o, v);
    }
    MergeOk(m, under, child);
    forall o ensures o in LayerView(MergeAll(m, child), under) <==> o in LayerView(child, v) { MergedView(m, under, child, o); }
    forall o | o in LayerView(child, v) ensures LayerView(MergeAll(m, child), under)[o] == LayerView(child, v)[o] { MergedView(m, under, child, o); }
  }

  lemma MergeOk(m: Entries, under: CoinMap, child: Entries)
    requires LayerOk(m, under) && LayerOk(child, LayerView(m, under))
    ensures LayerOk(MergeAll(m, child), under)
  {
    forall o | o in MergeAll(m, child) ensures EntryOk(MergeAll(m, child)[o], o, under) {
      if o in m { assert EntryOk(m[o], o, under); }
      if o in child { assert EntryOk(child[o], o, LayerView(m, under)); }
    }
  }

  lemma MergedView(m: Entries, under: CoinMap, child: Entries, o: OutPoint)
    requires LayerOk(m, under) && LayerOk(child, LayerView(m, under))
    ensures o in LayerView(MergeAll(m, child), under) <==> o in LayerView(child, LayerView(m, under))
    ensures o in LayerView(MergeAll(m, child), under) ==> LayerView(MergeAll(m, child), under)[o] == LayerView(child, LayerView(m, under))[o]
  {
    if o in m { assert EntryOk(m[o], o, under); }
    if o in child { assert EntryOk(child[o], o, LayerView(m, under)); }
  }

  lemma WriteSound(coins: CoinMap, child: Entries)
    requires Wf(Db(coins)) && LayerOk(child, coins)
    ensures Wf(Db(WriteAll(coins, child))) && WriteAll(coins, child) == LayerView(child, coins)
  {
    forall o ensures o in WriteAll(coins, child) <==> o in LayerView(child, coins) {
      if o in child { assert EntryOk(child[o], o, coins); }
    }
  }

  /** Writing a well-formed layer back never throws, and gives the layer below the view of the layer above. */
  lemma BatchWriteSound(s: Stack, child: Entries)
    requires Wf(Cache(child, s))
    ensures var r := BatchWrite(s, child);
      && r.Returned? && Wf(r.value) && View(r.value) == View(Cache(child, s))
      && (s.Cache? ==> r.value.Cache? && r.value.below == s.below) && (s.Db? ==> r.value.Db?)
  {
    match s
    case Db(coins) => WriteSound(coins, child);
    case Cache(m, below) => MergeSound(m, View(below), child);
  }

  ghost function Flush(s: Stack): Outcome<Stack>
    requires s.Cache?
  {
    var r := BatchWrite(s.below, s.entries);
    if r.Thrown? then Thrown else Returned(Cache(map[], r.value))
  }

  ghost function Kept(m: Entries): Entries {
    map o | o in m && m[o].coin.Unspent? :: Entry(m[o].coin, false, false)
  }

  ghost function Sync(s: Stack): Outcome<Stack>
    requires s.Cache?
  {
    var r := BatchWrite(s.below, s.entries);
    if r.Thrown? then Thrown else Returned(Cache(Kept(s.entries), r.value))
  }

  /** Flush and Sync keep the view and hand it to the level below; no other level changes. */
  lemma FlushSound(s: Stack)
    requires Wf(s) && s.Cache?
    ensures var r := Flush(s);
      r.Returned? && r.value.Cache? && Wf(r.value) && View(r.value) == View(s) && View(r.value.below) == View(s) && SameLower(s.below, r.value.below)
    ensures var r := Sync(s);
      r.Returned? && r.value.Cache? && Wf(r.value) && View(r.value) == View(s) && View(r.value.below) == View(s) && SameLower(s.below, r.value.below)
  {
    hide BatchWrite, LayerView, LayerOk, Kept;
    BatchWriteSound(s.below, s.entries);
    EmptyLayerShows(View(s));
    KeptLayerShows(s);
  }

  lemma EmptyLayerShows(v: CoinMap)
    ensures LayerView(map[], v) == v && LayerOk(map[], v)
  {
  }

  /** Over the view that was written down, the kept entries change nothing. */
  lemma KeptLayerShows(s: Stack)
    requires s.Cache? && Wf(s)
    ensures LayerView(Kept(s.entries), View(s)) == View(s) && LayerOk(Kept(s.entries), View(s))
  {
    var v := View(s);
    forall o | o in Kept(s.entries) ensures o in v && v[o] == Kept(s.entries)[o].coin { }
    assert LayerView(Kept(s.entries), v) == v;
  }

  ghost predicate SameLower(s: Stack, t: Stack) {
    (s.Cache? <==> t.Cache?) && (s.Cache? ==> t.below == s.below)
  }

  // ----- runs over a stack of any depth

  /** Calls a user makes on the top cache, plus putting a cache on top and dropping the top one. */
  datatype Op =
    | Push
    | Pop
    | Get(o: OutPoint)
    | Add(o: OutPoint, coin: Coin, possibleOverwrite: bool)
    | Spend(o: OutPoint)
    | Drop(o: OutPoint)
    | FlushTop
    | SyncTop

  ghost function Step(s: Stack, op: Op): Outcome<Stack> {
    match op
    case Push => Returned(Cache(map[], s))
    case Pop => if s.Cache? then Returned(s.below) else Returned(s)
    case Get(o) => Returned(GetCoin(s, o).0)
    case Add(o, coin, possibleOverwrite) => if s.Cache? && coin.Unspent? then AddCoin(s, o, coin, possibleOverwrite) else Returned(s)
    case Spend(o) => if s.Cache? then Returned(SpendCoin(s, o).0) else Returned(s)
    case Drop(o) => if s.Cache? then Returned(Uncache(s, o)) else Returned(s)
    case FlushTop => if s.Cache? then Flush(s) else Returned(s)
    case SyncTop => if s.Cache? then Sync(s) else Returned(s)
  }

  /** The same calls on a stack of plain maps, where a flush copies the top map down. */
  ghost function PlainStep(vs: seq<CoinMap>, op: Op): seq<CoinMap>
    requires |vs| > 0
  {
    var n := |vs| - 1;
    match op
    case Push => vs + [vs[n]]
    case Pop => if n > 0 then vs[..n] else vs
    case Get(_) => vs
    case Add(o, coin, _) => if n > 0 && coin.Unspent? then vs[n := vs[n][o := coin]] else vs
    case Spend(o) => if n > 0 then vs[n := vs[n] - {o}] else vs
    case Drop(_) => vs
    case FlushTop => if n > 0 then vs[n - 1 := vs[n]] else vs
    case SyncTop => if n > 0 then vs[n - 1 := vs[n]] else vs
  }

  /** Callers say so when an unspent coin may be there. */
  ghost predicate Legal(vs: seq<CoinMap>, op: Op)
    requires |vs| > 0
  {
    op.Add? ==> op.possibleOverwrite || op.o !in vs[|vs| - 1]
  }

  lemma ViewsOfCache(s: Stack)
    requires s.Cache?
    ensures Views(s) == Views(s.below) + [View(s)] && |Views(s.below)| > 0 && Views(s.below)[|Views(s.below)| - 1] == View(s.below)
  {
    ViewsTop(s.below);
  }

  lemma LowerViews(s: Stack, t: Stack)
    requires SameLower(s, t)
    ensures |Views(t)| == |Views(s)| > 0 && Views(t) == Views(s)[|Views(s)| - 1 := View(t)]
  {
  }

  lemma StepRefines(s: Stack, op: Op)
    requires Wf(s) && |Views(s)| > 0 && Legal(Views(s), op)
    ensures var r := Step(s, op);
      r.Returned? && Wf(r.value) && Views(r.value) == PlainStep(Views(s), op)
  {
    hide LayerOk, LayerView, AddCoin, SpendCoin, Uncache, Flush, Sync, GetCoin;
    ViewsTop(s);
    if s.Cache? { ViewsOfCache(s); }
    match op
    case Push => EmptyLayer(s);
    case Pop =>
    case Get(o) => GetCoinSound(s, o);
    case Add(o, coin, possibleOverwrite) =>
      if s.Cache? && coin.Unspent? { AddCoinExact(s, o, coin, possibleOverwrite); }
    case Spend(o) =>
      if s.Cache? { SpendCoinSound(s, o); }
    case Drop(o) =>
      if s.Cache? { UncacheSound(s, o); }
    case FlushTop =>
      if s.Cache? { FlushViews(s); }
    case SyncTop =>
      if s.Cache? { FlushViews(s); }
  }

  lemma FlushViews(s: Stack)
    requires Wf(s) && s.Cache?
    ensures Flush(s).Returned? && Wf(Flush(s).value) && Sync(s).Returned? && Wf(Sync(s).value)
    ensures |Views(s)| >= 2
    ensures Views(Flush(s).value) == Views(s)[|Views(s)| - 2 := Views(s)[|Views(s)| - 1]]
    ensures Views(Sync(s).value) == Views(s)[|Views(s)| - 2 := Views(s)[|Views(s)| - 1]]
  {
    hide Flush, Sync, Wf, View, Views, SameLower;
    FlushSound(s);
    ViewsOfCache(s);
    ViewsOfCache(Flush(s).value);
    ViewsOfCache(Sync(s).value);
    LowerViews(s.below, Flush(s).value.below);
    LowerViews(s.below, Sync(s).value.below);
  }

  lemma EmptyLayer(s: Stack)
    requires Wf(s)
    ensures Wf(Cache(map[], s)) && View(Cache(map[], s)) == View(s)
  {
    assert LayerView(map[], View(s)) == View(s);
  }

  ghost function Run(s: Stack, ops: seq<Op>): Outcome<Stack> {
    if ops == [] then Returned(s) else
    var r := Run(s, ops[..|ops| - 1]);
    if r.Thrown? then Thrown else Step(r.value, ops[|ops| - 1])
  }

  ghost function PlainRun(vs: seq<CoinMap>, ops: seq<Op>): (ws: seq<CoinMap>)
    requires |vs| > 0
    ensures |ws| > 0
  {
    if ops == [] then vs else PlainStep(PlainRun(vs, ops[..|ops| - 1]), ops[|ops| - 1])
  }

  ghost predicate LegalRun(vs: seq<CoinMap>, ops: seq<Op>)
    requires |vs| > 0
  {
    ops == [] || (LegalRun(vs, ops[..|ops| - 1]) && Legal(PlainRun(vs, ops[..|ops| - 1]), ops[|ops| - 1]))
  }

  /**
   Every run of calls on a stack of caches, whatever its depth, shows at every level what
   the same calls do to plain maps, never throws, and leaves only legal flag states.
   */
  lemma {:induction false} RunRefines(s: Stack, ops: seq<Op>)
    requires Wf(s) && |Views(s)| > 0 && LegalRun(Views(s), ops)
    ensures var r := Run(s, ops); r.Returned? && Wf(r.value) && Views(r.value) == PlainRun(Views(s), ops)
  {
    hide Step, PlainStep, Legal, Wf;
    if ops != [] {
      RunRefines(s, ops[..|ops| - 1]);
      StepRefines(Run(s, ops[..|ops| - 1]).value, ops[|ops| - 1]);
    }
  }

  /** Without the promise AddCoin asks for, a later spend does not remove the coin. */
  lemma UnannouncedOverwrite(o: OutPoint, coin: Coin)
    requires coin.Unspent?
    ensures var s := Cache(map[], Db(map[o := coin]));
      var r := AddCoin(s, o, coin, false);
      Wf(s) && r.Returned? && r.value.Cache? && o in View(SpendCoin(r.value, o).0)
  {
    var s := Cache(map[], Db(map[o := coin]));
    var t := AddCoin(s, o, coin, false).value;
    assert SpendCoin(t, o).0.entries == map[];
  }
}
