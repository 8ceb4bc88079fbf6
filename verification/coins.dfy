/**
 The cache objects themselves: maps of entries and a memory counter updated in place,
 each cache pointing to the view that backs it.
 */
module Coins {
  import opened CoinsModel

  /** Bytes allocated by a coin's script; a nulled-out coin allocates none. */
  function MemoryOf(u: seq<int> -> nat, c: Coin): nat {
    if c.Spent? then 0 else u(c.script)
  }

  ghost function TotalMemory(u: seq<int> -> nat, m: Entries): int
    decreases |m|
  {
    if m == map[] then 0 else
    assert (forall o :: o !in m) ==> m == map[];
    var o :| o in m;
    assert |m - {o}| < |m| by { assert (m - {o}).Keys == m.Keys - {o}; }
    MemoryOf(u, m[o].coin) + TotalMemory(u, m - {o})
  }

  lemma Shrinks(m: Entries, o: OutPoint)
    requires o in m
    ensures |m - {o}| == |m| - 1
  {
    assert (m - {o}).Keys == m.Keys - {o};
  }

  /** The total does not depend on the order of summation. */
  lemma {:induction false} MemoryWithout(u: seq<int> -> nat, m: Entries, o: OutPoint)
    requires o in m
    ensures TotalMemory(u, m) == MemoryOf(u, m[o].coin) + TotalMemory(u, m - {o})
    decreases |m|
  {
    assert (forall p :: p !in m) ==> m == map[];
    var p :| p in m && TotalMemory(u, m) == MemoryOf(u, m[p].coin) + TotalMemory(u, m - {p});
    if p != o {
      Shrinks(m, p);
      Shrinks(m, o);
      MemoryWithout(u, m - {p}, o);
      MemoryWithout(u, m - {o}, p);
      assert (m - {p}) - {o} == (m - {o}) - {p};
    }
  }

  lemma MemoryPut(u: seq<int> -> nat, m: Entries, o: OutPoint, e: Entry)
    ensures TotalMemory(u, m[o := e]) == TotalMemory(u, m) - MemoryOf(u, EntryAt(m, o).coin) + MemoryOf(u, e.coin)
  {
    MemoryWithout(u, m[o := e], o);
    if o in m {
      MemoryWithout(u, m, o);
      assert m[o := e] - {o} == m - {o};
    } else {
      assert m[o := e] - {o} == m;
    }
  }

  /** The entries already taken from a child's map. */
  ghost function Taken(child: Entries, todo: set<OutPoint>): Entries {
    map o | o in child && o !in todo :: child[o]
  }

  lemma TakenStep(child: Entries, todo: set<OutPoint>, o: OutPoint)
    requires o in child && o in todo
    ensures Taken(child, todo - {o}) == Taken(child, todo)[o := child[o]] && o !in Taken(child, todo)
  {
  }

  lemma TakenAll(child: Entries)
    ensures Taken(child, {}) == child && Taken(child, child.Keys) == map[]
  {
  }

  lemma MergeNothing(m: Entries)
    ensures MergeAll(m, map[]) == m && NoneMisapplied(m, map[])
  {
  }

  /** Entries have distinct outpoints, so merging one more touches only its own entry. */
  lemma MergeStep(m: Entries, done: Entries, o: OutPoint, e: Entry)
    requires o !in done
    ensures var now := MergeAll(m, done); At(now, o) == At(m, o)
    ensures var now := MergeAll(m, done); var r := Merge(At(now, o), e);
      MergeAll(m, done[o := e]) == (if r.Present? then now[o := r.entry] else now - {o})
    ensures NoneMisapplied(m, done[o := e]) <==> NoneMisapplied(m, done) && !Merge(At(m, o), e).Misapplied?
  {
    var now, r := MergeAll(m, done), Merge(At(m, o), e);
    assert At(now, o) == At(m, o);
    var next := if r.Present? then now[o := r.entry] else now - {o};
    assert MergeAll(m, done[o := e]).Keys == next.Keys;
    if NoneMisapplied(m, done[o := e]) {
      forall p | p in done ensures !Merge(At(m, p), done[p]).Misapplied? { assert p in done[o := e]; }
      assert o in done[o := e];
    }
  }

  class CoinsDb {
    var coins: CoinMap

    method BatchWrite(child: Entries)
      modifies this
      ensures coins == WriteAll(old(coins), child)
    {
      var todo := child.Keys;
      TakenAll(child);
      assert WriteAll(coins, map[]) == coins;
      while todo != {}
        invariant todo <= child.Keys && coins == WriteAll(old(coins), Taken(child, todo))
      {
        assert (forall p :: p !in todo) ==> todo == {};
        var o :| o in todo;
        TakenStep(child, todo, o);
        WriteStep(old(coins), Taken(child, todo), o, child[o]);
        if child[o].dirty {
          coins := if child[o].coin.Spent? then coins - {o} else coins[o := child[o].coin];
        }
        todo := todo - {o};
      }
    }
  }

  lemma WriteStep(coins: CoinMap, done: Entries, o: OutPoint, e: Entry)
    requires o !in done
    ensures var now := WriteAll(coins, done);
      WriteAll(coins, done[o := e]) == if !e.dirty then now else if e.coin.Spent? then now - {o} else now[o := e.coin]
  {
    var now := WriteAll(coins, done);
    var next := if !e.dirty then now else if e.coin.Spent? then now - {o} else now[o := e.coin];
    assert WriteAll(coins, done[o := e]).Keys == next.Keys;
  }

  class CoinsViewCache {
    const usage: seq<int> -> nat
    const unspendable: seq<int> -> bool
    const db: CoinsDb
    const parent: CoinsViewCache?
    ghost const Repr: set<object>
    var cacheCoins: Entries
    var cachedCoinsUsage: int

    /** How the caches hang together; nothing here ever changes. */
    ghost predicate Linked()
      decreases Repr
    {
      && this in Repr && db in Repr
      && (parent != null ==>
        && parent in Repr && parent.Repr < Repr && this !in parent.Repr
        && parent.db == db && parent.Linked())
    }

    ghost function Abs(): Stack
      requires Linked()
      reads Repr
      decreases Repr
    {
      Cache(cacheCoins, if parent == null then Db(db.coins) else parent.Abs())
    }

    /** Every cache of the chain counts its memory exactly. */
    ghost predicate Accounted()
      requires Linked()
      reads Repr
      decreases Repr
    {
      cachedCoinsUsage == TotalMemory(usage, cacheCoins) && (parent != null ==> parent.Accounted())
    }

    ghost predicate Valid()
      reads Repr
    {
      Linked() && Accounted() && Wf(Abs())
    }

    constructor OnDatabase(u: seq<int> -> nat, dead: seq<int> -> bool, base: CoinsDb)
      requires Wf(Db(base.coins))
      ensures Valid() && parent == null && db == base && fresh(this) && Repr == {this, base} && Abs() == Cache(map[], Db(base.coins))
    {
      usage, unspendable, db, parent, Repr := u, dead, base, null, {this, base};
      cacheCoins, cachedCoinsUsage := map[], 0;
    }

    constructor OnCache(base: CoinsViewCache)
      requires base.Valid()
      ensures Valid() && parent == base && fresh(this) && Repr == base.Repr + {this} && Abs() == Cache(map[], base.Abs())
    {
      usage, unspendable, db, parent, Repr := base.usage, base.unspendable, base.db, base, base.Repr + {this};
      cacheCoins, cachedCoinsUsage := map[], 0;
    }

    method FetchCoin(o: OutPoint) returns (found: bool)
      requires Valid()
      modifies Repr
      ensures Valid() && Abs() == CoinsModel.FetchCoin(old(Abs()), o) && Views(Abs()) == old(Views(Abs()))
      ensures found <==> o in cacheCoins
      decreases Repr, 0
    {
      hide Wf, TotalMemory;
      FetchSound(Abs(), o);
      if o in cacheCoins { return true; }
      var r;
      if parent == null {
        r := if o in db.coins then Hit(db.coins[o]) else Missing;
      } else {
        BelowValid();
        r := parent.GetCoin(o);
      }
      if r.Missing? { return false; }
      var e := Entry(r.it, false, r.it.Spent?);
      MemoryPut(usage, cacheCoins, o, e);
      cacheCoins := cacheCoins[o := e];
      cachedCoinsUsage := cachedCoinsUsage + MemoryOf(usage, r.it);
      return true;
    }

    lemma BelowValid()
      requires Valid() && parent != null
      ensures parent.Valid()
    {
    }

    method GetCoin(o: OutPoint) returns (r: Found<Coin>)
      requires Valid()
      modifies Repr
      ensures Valid() && (Abs(), r) == CoinsModel.GetCoin(old(Abs()), o) && Views(Abs()) == old(Views(Abs()))
      ensures r == At(old(View(Abs())), o)
      decreases Repr, 1
    {
      hide Wf, TotalMemory;
      GetCoinSound(Abs(), o);
      var found := FetchCoin(o);
      r := if found && cacheCoins[o].coin.Unspent? then Hit(cacheCoins[o].coin) else Missing;
    }

    method HaveCoin(o: OutPoint) returns (have: bool)
      requires Valid()
      modifies Repr
      ensures Valid() && Views(Abs()) == old(Views(Abs())) && (have <==> o in old(View(Abs())))
    {
      hide Wf, TotalMemory;
      FetchSound(Abs(), o);
      var found := FetchCoin(o);
      have := found && cacheCoins[o].coin.Unspent?;
    }

    /**
     Add an unspent coin. When possibleOverwrite is false the caller promises that the view
     has no unspent coin there. A broken promise is only noticed when the coin is cached
     here; the memory counter has then already been reduced.
     */
    method AddCoin(o: OutPoint, coin: Coin, possibleOverwrite: bool) returns (threw: bool)
      requires Valid() && coin.Unspent?
      modifies this
      ensures unspendable(coin.script) ==> !threw && cacheCoins == old(cacheCoins) && cachedCoinsUsage == old(cachedCoinsUsage)
      ensures !unspendable(coin.script) ==> (threw <==> CoinsModel.AddCoin(old(Abs()), o, coin, possibleOverwrite).Thrown?)
      ensures !unspendable(coin.script) && !threw ==>
        Accounted() && Returned(Abs()) == CoinsModel.AddCoin(old(Abs()), o, coin, possibleOverwrite)
      ensures !unspendable(coin.script) && (possibleOverwrite || o !in old(View(Abs()))) ==>
        !threw && Valid() && View(Abs()) == old(View(Abs()))[o := coin]
      ensures threw ==> cacheCoins == old(cacheCoins) && cachedCoinsUsage == old(cachedCoinsUsage) - MemoryOf(usage, cacheCoins[o].coin)
    {
      hide Wf, TotalMemory, View;
      if unspendable(coin.script) { return false; }
      AddCoinExact(Abs(), o, coin, possibleOverwrite);
      ghost var before := cacheCoins;
      var it := EntryAt(cacheCoins, o);
      var isFresh := false;
      if o in cacheCoins {
        cachedCoinsUsage := cachedCoinsUsage - MemoryOf(usage, it.coin);
      }
      if !possibleOverwrite {
        if it.coin.Unspent? { return true; }
        isFresh := !it.dirty;
      }
      var e := Entry(coin, true, it.isFresh || isFresh);
      MemoryPut(usage, cacheCoins, o, e);
      cacheCoins := cacheCoins[o := e];
      cachedCoinsUsage := cachedCoinsUsage + MemoryOf(usage, coin);
      return false;
    }

    /** Spend a coin; moveout is what the cache held. */
    method SpendCoin(o: OutPoint) returns (found: bool, moveout: Found<Coin>)
      requires Valid()
      modifies Repr
      ensures Valid() && (Abs(), found) == CoinsModel.SpendCoin(old(Abs()), o)
      ensures View(Abs()) == old(View(Abs())) - {o} && (o in old(View(Abs())) ==> found && moveout == Hit(old(View(Abs()))[o]))
    {
      hide Wf, TotalMemory, View, Views, CoinsModel.FetchCoin;
      SpendCoinSound(Abs(), o);
      FetchSound(Abs(), o);
      found := FetchCoin(o);
      if !found { return false, Missing; }
      moveout := Hit(cacheCoins[o].coin);
      cachedCoinsUsage := cachedCoinsUsage - MemoryOf(usage, cacheCoins[o].coin);
      if cacheCoins[o].isFresh {
        MemoryWithout(usage, cacheCoins, o);
        cacheCoins := cacheCoins - {o};
      } else {
        MemoryPut(usage, cacheCoins, o, Entry(Spent, true, false));
        cacheCoins := cacheCoins[o := Entry(Spent, true, false)];
      }
    }

    method Uncache(o: OutPoint)
      requires Valid()
      modifies this
      ensures Valid() && Abs() == CoinsModel.Uncache(old(Abs()), o) && View(Abs()) == old(View(Abs()))
    {
      hide Wf, TotalMemory, View;
      UncacheSound(Abs(), o);
      if o in cacheCoins && !cacheCoins[o].dirty && !cacheCoins[o].isFresh {
        MemoryWithout(usage, cacheCoins, o);
        cachedCoinsUsage := cachedCoinsUsage - MemoryOf(usage, cacheCoins[o].coin);
        cacheCoins := cacheCoins - {o};
      }
    }

    /** Take the entries of a child cache, in any order; a throw leaves the loop half done. */
    method BatchWrite(child: Entries) returns (threw: bool)
      requires Linked() && Accounted()
      modifies this
      ensures threw <==> CoinsModel.BatchWrite(old(Abs()), child).Thrown?
      ensures !threw ==> Accounted() && Returned(Abs()) == CoinsModel.BatchWrite(old(Abs()), child)
    {
      hide TotalMemory, Wf, MergeAll, NoneMisapplied;
      ghost var m := cacheCoins;
      var todo := child.Keys;
      TakenAll(child);
      MergeNothing(m);
      while todo != {}
        invariant todo <= child.Keys && cacheCoins == MergeAll(m, Taken(child, todo)) && NoneMisapplied(m, Taken(child, todo))
        invariant cachedCoinsUsage == TotalMemory(usage, cacheCoins)
        modifies this
      {
        assert (forall p :: p !in todo) ==> todo == {};
        var o :| o in todo;
        TakenStep(child, todo, o);
        MergeStep(m, Taken(child, todo), o, child[o]);
        threw := TakeEntry(o, child[o]);
        if threw {
          MisappliedStays(m, child, o);
          return;
        }
        todo := todo - {o};
      }
      threw := false;
    }

    /** The body of the loop in BatchWrite. */
    method TakeEntry(o: OutPoint, e: Entry) returns (threw: bool)
      requires cachedCoinsUsage == TotalMemory(usage, cacheCoins)
      modifies this
      ensures threw <==> Merge(At(old(cacheCoins), o), e).Misapplied?
      ensures !threw ==> cachedCoinsUsage == TotalMemory(usage, cacheCoins)
      ensures !threw ==> var r := Merge(At(old(cacheCoins), o), e);
        cacheCoins == (if r.Present? then old(cacheCoins)[o := r.entry] else old(cacheCoins) - {o})
    {
      hide TotalMemory;
      if !e.dirty {
        assert if o in cacheCoins then cacheCoins == cacheCoins[o := cacheCoins[o]] else cacheCoins == cacheCoins - {o};
        return false;
      }
      if o !in cacheCoins {
        if !(e.isFresh && e.coin.Spent?) {
          MemoryPut(usage, cacheCoins, o, Entry(e.coin, true, e.isFresh));
          cachedCoinsUsage := cachedCoinsUsage + MemoryOf(usage, e.coin);
          cacheCoins := cacheCoins[o := Entry(e.coin, true, e.isFresh)];
        } else {
          assert cacheCoins == cacheCoins - {o};
        }
      } else {
        var itUs := cacheCoins[o];
        if e.isFresh && itUs.coin.Unspent? { return true; }
        if itUs.isFresh && e.coin.Spent? {
          MemoryWithout(usage, cacheCoins, o);
          cachedCoinsUsage := cachedCoinsUsage - MemoryOf(usage, itUs.coin);
          cacheCoins := cacheCoins - {o};
        } else {
          MemoryPut(usage, cacheCoins, o, Entry(e.coin, true, itUs.isFresh));
          cachedCoinsUsage := cachedCoinsUsage - MemoryOf(usage, itUs.coin) + MemoryOf(usage, e.coin);
          cacheCoins := cacheCoins[o := Entry(e.coin, true, itUs.isFresh)];
        }
      }
      return false;
    }

    method WriteBelow() returns (threw: bool)
      requires Valid()
      modifies Repr - {this}
      ensures !threw && Linked() && cacheCoins == old(cacheCoins) && cachedCoinsUsage == old(cachedCoinsUsage)
      ensures Returned(Abs().below) == CoinsModel.BatchWrite(old(Abs()).below, old(cacheCoins))
      ensures parent != null ==> parent.Accounted()
    {
      hide Wf, TotalMemory, MergeAll, NoneMisapplied, WriteAll;
      BatchWriteSound(Abs().below, cacheCoins);
      if parent == null {
        db.BatchWrite(cacheCoins);
        threw := false;
      } else {
        threw := parent.BatchWrite(cacheCoins);
      }
    }

    /** Push the modifications to the backing view and wipe this cache. */
    method Flush() returns (threw: bool)
      requires Valid()
      modifies Repr
      ensures !threw && Valid() && Returned(Abs()) == CoinsModel.Flush(old(Abs()))
      ensures View(Abs()) == old(View(Abs())) && View(Abs().below) == old(View(Abs()))
    {
      hide Wf, TotalMemory, View, CoinsModel.BatchWrite;
      FlushSound(Abs());
      threw := WriteBelow();
      cacheCoins := map[];
      cachedCoinsUsage := 0;
      NoMemory(usage);
    }

    /** Push the modifications to the backing view, keeping the unspent coins cached. */
    method Sync() returns (threw: bool)
      requires Valid()
      modifies Repr
      ensures !threw && Valid() && Returned(Abs()) == CoinsModel.Sync(old(Abs()))
      ensures View(Abs()) == old(View(Abs())) && View(Abs().below) == old(View(Abs()))
    {
      hide Wf, TotalMemory, View, CoinsModel.BatchWrite, Kept;
      FlushSound(Abs());
      threw := WriteBelow();
      ClearFlags();
    }

    /** Drop the spent coins and clear the flags of the others. */
    method ClearFlags()
      requires cachedCoinsUsage == TotalMemory(usage, cacheCoins)
      modifies this
      ensures cacheCoins == Kept(old(cacheCoins)) && cachedCoinsUsage == TotalMemory(usage, cacheCoins)
    {
      hide TotalMemory;
      ghost var m := cacheCoins;
      var todo := cacheCoins.Keys;
      while todo != {}
        invariant todo <= cacheCoins.Keys <= m.Keys
        invariant forall o :: o in cacheCoins ==> cacheCoins[o] == if o in todo then m[o] else Entry(m[o].coin, false, false)
        invariant forall o :: o in m ==> (o in cacheCoins <==> o in todo || m[o].coin.Unspent?)
        invariant cachedCoinsUsage == TotalMemory(usage, cacheCoins)
      {
        assert (forall p :: p !in todo) ==> todo == {};
        var o :| o in todo;
        if cacheCoins[o].coin.Spent? {
          MemoryWithout(usage, cacheCoins, o);
          cachedCoinsUsage := cachedCoinsUsage - MemoryOf(usage, cacheCoins[o].coin);
          cacheCoins := cacheCoins - {o};
        } else {
          MemoryPut(usage, cacheCoins, o, Entry(cacheCoins[o].coin, false, false));
          cacheCoins := cacheCoins[o := Entry(cacheCoins[o].coin, false, false)];
        }
        todo := todo - {o};
      }
    }

    /** SanityCheck: recompute what the C++ asserts; it holds on every valid cache. */
    method SanityCheck() returns (ok: bool)
      ensures ok <==> cachedCoinsUsage == TotalMemory(usage, cacheCoins) && forall o :: o in cacheCoins ==> LegalFlags(cacheCoins[o])
    {
      hide TotalMemory;
      var recomputed := 0;
      var todo := cacheCoins.Keys;
      TakenAll(cacheCoins);
      NoMemory(usage);
      while todo != {}
        invariant todo <= cacheCoins.Keys
        invariant recomputed == TotalMemory(usage, Taken(cacheCoins, todo))
        invariant forall o :: o in cacheCoins && o !in todo ==> LegalFlags(cacheCoins[o])
      {
        assert (forall p :: p !in todo) ==> todo == {};
        var o :| o in todo;
        if !LegalFlags(cacheCoins[o]) { return false; }
        TakenStep(cacheCoins, todo, o);
        MemoryPut(usage, Taken(cacheCoins, todo), o, cacheCoins[o]);
        recomputed := recomputed + MemoryOf(usage, cacheCoins[o].coin);
        todo := todo - {o};
      }
      return recomputed == cachedCoinsUsage;
    }
  }

  /** The five flag states SanityCheck admits. */
  predicate LegalFlags(e: Entry) {
    var attr := (if e.dirty then 1 else 0) + (if e.isFresh then 2 else 0) + (if e.coin.Spent? then 4 else 0);
    attr != 2 && attr != 4 && attr != 7
  }

  /** The state "spent, FRESH, not DIRTY" is admitted by SanityCheck but never arises. */
  lemma OnlyFourStates(s: Stack, o: OutPoint)
    requires Wf(s) && s.Cache? && o in s.entries
    ensures LegalFlags(s.entries[o]) && s.entries[o] != Entry(Spent, false, true)
  {
    assert EntryOk(s.entries[o], o, View(s.below));
  }

  lemma NoMemory(u: seq<int> -> nat)
    ensures TotalMemory(u, map[]) == 0
  {
  }

  lemma MisappliedStays(m: Entries, child: Entries, o: OutPoint)
    requires o in child && Merge(At(m, o), child[o]).Misapplied?
    ensures !NoneMisapplied(m, child)
  {
  }
}
