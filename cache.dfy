/** The `Cache` class of percache.py: a memoizing store of call results with
    access times and age-based eviction (lines 15-94).

    The shelve file is the field `store`, opened with whatever a previous run
    left in it. The clock is the parameter `now` of each operation. */
module Percache {
  import opened CacheKey
  import opened CacheStore

  /** A callable to cache: its `__name__` and what calling it with given
      positional and keyword arguments returns or raises. */
  datatype Callable<!A, V> = Callable(name: string, run: (seq<A>, seq<(string, A)>) -> Outcome<V>)

  /** The first loop of `clear`: each access-time key older than `bigbang`
      followed by its value key, each key once. The value key is listed
      whether or not the store holds it. */
  method CollectOutdated<V>(st: Store<V>, bigbang: int) returns (outdated: seq<SKey>)
    requires WellTyped(st)
    ensures forall x :: x in outdated <==> Stale(st, x.ckey, bigbang)
    ensures forall i, j :: 0 <= i < j < |outdated| ==> outdated[i] != outdated[j]
    // when every access time has its value, every listed key can be deleted
    ensures Paired(st) ==> forall x :: x in outdated ==> x in st
  {
    outdated := [];
    var keys := st.Keys;
    while keys != {}
      invariant keys <= st.Keys
      invariant forall x :: x in outdated <==> Stale(st, x.ckey, bigbang) && ATime(x.ckey) !in keys
      invariant forall i, j :: 0 <= i < j < |outdated| ==> outdated[i] != outdated[j]
      decreases keys
    {
      var key :| key in keys;
      if key.ATime? && st[key].time < bigbang {
        outdated := outdated + [key, Val(key.ckey)];
      }
      keys := keys - {key};
    }
  }

  /** Deleting every listed key, when the list holds exactly both keys of each
      stale entry, leaves the evicted store. */
  lemma DeletedAreEvicted<V>(st: Store<V>, after: Store<V>, cutoff: int, deleted: seq<SKey>)
    requires forall x :: x in deleted <==> Stale(st, x.ckey, cutoff)
    requires forall k :: k in after <==> k in st && k !in deleted
    requires forall k :: k in after ==> after[k] == st[k]
    ensures after == Evicted(st, cutoff)
  {
  }

  class Cache<A, V> {
    /** The representation function applied to arguments before hashing. */
    const repr: A -> string
    /** The hex digest of everything fed to the hash object. */
    const digest: string -> string
    var store: Store<V>

    ghost predicate Valid()
      reads this
    {
      Consistent(store)
    }

    constructor (repr: A -> string, digest: string -> string, persisted: Store<V>)
      requires Consistent(persisted)
      ensures Valid()
      ensures this.repr == repr && this.digest == digest && store == persisted
    {
      this.repr := repr;
      this.digest := digest;
      store := persisted;
    }

    /** The wrapper that `check(fn)` returns, called with `args` and `kwargs`
        at time `now`. `called` tells whether `fn` itself ran. */
    method Call(fn: Callable<A, V>, args: seq<A>, kwargs: seq<(string, A)>, now: int)
      returns (r: Outcome<V>, called: bool)
      requires Valid()
      requires DistinctNames(kwargs)
      modifies this
      ensures Valid()
      ensures called <==> Val(KeyOf(repr, digest, fn.name, args, kwargs)) !in old(store)
      ensures old(Stamped(store)) ==> Stamped(store)
      ensures (r, store) == Checked(old(store), KeyOf(repr, digest, fn.name, args, kwargs), fn.run(args, kwargs), now)
    {
      var ckey := DeriveKey(repr, digest, fn.name, args, kwargs);
      if Val(ckey) in store {
        r := Returned(store[Val(ckey)].value);
        called := false;
      } else {
        r := fn.run(args, kwargs);
        called := true;
        if r.Raised? {
          return;
        }
        store := store[Val(ckey) := Result(r.value)];
      }
      store := store[ATime(ckey) := Stamp(now)];
    }

    /** Removes every entry when `maxage <= 0`; otherwise removes each entry
        whose access time is older than `now - maxage`, with its value. */
    method Clear(maxage: int, now: int)
      requires Valid()
      modifies this
      ensures Valid()
      ensures maxage <= 0 ==> store == map[]
      ensures maxage > 0 ==> store == Evicted(old(store), now - maxage)
      ensures old(Stamped(store)) ==> Stamped(store)
    {
      if maxage > 0 {
        var bigbang := now - maxage;
        var outdated := CollectOutdated(store, bigbang);
        ghost var before := store;
        assert Consistent(before);
        for i := 0 to |outdated|
          invariant forall k :: k in store <==> k in before && k !in outdated[..i]
          invariant forall k :: k in store ==> store[k] == before[k]
        {
          var c := outdated[i].ckey;
          assert Stale(before, c, bigbang) && Val(c) in before;
          assert outdated[i] == ATime(c) || outdated[i] == Val(c);
          assert outdated[i] !in outdated[..i];
          assert outdated[i] in store;
          store := store - {outdated[i]};
        }
        assert outdated[..|outdated|] == outdated;
        DeletedAreEvicted(before, store, bigbang, outdated);
      } else {
        store := map[];
      }
    }

    /** The number of cached results and the oldest and most recent access
        times, with `now` and 0 as the starting values of the two. */
    method Stats(now: int) returns (num: nat, oldest: int, newest: int)
      requires Valid()
      ensures num == |ATimeKeys(store)|
      ensures oldest <= now && newest >= 0
      ensures forall c, t :: StampedAt(store, c, t) ==> oldest <= t <= newest
      ensures oldest == now || exists c :: StampedAt(store, c, oldest)
      ensures newest == 0 || exists c :: StampedAt(store, c, newest)
      ensures num == 0 ==> oldest == now && newest == 0
    {
      num, oldest, newest := 0, now, 0;
      var keys := store.Keys;
      ghost var counted: set<SKey> := {};
      while keys != {}
        invariant keys <= store.Keys
        invariant counted == set k | k in store && k.ATime? && k !in keys
        invariant num == |counted|
        invariant oldest <= now && newest >= 0
        invariant forall c, t :: StampedAt(store, c, t) && ATime(c) !in keys ==> oldest <= t <= newest
        invariant oldest == now || exists c :: StampedAt(store, c, oldest) && ATime(c) !in keys
        invariant newest == 0 || exists c :: StampedAt(store, c, newest) && ATime(c) !in keys
        invariant num == 0 ==> oldest == now && newest == 0
        decreases keys
      {
        var key :| key in keys;
        if key.ATime? {
          num := num + 1;
          counted := counted + {key};
          oldest := if store[key].time < oldest then store[key].time else oldest;
          newest := if store[key].time > newest then store[key].time else newest;
        }
        keys := keys - {key};
      }
      assert counted == ATimeKeys(store);
    }
  }
}
