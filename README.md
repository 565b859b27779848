# percache in Dafny

A model of `percache`, a persistent memoizing cache for Python callables. A
`Cache` keeps the results of calls in one flat key-value store, a shelve file.
Each call is keyed by a digest of the callable's name and its arguments. Each
cached result lives under two keys:

- the value key `ckey`, which holds the result;
- the access-time key `ckey + ":atime"`, which holds the time of its last use.

The model has six modules:

- `CacheKey` (keys.dfy) covers key derivation. The hash object is the string
  fed to it so far, and the digest is an abstract function of that string.
  Keyword arguments are sorted by name with Python 2's string order. The
  method `DeriveKey` updates the hash state in the source's two loops and is
  proved equal to the specification `KeyOf`. The lemmas show two facts:
  - reordering keyword arguments does not change the key;
  - pieces are concatenated without separators, so `f(12)` and `f(1, 2)`
    share one key under the default `repr`, and so do `f1(2)` and `f(12)`.
- `CacheStore` (store.dfy) gives the flat store `map<SKey, Entry<V>>`.
  `SKey` has one constructor per kind of key: `Val(ckey)` and `ATime(ckey)`.
  The same module holds the specification functions `Checked` (one wrapper
  call) and `Evicted` (age-based clear), with their properties.
  `Consistent` is the store invariant:
  - value keys hold results and access-time keys hold times;
  - every access time has its value.

  The converse, every value has its access time, is the predicate `Stamped`.
  Every operation keeps it, but none requires it: a hit writes a missing
  time, and `clear` and `_stats` skip a value that has none.
- `Percache` (cache.dfy) is the `Cache` class. The field `store` is the shelve
  file. `Call` is the wrapper that `check(fn)` returns. `Clear` is `clear`:
  its first loop, `CollectOutdated`, lists the keys to delete, and its
  second loop deletes them. `Stats` is `_stats` with its
  accumulator loop. `Call` and `Clear` are proved against `Checked` and
  `Evicted`, and every method keeps `Consistent`.
- `Decimal` (decimal.dfy) is Python's `"%d"`, which is also `repr` of a
  Python 2 `int` (a `long`'s `repr` ends in `L`), with a parser that reads
  it back.
- `Wrappers` (wrappers.dfy) holds the `Option` type.
- `AgeFormat` (age.dfy) is the command line's `age` helper. It is a
  first-match search over the (count, unit) pairs for days, hours, minutes
  and seconds.

The clock is the integer parameter `now`. The callable is a `Callable`: its
name, plus a function from the arguments to `Returned(v)` or `Raised(e)`.
The argument representation and the digest are constant fields of the class,
given to the constructor. Keyword arguments are the call's `(name, value)`
pairs. Python never passes the same name twice, so `DistinctNames` is
required.

## Model

| member | source | states |
|---|---|---|
| CacheKey.DeriveKey | percache.py:41-46 | The key is the digest of the name, then every positional representation in call order, then `name:repr(value)` for each keyword in sorted name order. |
| CacheKey.KeyOf | percache.py:41-46 | A call with no arguments is keyed by the digest of the callable's name alone. |
| CacheKey.SortByName | percache.py:44 | `sorted(kwargs)` gives the keyword pairs in strictly increasing name order, as a permutation of the call's pairs. |
| CacheKey.SortedUnique | percache.py:44 | Two lists in strict name order with the same elements are equal, so the sorted order does not depend on call order. |
| CacheKey.KeyIgnoresKeywordOrder | percache.py:44-45 | Passing the same keyword arguments in any order yields the same key. |
| CacheKey.AdjacentArgumentsCollide | percache.py:42-43 | With the default `repr`, `f(12)` and `f(1, 2)` get the same key for every digest, because the pieces have no separators. |
| CacheKey.NameRunsIntoArguments | percache.py:41-43 | With the default `repr`, `f1(2)` and `f(12)` get the same key for every digest, because the name runs into the first argument. |
| CacheStore.Checked | percache.py:48-53 | A hit returns the stored value and leaves it in place. A miss returns what the callable returned or raised. A raising callable writes nothing. A successful call leaves its result under `ckey` and `now` under its access-time key. No other key changes. The store invariant is preserved, and so is `Stamped` (every value has its access time). |
| CacheStore.SecondCallHits | percache.py:48-52 | After a successful call, the same key is a hit that returns the same value, whatever the callable would now return and whatever the time. |
| CacheStore.StaleKeys | percache.py:69-72 | Eviction targets only keys the store holds. In a consistent store it takes both keys of an entry or neither: an access-time key is targeted exactly when its value key is. |
| CacheStore.Evicted | percache.py:66-75 | Age-based eviction removes exactly the stale access times and their values. Every other entry stays unchanged, and all remaining times are at least the cutoff. The store invariant and `Stamped` are preserved. |
| CacheStore.EvictedIdempotent | percache.py:66-75 | Evicting again with the same cutoff removes nothing more. |
| CacheStore.FreshEntrySurvives | percache.py:66-75 | An entry used at or after the cutoff survives eviction, and the next call for it is a hit that does not recompute. |
| Percache.Cache.constructor | percache.py:17-33 | The cache starts from the persisted store, with the given representation function. |
| Percache.Cache.Call | percache.py:38-54 | The wrapper computes the key as `KeyOf` does. `fn` runs exactly when the key is missing. The result and the new store are those of `Checked`. The store invariant is kept, and so is `Stamped`. |
| Percache.Cache.Clear | percache.py:63-77 | With `maxage <= 0` the store becomes empty. Otherwise the store becomes `Evicted(old store, now - maxage)`. The store invariant is kept, and so is `Stamped`. |
| Percache.CollectOutdated | percache.py:67-72 | The list holds both keys of every entry whose access time is strictly below the cutoff, and nothing else, each key once. A value key is listed even when the store lacks it. When every access time has its value, every listed key is in the store, so the deletion loop never raises `KeyError`. |
| Percache.DeletedAreEvicted | percache.py:74-75 | Deleting exactly the listed keys leaves the evicted store. |
| Percache.Cache.Stats | percache.py:79-94 | The count is the number of access-time keys. `oldest` is the least of `now` and all access times, and `newest` is the greatest of 0 and all of them. An empty cache gives `(0, now, 0)`. |
| Decimal.Digits | percache.py:108 | The decimal digits of a natural number are at least one digit and have no leading zero. |
| Decimal.Format | percache.py:108 | `"%d" % n` starts with a minus sign exactly when `n` is negative, and is otherwise made of digits only. |
| Decimal.FormatRoundTrip | percache.py:108 | The text of `"%d" % n` reads back as `n`. |
| AgeFormat.FirstSelected | percache.py:106-108 | The loop's result is the first pair whose count exceeds one or whose unit is seconds. It is None exactly when no pair qualifies. |
| AgeFormat.Age | percache.py:102-108 | `age` never falls off the end of its loop: it always returns a string. |
| AgeFormat.AgeMeaning | percache.py:105-108 | A printed age is a count of whole days, hours, minutes or seconds. The count exceeds one unless the unit is seconds. No larger unit holds more than one of the age. |

## Left out

- `shelve.open`, `close` and persistence to disk (percache.py:33, 58-61) are storage I/O. The store is an in-memory map, and the constructor receives what the file held. The constructor requires that content to satisfy the store invariant, which every operation here keeps.
- SHA-1 and `hexdigest` are a foreign library. The digest is an abstract function of the fed string. The model does not claim that digests of different strings differ.
- `time.time()` and float timestamps: `now`, `maxage` and access times are integers.
- The `repr` function's output for Python values is caller-supplied. It is an abstract function, except in `AdjacentArgumentsCollide`, which uses the integer `repr`.
- A `repr` that raises is not modelled: `repr` is a total function here. In the source the exception propagates from the key computation before anything is written.
- The callable is a pure function of its arguments. Side effects it may have are not modelled, and `called` records whether it ran.
- `check(fn)` returning a closure is not modelled as a closure. `Call` takes `fn` together with the call's arguments.
- The command line (`_main`, percache.py:110-123): argument checks, `exists`, `print` and `sys.exit` are I/O. It prints the age of `oldest` on both lines, which is a printing defect outside the model. Only `age` is modelled.
- Concurrent use from several threads or processes has no locking in the source and is not modelled.
- Percache.Cache.Clear: on a store whose access time lacks its value, the source raises `KeyError` partway through deletion. The model requires the store invariant, so that case cannot arise.
