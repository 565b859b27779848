/** The cache's flat key-value store and the specification of what the
    wrapper, `clear` and `_stats` do to it (percache.py, lines 48-94).

    Every cached call lives under two keys of one map: the value key, which is
    the hex digest `ckey`, and the access-time key `ckey + ":atime"`. A hex
    digest never ends in ":atime", so the two kinds of key never collide; the
    model makes that explicit with one constructor per kind. */
module CacheStore {

  datatype SKey = Val(ckey: string) | ATime(ckey: string)

  /** What a key holds: a callable's result, or an access time in seconds. */
  datatype Entry<V> = Result(value: V) | Stamp(time: int)

  type Store<V> = map<SKey, Entry<V>>

  /** How a call of the wrapped callable ends: with a value, or by raising. */
  datatype Outcome<V> = Returned(value: V) | Raised(error: string)

  /** Value keys hold results and access-time keys hold times. */
  predicate WellTyped<V>(st: Store<V>)
  {
    forall k :: k in st ==> (k.Val? <==> st[k].Result?)
  }

  /** No access time without the value it belongs to. */
  ghost predicate Paired<V>(st: Store<V>)
  {
    forall c :: ATime(c) in st ==> Val(c) in st
  }

  /** No value without its access time: the converse of `Paired`. The source
      writes both halves together and deletes both together, so it keeps this
      too, but it does not depend on it: a hit writes the missing time, and
      `clear` and `_stats` skip a value that has none. */
  ghost predicate Stamped<V>(st: Store<V>)
  {
    forall c :: Val(c) in st ==> ATime(c) in st
  }

  ghost predicate Consistent<V>(st: Store<V>)
  {
    WellTyped(st) && Paired(st)
  }

  /** Every key other than the two of `ckey` is absent from both stores or
      holds the same entry in both. */
  ghost predicate OthersUnchanged<V>(st: Store<V>, st': Store<V>, ckey: string)
  {
    forall k :: k != Val(ckey) && k != ATime(ckey) ==>
      (k in st <==> k in st') && (k in st ==> st[k] == st'[k])
  }

  /** One call of the wrapper for the key `ckey` at time `now`, where
      `computed` is what the callable returns or raises if it is called. */
  function Checked<V>(st: Store<V>, ckey: string, computed: Outcome<V>, now: int): (r: (Outcome<V>, Store<V>))
    requires WellTyped(st)
    // a hit returns the stored value and leaves it in place
    ensures Val(ckey) in st ==> r.0 == Returned(st[Val(ckey)].value) && Val(ckey) in r.1 && r.1[Val(ckey)] == st[Val(ckey)]
    // a miss returns what the callable returned or raised
    ensures Val(ckey) !in st ==> r.0 == computed
    // a failing callable writes nothing
    ensures r.0.Raised? ==> r.1 == st
    // a successful call leaves its result stored and its access time equal to now
    ensures r.0.Returned? ==> Val(ckey) in r.1 && r.1[Val(ckey)] == Result(r.0.value)
                              && ATime(ckey) in r.1 && r.1[ATime(ckey)] == Stamp(now)
    ensures OthersUnchanged(st, r.1, ckey)
    ensures Consistent(st) ==> Consistent(r.1)
    ensures Stamped(st) ==> Stamped(r.1)
  {
    if Val(ckey) in st then
      (Returned(st[Val(ckey)].value), st[ATime(ckey) := Stamp(now)])
    else
      match computed
      case Raised(e) => (Raised(e), st)
      case Returned(v) => (Returned(v), st[Val(ckey) := Result(v)][ATime(ckey) := Stamp(now)])
  }

  /** After a successful call, the same key is a hit that returns the same
      value, whatever the callable would do now and whatever the time. */
  lemma SecondCallHits<V>(st: Store<V>, ckey: string, computed: Outcome<V>, now: int,
                          computed': Outcome<V>, later: int)
    requires Consistent(st)
    requires Checked(st, ckey, computed, now).0.Returned?
    ensures var (r, st') := Checked(st, ckey, computed, now);
            Val(ckey) in st' &&
            Checked(st', ckey, computed', later).0 == r
  {
  }

  /** The access time of `c` is older than the cutoff. */
  predicate Stale<V>(st: Store<V>, c: string, cutoff: int)
  {
    ATime(c) in st && st[ATime(c)].Stamp? && st[ATime(c)].time < cutoff
  }

  /** The keys age-based eviction removes: each stale access time and its value. */
  function StaleKeys<V>(st: Store<V>, cutoff: int): (ks: set<SKey>)
    ensures forall c :: ATime(c) in ks <==> Stale(st, c, cutoff)
    ensures forall c :: Val(c) in ks <==> Stale(st, c, cutoff) && Val(c) in st
    ensures ks <= st.Keys
    // in a consistent store an entry's two keys are targeted together or not at all
    ensures Consistent(st) ==> forall c :: ATime(c) in ks <==> Val(c) in ks
  {
    set k | k in st && Stale(st, k.ckey, cutoff)
  }

  /** The store after removing every entry whose access time is older than
      `cutoff`, together with its value. */
  function Evicted<V>(st: Store<V>, cutoff: int): (r: Store<V>)
    // what remains is exactly the entries that are not stale
    ensures forall k :: k in r <==> k in st && !Stale(st, k.ckey, cutoff)
    ensures forall k :: k in r ==> r[k] == st[k]
    // every access time left is at least the cutoff
    ensures WellTyped(st) ==> forall c :: ATime(c) in r ==> r[ATime(c)].time >= cutoff
    ensures Consistent(st) ==> Consistent(r)
    ensures Stamped(st) ==> Stamped(r)
  {
    st - StaleKeys(st, cutoff)
  }

  /** Evicting twice with the same cutoff removes nothing more. */
  lemma EvictedIdempotent<V>(st: Store<V>, cutoff: int)
    requires WellTyped(st)
    ensures Evicted(Evicted(st, cutoff), cutoff) == Evicted(st, cutoff)
  {
  }

  /** An entry used at or after the cutoff survives eviction, and the next call
      for it is a hit that does not recompute. */
  lemma FreshEntrySurvives<V>(st: Store<V>, c: string, cutoff: int, computed: Outcome<V>, now: int)
    requires Consistent(st)
    requires ATime(c) in st && st[ATime(c)].time >= cutoff
    ensures Val(c) in Evicted(st, cutoff)
    ensures Checked(Evicted(st, cutoff), c, computed, now).0 == Returned(st[Val(c)].value)
  {
  }

  /** The access-time keys, one per cached result. */
  function ATimeKeys<V>(st: Store<V>): set<SKey>
  {
    set k | k in st && k.ATime?
  }

  ghost predicate StampedAt<V>(st: Store<V>, c: string, t: int)
  {
    ATime(c) in st && st[ATime(c)] == Stamp(t)
  }
}
