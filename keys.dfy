/** Key derivation of the cache wrapper (percache.py, lines 41-46).

    The source feeds a SHA-1 object with the callable's name, then the
    representation of every positional argument in call order, then
    "name:representation" for every keyword argument in name order, and keeps
    the hex digest. Feeding a hash object piece by piece digests the
    concatenation of the pieces, so the hash state is modelled as the string
    fed so far and the digest as an abstract function of that string. */
module CacheKey {
  import Decimal

  /** Python 2's `<` on strings: lexicographic by character code, a proper
      prefix sorting first. */
  predicate Lt(a: string, b: string)
  {
    if a == [] then b != []
    else if b == [] then false
    else a[0] < b[0] || (a[0] == b[0] && Lt(a[1..], b[1..]))
  }

  lemma {:induction false} LtIrreflexive(a: string)
    ensures !Lt(a, a)
  {
    if a != [] {
      LtIrreflexive(a[1..]);
    }
  }

  lemma {:induction false} LtTransitive(a: string, b: string, c: string)
    requires Lt(a, b) && Lt(b, c)
    ensures Lt(a, c)
  {
    if a != [] && a[0] == b[0] && b[0] == c[0] {
      LtTransitive(a[1..], b[1..], c[1..]);
    }
  }

  lemma {:induction false} LtTotal(a: string, b: string)
    ensures a == b || Lt(a, b) || Lt(b, a)
  {
    if a != [] && b != [] && a[0] == b[0] {
      LtTotal(a[1..], b[1..]);
      if a[1..] == b[1..] {
        assert a == [a[0]] + a[1..] && b == [b[0]] + b[1..];
      }
    }
  }

  lemma LtAsymmetric(a: string, b: string)
    requires Lt(a, b)
    ensures !Lt(b, a)
  {
    if Lt(b, a) {
      LtTransitive(a, b, a);
      LtIrreflexive(a);
    }
  }

  /** No keyword is passed twice in one call: Python rejects such a call. */
  predicate DistinctNames<A>(kw: seq<(string, A)>)
  {
    forall i, j :: 0 <= i < j < |kw| ==> kw[i].0 != kw[j].0
  }

  predicate SortedByName<A>(kw: seq<(string, A)>)
  {
    forall i, j :: 0 <= i < j < |kw| ==> Lt(kw[i].0, kw[j].0)
  }

  /** Inserts a keyword pair into a list kept in name order. */
  function Insert<A>(p: (string, A), s: seq<(string, A)>): (r: seq<(string, A)>)
    requires SortedByName(s)
    requires forall q :: q in s ==> q.0 != p.0
    ensures SortedByName(r)
    ensures multiset(r) == multiset(s) + multiset{p}
  {
    if s == [] then [p]
    else if Lt(p.0, s[0].0) then
      assert forall j :: 0 < j < |s| ==> Lt(p.0, s[j].0) by {
        forall j | 0 < j < |s| ensures Lt(p.0, s[j].0) {
          LtTransitive(p.0, s[0].0, s[j].0);
        }
      }
      [p] + s
    else
      LtTotal(p.0, s[0].0);
      assert s == [s[0]] + s[1..];
      var rest := Insert(p, s[1..]);
      assert forall k :: 0 <= k < |rest| ==> Lt(s[0].0, rest[k].0) by {
        forall k | 0 <= k < |rest| ensures Lt(s[0].0, rest[k].0) {
          assert rest[k] in multiset(rest);
          if rest[k] != p {
            assert rest[k] in multiset(s[1..]);
            var j :| 0 <= j < |s[1..]| && s[1..][j] == rest[k];
            assert s[j + 1] == rest[k];
          }
        }
      }
      [s[0]] + rest
  }

  /** `sorted(kwargs)`: the keyword pairs in name order. */
  function SortByName<A>(kw: seq<(string, A)>): (r: seq<(string, A)>)
    requires DistinctNames(kw)
    ensures SortedByName(r)
    ensures |r| == |kw| && multiset(r) == multiset(kw)
  {
    if kw == [] then []
    else
      assert kw == [kw[0]] + kw[1..];
      var rest := SortByName(kw[1..]);
      assert forall q :: q in rest ==> q.0 != kw[0].0 by {
        forall q | q in rest ensures q.0 != kw[0].0 {
          assert q in multiset(kw[1..]);
          var j :| 0 <= j < |kw[1..]| && kw[1..][j] == q;
          assert kw[j + 1] == q;
        }
      }
      Insert(kw[0], rest)
  }

  /** The head of a list in strict name order has the least name in it. */
  lemma SortedHeadLeast<A>(s: seq<(string, A)>, q: (string, A))
    requires SortedByName(s) && q in multiset(s) && q != s[0]
    ensures Lt(s[0].0, q.0)
  {
  }

  lemma SortedTail<A>(s: seq<(string, A)>)
    requires SortedByName(s) && s != []
    ensures SortedByName(s[1..])
    ensures multiset(s[1..]) == multiset(s) - multiset{s[0]}
  {
    assert s == [s[0]] + s[1..];
  }

  /** Two lists in strict name order with the same elements start alike. */
  lemma SortedSameHead<A>(s: seq<(string, A)>, t: seq<(string, A)>)
    requires SortedByName(s) && SortedByName(t) && s != []
    requires multiset(s) == multiset(t)
    ensures t != [] && s[0] == t[0]
  {
    assert |t| == |multiset(t)| == |multiset(s)| == |s|;
    if s[0] != t[0] {
      SortedHeadLeast(s, t[0]);
      SortedHeadLeast(t, s[0]);
      LtAsymmetric(s[0].0, t[0].0);
    }
  }

  /** A list in strict name order is determined by its elements. */
  lemma {:induction false} SortedUnique<A>(s: seq<(string, A)>, t: seq<(string, A)>)
    requires SortedByName(s) && SortedByName(t)
    requires multiset(s) == multiset(t)
    ensures s == t
  {
    if s == [] {
      assert |t| == |multiset(t)| == 0;
    } else {
      SortedSameHead(s, t);
      SortedTail(s);
      SortedTail(t);
      SortedUnique(s[1..], t[1..]);
      assert s == [s[0]] + s[1..] && t == [t[0]] + t[1..];
    }
  }

  /** The representations of the first `n` positional arguments, concatenated in call order. */
  function ArgsFeed<A>(repr: A -> string, args: seq<A>, n: nat): string
    requires n <= |args|
  {
    if n == 0 then [] else ArgsFeed(repr, args, n - 1) + repr(args[n - 1])
  }

  /** The string `"%s:%s" % (name, repr(value))` fed for one keyword argument. */
  function Piece<A>(repr: A -> string, p: (string, A)): string
  {
    p.0 + ":" + repr(p.1)
  }

  /** The pieces of the first `n` keyword pairs of a list, concatenated in list order. */
  function KwargsFeed<A>(repr: A -> string, kw: seq<(string, A)>, n: nat): string
    requires n <= |kw|
  {
    if n == 0 then [] else KwargsFeed(repr, kw, n - 1) + Piece(repr, kw[n - 1])
  }

  /** Everything fed to the hash object for one call. */
  function Fed<A>(repr: A -> string, name: string, args: seq<A>, kwargs: seq<(string, A)>): string
    requires DistinctNames(kwargs)
  {
    name + ArgsFeed(repr, args, |args|) + KwargsFeed(repr, SortByName(kwargs), |kwargs|)
  }

  /** The cache key of one call: the digest of what was fed. */
  function KeyOf<A>(repr: A -> string, digest: string -> string, name: string,
                    args: seq<A>, kwargs: seq<(string, A)>): (ckey: string)
    requires DistinctNames(kwargs)
    ensures args == [] && kwargs == [] ==> ckey == digest(name)
  {
    assert args == [] && kwargs == [] ==> Fed(repr, name, args, kwargs) == name + [] + [] == name;
    digest(Fed(repr, name, args, kwargs))
  }

  /** The wrapper's key computation, updating the hash state in two loops. */
  method DeriveKey<A>(repr: A -> string, digest: string -> string, name: string,
                      args: seq<A>, kwargs: seq<(string, A)>) returns (ckey: string)
    requires DistinctNames(kwargs)
    ensures ckey == KeyOf(repr, digest, name, args, kwargs)
  {
    var fed := name;
    for i := 0 to |args|
      invariant fed == name + ArgsFeed(repr, args, i)
    {
      fed := fed + repr(args[i]);
    }
    ghost var positional := fed;
    var names := SortByName(kwargs);
    for i := 0 to |names|
      invariant fed == positional + KwargsFeed(repr, names, i)
    {
      fed := fed + Piece(repr, names[i]);
    }
    ckey := digest(fed);
  }

  /** Passing the same keyword arguments in another order gives the same key. */
  lemma KeyIgnoresKeywordOrder<A>(repr: A -> string, digest: string -> string, name: string,
                                  args: seq<A>, kw1: seq<(string, A)>, kw2: seq<(string, A)>)
    requires DistinctNames(kw1) && DistinctNames(kw2)
    requires multiset(kw1) == multiset(kw2)
    ensures KeyOf(repr, digest, name, args, kw1) == KeyOf(repr, digest, name, args, kw2)
  {
    SortedUnique(SortByName(kw1), SortByName(kw2));
  }

  /** The pieces are fed without separators, so with the default `repr` the
      calls `f(12)` and `f(1, 2)` feed the same string and share one key. */
  lemma AdjacentArgumentsCollide(digest: string -> string)
    ensures KeyOf(Decimal.Format, digest, "f", [12], []) == KeyOf(Decimal.Format, digest, "f", [1, 2], [])
  {
    assert Decimal.Format(12) == Decimal.Format(1) + Decimal.Format(2) == "12";
    var split: seq<int>, joined: seq<int> := [1, 2], [12];
    assert ArgsFeed(Decimal.Format, split, 2) == "12" == ArgsFeed(Decimal.Format, joined, 1);
    assert Fed(Decimal.Format, "f", joined, []) == Fed(Decimal.Format, "f", split, []);
  }

  /** For the same reason the name runs into the first argument: `f1(2)` and
      `f(12)` feed the same string and share one key. */
  lemma NameRunsIntoArguments(digest: string -> string)
    ensures KeyOf(Decimal.Format, digest, "f1", [2], []) == KeyOf(Decimal.Format, digest, "f", [12], [])
  {
    assert Decimal.Format(2) == "2" && Decimal.Format(12) == "12";
    var two: seq<int>, twelve: seq<int> := [2], [12];
    assert Fed(Decimal.Format, "f1", two, []) == "f12" == Fed(Decimal.Format, "f", twelve, []);
  }
}
