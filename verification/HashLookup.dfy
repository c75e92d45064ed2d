/**
 Looking up the hash of an ancestor by number, as the EVM does it: a cache of the hashes
 below a reference header grows with every query.  Whatever was asked before, and however
 the stored headers have grown meanwhile, the answer is that of a fresh walk.
 */
module HashLookup {
  import opened BlockTree
  import opened Wrappers
  import opened Numbers

  /** 64-bit subtraction. */
  function Minus(a: nat, b: nat): nat
    requires a <= MAX_UINT64 && b <= MAX_UINT64
  {
    if b <= a then a - b else a + MAX_UINT64 + 1 - b
  }

  /** A difference of 64-bit numbers is 64 bits wide and right up to 2^64. */
  lemma MinusWraps(a: nat, b: nat)
    requires a < 0x1_0000_0000_0000_0000 && b < 0x1_0000_0000_0000_0000
    ensures Minus(a, b) < 0x1_0000_0000_0000_0000
    ensures b + Minus(a, b) == a || b + Minus(a, b) == a + 0x1_0000_0000_0000_0000
  {
  }

  /** The fresh walk: the hash at height `n` on the way down from `hash`, which is at height `number`. */
  ghost function Walk(s: Store, hash: Hash, number: nat, n: nat): Option<Hash>
    requires n <= number
    decreases number
  {
    if n == number then Some(hash)
    else
      var header := GetHeader(s, hash, number);
      if header.None? then None else Walk(s, header.value.parentHash, number - 1, n)
  }

  /** What a lookup below `ref` should answer: nothing from `ref` upwards, and nothing past a missing header. */
  ghost function Answer(s: Store, ref: Header, n: nat): Hash {
    if n >= ref.number then ZERO_HASH
    else
      var found := Walk(s, ref.parentHash, ref.number - 1, n);
      if found.Some? then found.value else ZERO_HASH
  }

  /** Genesis headers have no parent, and nothing is stored under the zero hash. */
  ghost predicate Rooted(s: Store) {
    && ZERO_HASH !in s
    && forall h :: h in s && s[h].number == 0 ==> s[h].parentHash == ZERO_HASH
  }

  ghost predicate Grows(s: Store, t: Store) {
    forall h :: h in s ==> h in t && t[h] == s[h]
  }

  /** More headers never change an answer that was found. */
  lemma {:induction false} WalkGrows(s: Store, t: Store, hash: Hash, number: nat, n: nat)
    requires n <= number && Grows(s, t) && Walk(s, hash, number, n).Some?
    ensures Walk(t, hash, number, n) == Walk(s, hash, number, n)
    decreases number
  {
    if n < number {
      WalkGrows(s, t, s[hash].parentHash, number - 1, n);
    }
  }

  /** The walk goes one step further if the header it has reached is stored. */
  lemma {:induction false} WalkFurther(s: Store, hash: Hash, number: nat, n: nat)
    requires 0 < n <= number && Walk(s, hash, number, n).Some?
    ensures var header := GetHeader(s, Walk(s, hash, number, n).value, n);
      Walk(s, hash, number, n - 1) == if header.Some? then Some(header.value.parentHash) else None
    decreases number
  {
    if n < number {
      WalkFurther(s, s[hash].parentHash, number - 1, n);
    }
  }

  /** Where the walk stops it stops for good. */
  lemma {:induction false} WalkStops(s: Store, hash: Hash, number: nat, m: nat, n: nat)
    requires n <= m <= number && Walk(s, hash, number, m).None?
    ensures Walk(s, hash, number, n).None?
    decreases number
  {
    if m < number && GetHeader(s, hash, number).Some? {
      WalkStops(s, s[hash].parentHash, number - 1, m, n);
    }
  }

  /** In a tree the walk never stops, and it finds the ancestor. */
  lemma {:induction false} WalkFindsAncestor(s: Store, g: Hash, h: Hash, n: nat)
    requires Tree(s, g) && h in s && n <= s[h].number
    ensures Walk(s, h, s[h].number, n) == Some(AncestorAt(s, g, h, n))
    decreases s[h].number
  {
    if n < s[h].number {
      assert Linked(s, g, h);
      WalkFindsAncestor(s, g, s[h].parentHash, n);
    }
  }

  /** The ancestor of `ref` at height `ref.number - 1 - i` is `h`. */
  ghost predicate Entry(s: Store, ref: Header, h: Hash, i: nat)
    requires i < ref.number
  {
    Walk(s, ref.parentHash, ref.number - 1, ref.number - 1 - i) == Some(h)
  }

  /** Every entry is right; one more entry than there are ancestors closes a walk that has passed genesis. */
  ghost predicate CacheValid(s: Store, ref: Header, cache: seq<Hash>) {
    && |cache| <= ref.number + 1
    && (forall i :: 0 <= i < |cache| && i < ref.number ==> Entry(s, ref, cache[i], i))
    && (|cache| == ref.number + 1 ==> cache[ref.number] == ZERO_HASH)
  }

  /** A cache stays right while headers are added to the store. */
  lemma CacheSurvives(s: Store, t: Store, ref: Header, cache: seq<Hash>)
    requires CacheValid(s, ref, cache) && Grows(s, t)
    ensures CacheValid(t, ref, cache)
  {
    forall i | 0 <= i < |cache| && i < ref.number
      ensures Entry(t, ref, cache[i], i)
    {
      assert Entry(s, ref, cache[i], i);
      WalkGrows(s, t, ref.parentHash, ref.number - 1, ref.number - 1 - i);
    }
  }

  /** One header further down. */
  lemma CacheGrows(s: Store, ref: Header, cache: seq<Hash>, header: Header)
    requires CacheValid(s, ref, cache) && Rooted(s) && 0 < |cache| <= ref.number
    requires GetHeader(s, cache[|cache| - 1], ref.number - |cache|) == Some(header)
    ensures CacheValid(s, ref, cache + [header.parentHash])
  {
    var more := cache + [header.parentHash];
    if |cache| < ref.number {
      assert Entry(s, ref, cache[|cache| - 1], |cache| - 1);
      WalkFurther(s, ref.parentHash, ref.number - 1, ref.number - |cache|);
      assert Entry(s, ref, header.parentHash, |cache|);
    }
    forall i | 0 <= i < |more| && i < ref.number
      ensures Entry(s, ref, more[i], i)
    {
      assert i < |cache| ==> Entry(s, ref, cache[i], i);
    }
  }

  /** No header under the last cached hash: no walk gets further. */
  lemma CacheEnds(s: Store, ref: Header, cache: seq<Hash>, n: nat)
    requires CacheValid(s, ref, cache) && 0 < |cache| <= ref.number && n < ref.number - |cache|
    requires GetHeader(s, cache[|cache| - 1], ref.number - |cache|).None?
    ensures Answer(s, ref, n) == ZERO_HASH
  {
    assert Entry(s, ref, cache[|cache| - 1], |cache| - 1);
    WalkFurther(s, ref.parentHash, ref.number - 1, ref.number - |cache|);
    WalkStops(s, ref.parentHash, ref.number - 1, ref.number - |cache| - 1, n);
  }

  /** What is in the cache is the answer. */
  lemma CacheAnswers(s: Store, ref: Header, cache: seq<Hash>, n: nat)
    requires CacheValid(s, ref, cache) && n < ref.number && ref.number - n - 1 < |cache|
    ensures Answer(s, ref, n) == cache[ref.number - n - 1]
  {
    assert Entry(s, ref, cache[ref.number - n - 1], ref.number - n - 1);
  }

  class HashLookup {
    const ref: Header
    var cache: seq<Hash>

    ghost predicate Valid(s: Store)
      reads this
    {
      && ref.number < MAX_UINT64 && (ref.number == 0 ==> ref.parentHash == ZERO_HASH)
      && CacheValid(s, ref, cache)
    }

    constructor (ref: Header)
      requires ref.number < MAX_UINT64 && (ref.number == 0 ==> ref.parentHash == ZERO_HASH)
      ensures this.ref == ref && cache == [] && forall s :: Valid(s)
    {
      this.ref := ref;
      cache := [];
    }

    /** The closure that `GetHashFn` returns. */
    method GetHash(s: Store, n: nat) returns (h: Hash)
      requires Valid(s) && Rooted(s) && n <= MAX_UINT64
      modifies this
      ensures Valid(s)
      ensures h == Answer(s, ref, n)
      ensures old(cache) <= cache
    {
      if |cache| == 0 {
        cache := [ref.parentHash];
      }
      assert CacheValid(s, ref, cache);
      hide CacheValid, Walk, Answer;
      var idx := Minus(Minus(ref.number, n), 1);
      if idx < |cache| {
        FromCache(s, n);
        return cache[idx];
      }
      var lastKnownHash := cache[|cache| - 1];
      var lastKnownNumber := Minus(ref.number, |cache|);
      while true
        invariant Valid(s) && 0 < |cache| <= ref.number + 1 && old(cache) <= cache
        invariant |cache| == ref.number + 1 ==> lastKnownHash == ZERO_HASH
        invariant lastKnownHash == cache[|cache| - 1] && lastKnownNumber == Minus(ref.number, |cache|)
        invariant n < ref.number ==> |cache| <= ref.number && n < ref.number - |cache|
        decreases ref.number + 1 - |cache|
      {
        var found := GetHeader(s, lastKnownHash, lastKnownNumber);
        if found == None {
          break;
        }
        var header := found.value;
        CacheGrows(s, ref, cache, header);
        cache := cache + [header.parentHash];
        CacheIsShort(s, ref, cache);
        lastKnownHash := header.parentHash;
        lastKnownNumber := Minus(header.number, 1);
        if n == lastKnownNumber {
          FromCache(s, n);
          return lastKnownHash;
        }
      }
      if n < ref.number {
        CacheEnds(s, ref, cache, n);
      } else {
        NothingAbove(s, ref, n);
      }
      return ZERO_HASH;
    }

    lemma FromCache(s: Store, n: nat)
      requires Valid(s) && n <= MAX_UINT64 && Minus(Minus(ref.number, n), 1) < |cache|
      ensures Answer(s, ref, n) == cache[Minus(Minus(ref.number, n), 1)]
    {
      if n < ref.number {
        CacheAnswers(s, ref, cache, n);
      }
    }
  }

  lemma CacheIsShort(s: Store, ref: Header, cache: seq<Hash>)
    requires CacheValid(s, ref, cache)
    ensures |cache| <= ref.number + 1
    ensures |cache| == ref.number + 1 ==> cache[ref.number] == ZERO_HASH
  {
  }

  lemma NothingAbove(s: Store, ref: Header, n: nat)
    requires n >= ref.number
    ensures Answer(s, ref, n) == ZERO_HASH
  {
  }
}
