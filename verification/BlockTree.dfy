/**
 The tree of hash-linked headers that the header chain, the block chain and the
 indexer all walk.  A header carries its own hash; that a store maps every hash to
 the one header that has it is the model's reading of "hashes are injective".
 */
module BlockTree {
  import opened Wrappers

  /** The zero hash stands for "no such entry". */
  type Hash = nat
  const ZERO_HASH: Hash := 0

  datatype Header = Header(hash: Hash, parentHash: Hash, number: nat, difficulty: nat)

  type Store = map<Hash, Header>
  type Canon = map<nat, Hash>

  /** Headers are keyed by number and hash together. */
  function GetHeader(s: Store, hash: Hash, number: int): Option<Header> {
    if hash in s && s[hash].number == number then Some(s[hash]) else None
  }

  function CanonicalHash(canon: Canon, number: nat): Hash {
    if number in canon then canon[number] else ZERO_HASH
  }

  /** The parent of `h` is stored, one below; only the root has none. */
  ghost predicate Linked(s: Store, g: Hash, h: Hash)
    requires h in s
  {
    && (s[h].number == 0 ==> h == g)
    && (s[h].number > 0 ==> s[h].parentHash in s && s[s[h].parentHash].number == s[h].number - 1)
  }

  /** `s` is a parent-closed tree with the single root `g`. */
  ghost predicate Tree(s: Store, g: Hash) {
    && g in s
    && s[g].number == 0
    && (forall h :: h in s ==> h != ZERO_HASH && s[h].hash == h)
    // the explicit trigger keeps the solver from walking up the tree on its own
    && (forall h {:trigger Linked(s, g, h)} :: h in s ==> Linked(s, g, h))
  }

  /** The ancestor of `h` at height `n`, found one parent at a time. */
  ghost function AncestorAt(s: Store, g: Hash, h: Hash, n: nat): (a: Hash)
    requires Tree(s, g) && h in s && n <= s[h].number
    ensures a in s && s[a].number == n && a != ZERO_HASH
    decreases s[h].number
  {
    assert Linked(s, g, h) && h != ZERO_HASH;
    if s[h].number == n then h else AncestorAt(s, g, s[h].parentHash, n)
  }

  /** The number -> hash map that describes exactly the path from the root to `head`. */
  ghost function PathTo(s: Store, g: Hash, head: Hash): Canon
    requires Tree(s, g) && head in s
  {
    map n | 0 <= n <= s[head].number :: AncestorAt(s, g, head, n)
  }

  /** The total difficulty of `h`: the difficulties of the path from the root, summed. */
  ghost function PathDifficulty(s: Store, g: Hash, h: Hash): nat
    requires Tree(s, g) && h in s
    decreases s[h].number
  {
    assert Linked(s, g, h);
    s[h].difficulty + if s[h].number == 0 then 0 else PathDifficulty(s, g, s[h].parentHash)
  }

  lemma {:induction false} AncestorCompose(s: Store, g: Hash, h: Hash, m: nat, n: nat)
    requires Tree(s, g) && h in s && n <= m <= s[h].number
    ensures AncestorAt(s, g, AncestorAt(s, g, h, m), n) == AncestorAt(s, g, h, n)
    decreases s[h].number
  {
    if s[h].number != m {
      assert Linked(s, g, h);
      AncestorCompose(s, g, s[h].parentHash, m, n);
    }
  }

  /** Neighbouring entries of a path are child and parent. */
  lemma AncestorParent(s: Store, g: Hash, h: Hash, n: nat)
    requires Tree(s, g) && h in s && 0 < n <= s[h].number
    ensures s[AncestorAt(s, g, h, n)].parentHash == AncestorAt(s, g, h, n - 1)
  {
    AncestorCompose(s, g, h, n, n - 1);
    assert Linked(s, g, AncestorAt(s, g, h, n));
  }

  lemma AncestorOfItself(s: Store, g: Hash, h: Hash)
    requires Tree(s, g) && h in s
    ensures AncestorAt(s, g, h, s[h].number) == h
  {
  }

  lemma AncestorRoot(s: Store, g: Hash, h: Hash)
    requires Tree(s, g) && h in s
    ensures AncestorAt(s, g, h, 0) == g
  {
    assert Linked(s, g, AncestorAt(s, g, h, 0));
  }

  /** Two paths that agree at one height agree at every height below it. */
  lemma AgreeBelow(s: Store, g: Hash, a: Hash, b: Hash, m: nat, n: nat)
    requires Tree(s, g) && a in s && b in s && n <= m <= s[a].number && m <= s[b].number
    requires AncestorAt(s, g, a, m) == AncestorAt(s, g, b, m)
    ensures AncestorAt(s, g, a, n) == AncestorAt(s, g, b, n)
  {
    AncestorCompose(s, g, a, m, n);
    AncestorCompose(s, g, b, m, n);
  }

  /** `t` keeps every header of `s` that lies at or below `h`. */
  ghost predicate KeepsPath(s: Store, t: Store, limit: nat) {
    forall h :: h in s && s[h].number <= limit ==> h in t && t[h] == s[h]
  }

  lemma {:induction false} AncestorKept(s: Store, t: Store, g: Hash, h: Hash, n: nat, limit: nat)
    requires Tree(s, g) && Tree(t, g) && KeepsPath(s, t, limit)
    requires h in s && n <= s[h].number <= limit
    ensures h in t && t[h] == s[h]
    ensures AncestorAt(t, g, h, n) == AncestorAt(s, g, h, n)
    decreases s[h].number
  {
    if s[h].number != n {
      assert Linked(s, g, h) && Linked(t, g, h);
      AncestorKept(s, t, g, s[h].parentHash, n, limit);
    }
  }

  lemma PathKept(s: Store, t: Store, g: Hash, h: Hash, limit: nat)
    requires Tree(s, g) && Tree(t, g) && KeepsPath(s, t, limit)
    requires h in s && s[h].number <= limit
    ensures h in t && PathTo(t, g, h) == PathTo(s, g, h)
  {
    forall n | 0 <= n <= s[h].number
      ensures AncestorAt(t, g, h, n) == AncestorAt(s, g, h, n)
    {
      AncestorKept(s, t, g, h, n, limit);
    }
  }

  lemma {:induction false} DifficultyKept(s: Store, t: Store, g: Hash, h: Hash, limit: nat)
    requires Tree(s, g) && Tree(t, g) && KeepsPath(s, t, limit)
    requires h in s && s[h].number <= limit
    ensures h in t && PathDifficulty(t, g, h) == PathDifficulty(s, g, h)
    decreases s[h].number
  {
    if s[h].number != 0 {
      assert Linked(s, g, h) && Linked(t, g, h);
      DifficultyKept(s, t, g, s[h].parentHash, limit);
    }
  }

  /** A header may be added below any stored parent. */
  ghost predicate Attachable(s: Store, hdr: Header) {
    && hdr.hash != ZERO_HASH
    && (hdr.hash in s ==> s[hdr.hash] == hdr)
    && hdr.number > 0
    && hdr.parentHash in s
    && s[hdr.parentHash].number == hdr.number - 1
  }

  lemma AttachKeepsTree(s: Store, g: Hash, hdr: Header, limit: nat)
    requires Tree(s, g) && Attachable(s, hdr)
    ensures Tree(s[hdr.hash := hdr], g)
    ensures KeepsPath(s, s[hdr.hash := hdr], limit)
  {
    var t := s[hdr.hash := hdr];
    forall h | h in t
      ensures Linked(t, g, h)
    {
      assert h in s ==> Linked(s, g, h);
    }
  }

  /** Cutting a tree at a height keeps a tree. */
  ghost function CutAbove(s: Store, limit: nat): Store {
    s - (set h | h in s && s[h].number > limit)
  }

  /** What is left is exactly what lies at or below the height. */
  lemma CutIsBelow(s: Store, limit: nat, h: Hash)
    ensures h in CutAbove(s, limit) <==> h in s && s[h].number <= limit
    ensures h in CutAbove(s, limit) ==> CutAbove(s, limit)[h] == s[h]
  {
  }

  lemma CutKeepsTree(s: Store, g: Hash, limit: nat)
    requires Tree(s, g)
    ensures Tree(CutAbove(s, limit), g)
    ensures KeepsPath(s, CutAbove(s, limit), limit)
  {
    var t := CutAbove(s, limit);
    forall h | h in t
      ensures Linked(t, g, h)
    {
      assert Linked(s, g, h);
    }
  }
}
