/**
 The hash of a map of byte strings: the map is sorted by the nibbles of its keys, and the
 hash is that of the trie over the sorted entries.
 */
module MapHash {
  import opened Rlp
  import opened HexPrefix
  import opened Trie
  import opened TrieBuild
  import opened TrieHash
  import opened TrieCanon

  ghost predicate AllStored(m: Contents) {
    forall key :: key in m ==> m[key] != []
  }

  ghost predicate KeysFit(m: Contents) {
    forall key :: key in m ==> 2 * |key| <= MAX_KEY
  }

  /** The one tree in normal form with these contents. */
  ghost function TreeOf(m: Contents): Node
    requires AllStored(m)
  {
    IsListed(m);
    var s :| ListsAll(s, m);
    Build(s, 0)
  }

  lemma {:induction false} IsListed(m: Contents)
    requires AllStored(m)
    ensures exists s :: ListsAll(s, m)
  {
    var s := EveryMapIsListed(m);
  }

  /** The hash of a map. */
  ghost function HashOf(H: Hasher, m: Contents): Hash
    requires AllStored(m)
  {
    H(Enc(H, TreeOf(m)))
  }

  lemma {:induction false} TreeIs(m: Contents, n: Node)
    requires AllStored(m) && Normal(n) && Agrees(n, m)
    ensures TreeOf(m) == n
  {
    IsListed(m);
    var s :| ListsAll(s, m) && TreeOf(m) == Build(s, 0);
    Canonical(n, m, s);
  }

  lemma {:induction false} TreeIsBuilt(m: Contents, s: seq<Entry>)
    requires AllStored(m) && ListsAll(s, m)
    ensures TreeOf(m) == Build(s, 0)
  {
    BuildAgrees(s, m);
    TreeIs(m, Build(s, 0));
  }

  /** The entries of a map sorted by the nibbles of their keys. */
  method HexMap(m: Contents) returns (s: seq<Entry>)
    requires AllStored(m)
    ensures ListsAll(s, m)
  {
    hide ListsAll, Sorted, Less, Position, ToNibbles;
    s := [];
    var rest := m.Keys;
    NothingListed(m - rest);
    while rest != {}
      invariant rest <= m.Keys && ListsAll(s, m - rest)
      decreases |rest|
    {
      var key :| key in rest;
      var k := ToNibbles(key);
      var p := Position(s, k);
      var t := s[..p] + [(k, m[key])] + s[p..];
      Placed(s, m - rest, key, m[key], t, p);
      assert m - (rest - {key}) == (m - rest)[key := m[key]];
      rest := rest - {key};
      s := t;
    }
    assert m - rest == m;
  }

  lemma NothingListed(m: Contents)
    requires m.Keys == {}
    ensures ListsAll([], m)
  {
  }

  lemma {:induction false} Placed(s: seq<Entry>, m: Contents, key: Bytes, v: Bytes, t: seq<Entry>, p: nat)
    requires ListsAll(s, m) && key !in m && v != []
    requires p == Position(s, ToNibbles(key)) && t == s[..p] + [(ToNibbles(key), v)] + s[p..]
    ensures ListsAll(t, m[key := v])
  {
    var k := ToNibbles(key);
    if Mentions(s, k) {
      var i :| 0 <= i < |s| && s[i].0 == k;
      assert IsKey(m, s[i].0);
      var other :| other in m && ToNibbles(other) == k;
      ToNibblesInjective(other, key);
    }
    SortedWith(s, k, v, p);
    assert m[key := v] - {key} == m;
    ListedWith(m[key := v], key, s, t);
  }

  /** The hash of a map, computed from scratch. */
  method Hash256(H: Hasher, m: Contents) returns (h: Hash)
    requires AllStored(m) && KeysFit(m)
    ensures h == HashOf(H, m)
  {
    var s := HexMap(m);
    KeysAreShort(s, m);
    assert s[0..|s|] == s;
    TreeIsBuilt(m, s);
    var item := Hash256Rlp(H, s, 0, |s|, 0);
    h := H(Encode(item));
  }

  lemma {:induction false} KeysAreShort(s: seq<Entry>, m: Contents)
    requires ListsAll(s, m) && KeysFit(m)
    ensures ShortKeys(s) && Entries(s, 0)
  {
    forall i | 0 <= i < |s|
      ensures |s[i].0| <= MAX_KEY
    {
      assert IsKey(m, s[i].0);
      var key :| key in m && ToNibbles(key) == s[i].0;
    }
  }
}
