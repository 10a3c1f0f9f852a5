/**
 What the root commits to: where hashes are distinct on the nodes of two tries, equal roots mean equal
 tries and equal contents.
 */
module TrieBinding {
  import opened Rlp
  import opened HexPrefix
  import opened Trie
  import opened TrieHash
  import opened TrieRefs
  import opened TrieSteps
  import opened TrieCanon
  import opened MapHash

  /** The encodings of a tree that are hashed: those kept below it, and its own. */
  ghost function Hashed(H: Hasher, n: Node): set<Bytes> {
    Below(H, n) + {Enc(H, n)}
  }

  /** Different trees whose parts hash apart have different items. */
  lemma {:induction false} ItemBinds(H: Hasher, a: Node, b: Node, U: set<Bytes>)
    requires WellFormed(a) && WellFormed(b) && Sized(a) && Sized(b)
    requires Below(H, a) <= U && Below(H, b) <= U && CollisionFree(H, U)
    requires ItemOf(H, a) == ItemOf(H, b)
    ensures a == b
    decreases a, 0
  {
    ItemShape(H, a);
    ItemShape(H, b);
    match a
    case Null =>
    case Leaf(_, _) =>
    case Ext(_, c) =>
      ChildKept(H, a);
      ChildKept(H, b);
      RefBinds(H, c, b.child, U);
    case Branch(kids, _) =>
      forall i | 0 <= i < 16
        ensures kids[i] == b.kids[i]
      {
        KidKept(H, a, i);
        KidKept(H, b, i);
        RefBinds(H, kids[i], b.kids[i], U);
      }
      SlotSixteen(H, a);
      SlotSixteen(H, b);
      assert kids == b.kids;
  }

  lemma SlotSixteen(H: Hasher, n: Node)
    requires n.Branch? && |n.kids| == 16
    ensures ItemOf(H, n).items[16] == Data(n.value)
  {
  }

  lemma {:induction false} RefBinds(H: Hasher, a: Node, b: Node, U: set<Bytes>)
    requires WellFormed(a) && WellFormed(b) && Sized(a) && Sized(b)
    requires Kept(H, a) <= U && Kept(H, b) <= U && CollisionFree(H, U)
    requires RefOf(H, a) == RefOf(H, b)
    ensures a == b
    decreases a, 1
  {
    RefShape(H, a);
    RefShape(H, b);
    hide ItemOf, RefOf, Encode;
    if a != Null && b != Null {
      if !RefOf(H, a).List? { EncodingBinds(H, a, b, U); }
      ItemBinds(H, a, b, U);
    }
  }

  /** Equal hashes of two encodings in play are of the same item. */
  lemma {:induction false} EncodingBinds(H: Hasher, a: Node, b: Node, U: set<Bytes>)
    requires WellFormed(a) && WellFormed(b) && Sized(a) && Sized(b)
    requires Enc(H, a) in U && Enc(H, b) in U && CollisionFree(H, U) && H(Enc(H, a)) == H(Enc(H, b))
    ensures ItemOf(H, a) == ItemOf(H, b)
  {
    SizedFits(H, a);
    SizedFits(H, b);
    EncodeInjective(ItemOf(H, a), ItemOf(H, b));
  }

  /** The hash of the root commits to the tree. */
  lemma {:induction false} RootBinds(H: Hasher, a: Node, b: Node)
    requires WellFormed(a) && WellFormed(b) && Sized(a) && Sized(b)
    requires CollisionFree(H, Hashed(H, a) + Hashed(H, b)) && H(Enc(H, a)) == H(Enc(H, b))
    ensures a == b
  {
    var U := Hashed(H, a) + Hashed(H, b);
    EncodingBinds(H, a, b, U);
    ItemBinds(H, a, b, U);
  }

  /** A tree holds no other contents. */
  lemma {:induction false} AgreesOnce(n: Node, m: Contents, m': Contents)
    requires WellFormed(n) && Agrees(n, m) && Agrees(n, m')
    ensures m == m'
  {
    forall key
      ensures key in m <==> key in m'
      ensures key in m && key in m' ==> m[key] == m'[key]
    {
      AgreesAt(n, m, key);
      AgreesAt(n, m', key);
    }
  }

  /** Keys and values of a size that a node can hold. */
  ghost predicate MapFits(m: Contents) {
    forall key :: key in m ==> 2 * |key| <= MAX_KEY && |m[key]| <= MAX_VALUE
  }

  lemma {:induction false} TreeHolds(m: Contents)
    requires AllStored(m)
    ensures Normal(TreeOf(m)) && Agrees(TreeOf(m), m)
    ensures MapFits(m) ==> Sized(TreeOf(m))
  {
    var s := EveryMapIsListed(m);
    TreeIsBuilt(m, s);
    BuildAgrees(s, m);
    var n := TreeOf(m);
    if MapFits(m) {
      forall k | At(n, k) != []
        ensures |k| <= MAX_KEY && |At(n, k)| <= MAX_VALUE
      {
        assert IsKey(m, k);
      }
      BoundedIsSized(n);
    }
  }

  /** The hash of a map commits to the map. */
  lemma {:induction false} HashBinds(H: Hasher, m: Contents, m': Contents)
    requires AllStored(m) && AllStored(m') && MapFits(m) && MapFits(m')
    requires CollisionFree(H, Hashed(H, TreeOf(m)) + Hashed(H, TreeOf(m')))
    requires HashOf(H, m) == HashOf(H, m')
    ensures m == m'
  {
    hide TreeOf, Hashed, Agrees, Normal, Sized, CollisionFree, Enc;
    TreeHolds(m);
    TreeHolds(m');
    RootBinds(H, TreeOf(m), TreeOf(m'));
    AgreesOnce(TreeOf(m), m, m');
  }
}
