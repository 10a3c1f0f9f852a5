/**
 Bookkeeping facts behind the steps of the stored trie: which references and
 encodings a reshaping step needs, and why a kill that nothing held is harmless.
 */
module TrieSteps {
  import opened Rlp
  import opened HexPrefix
  import opened Trie
  import opened TrieHash
  import opened TrieRefs

  // ---- items of nodes ----

  predicate IsEmptyItem(item: Item) { item == Data([]) || item == List([]) }

  predicate IsPair(item: Item) { item.List? && |item.items| == 2 && item.items[0].Data? && item.items[0].data != [] }

  predicate IsSlots(item: Item) { item.List? && |item.items| == 17 && item.items[16].Data? }

  function PairKey(item: Item): Nibbles
    requires IsPair(item)
  {
    KeyOf(item.items[0].data)
  }

  predicate PairIsLeaf(item: Item)
    requires IsPair(item)
  {
    IsLeafKey(item.items[0].data)
  }

  /** The item of a node tells its kind, its key and its parts. */
  lemma {:induction false} ItemShape(H: Hasher, n: Node)
    requires WellFormed(n)
    ensures IsEmptyItem(ItemOf(H, n)) <==> n.Null?
    ensures IsPair(ItemOf(H, n)) <==> n.Leaf? || n.Ext?
    ensures IsSlots(ItemOf(H, n)) <==> n.Branch?
    ensures n.Leaf? || n.Ext? ==> PairKey(ItemOf(H, n)) == n.key && PairIsLeaf(ItemOf(H, n)) == n.Leaf?
    ensures n.Branch? ==> forall i :: 0 <= i < 16 ==> ItemOf(H, n).items[i] == RefOf(H, n.kids[i])
  {
    match n
    case Leaf(k, _) => EncodedInverts(k, true);
    case Ext(k, _) => EncodedInverts(k, false);
    case _ =>
  }

  lemma {:induction false} RefShape(H: Hasher, n: Node)
    requires WellFormed(n)
    ensures RefOf(H, n).List? || n.Null? <==> |Enc(H, n)| < 32
    ensures RefOf(H, n).List? ==> RefOf(H, n) == ItemOf(H, n)
    ensures !n.Null? && |Enc(H, n)| >= 32 ==> RefOf(H, n) == Data(H(Enc(H, n)))
    ensures IsEmptyItem(RefOf(H, n)) <==> n.Null?
  {
    ItemShape(H, n);
  }

  lemma PairItem(H: Hasher, n: Node, item: Item, k: Nibbles)
    requires (n.Leaf? || n.Ext?) && item == ItemOf(H, n)
    ensures ItemOf(H, WithKey(n, k)) == List([Data(Encoded(k, n.Leaf?)), item.items[1]])
  {
  }

  const EMPTY_SLOTS: seq<Item> := [
    EMPTY, EMPTY, EMPTY, EMPTY, EMPTY, EMPTY, EMPTY, EMPTY,
    EMPTY, EMPTY, EMPTY, EMPTY, EMPTY, EMPTY, EMPTY, EMPTY]

  lemma {:induction false} NoKidsItem(H: Hasher, v: Bytes)
    ensures ItemOf(H, Branch(NO_KIDS, v)) == List(EMPTY_SLOTS + [Data(v)])
  {
    assert RefOf(H, Null) == EMPTY;
    var refs := seq(16, i requires 0 <= i < 16 => RefOf(H, NO_KIDS[i]));
    assert refs == EMPTY_SLOTS;
  }

  /** Replacing one child replaces one slot. */
  lemma {:induction false} KidItem(H: Hasher, kids: seq<Node>, v: Bytes, i: nat, c: Node)
    requires |kids| == 16 && i < 16
    ensures ItemOf(H, Branch(kids[i := c], v)) == List(ItemOf(H, Branch(kids, v)).items[i := RefOf(H, c)])
  {
    hide RefOf;
    var before, after := ItemOf(H, Branch(kids, v)).items, ItemOf(H, Branch(kids[i := c], v)).items;
    assert |before| == 17 && |after| == 17;
    assert forall j :: 0 <= j < 17 ==> after[j] == before[i := RefOf(H, c)][j];
  }

  lemma {:induction false} ValueItem(H: Hasher, kids: seq<Node>, v: Bytes, w: Bytes)
    requires |kids| == 16
    ensures ItemOf(H, Branch(kids, w)) == List(ItemOf(H, Branch(kids, v)).items[..16] + [Data(w)])
  {
    hide RefOf;
    var before, after := ItemOf(H, Branch(kids, v)).items, ItemOf(H, Branch(kids, w)).items;
    assert |before| == 17 && |after| == 17;
    assert forall j :: 0 <= j < 17 ==> after[j] == (before[..16] + [Data(w)])[j];
  }

  // ---- shapes met during an insertion ----

  /** All children are in normal form; the node itself need not be. */
  predicate NearNormal(n: Node): (r: bool)
    ensures r ==> WellFormed(n)
  {
    match n
    case Null => true
    case Leaf(_, v) => v != []
    case Ext(k, c) => k != [] && c != Null && Normal(c)
    case Branch(kids, _) => |kids| == 16 && forall i :: 0 <= i < 16 ==> Normal(kids[i])
  }

  predicate Mergeable(n: Node, k: Nibbles) {
    NearNormal(n) && (Matches(n, k) || Normal(n))
  }

  predicate NoKidBut(n: Node, i: nat) {
    n.Branch? && |n.kids| == 16 && i < 16 && forall j :: 0 <= j < 16 && j != i ==> n.kids[j] == Null
  }

  /** A branch with at most one child and no value. */
  ghost predicate Lonely(n: Node) {
    n.Branch? && |n.kids| == 16 && n.value == [] && exists i :: NoKidBut(n, i)
  }

  lemma NormalIsNear(n: Node)
    requires Normal(n)
    ensures NearNormal(n)
  {
  }

  lemma CleveIsMergeable(n: Node, s: nat, k: Nibbles)
    requires Normal(n) && (n.Leaf? || n.Ext?) && 0 < s <= |n.key| && (n.Ext? ==> s < |n.key|)
    requires IsPrefix(n.key[..s], k)
    ensures Mergeable(Cleve(n, s), k) && (Sized(n) ==> Sized(Cleve(n, s)))
  {
  }

  lemma {:induction false} ToBranchIsMergeable(n: Node, k: Nibbles)
    requires Normal(n) && (n.Leaf? || n.Ext?) && !Matches(n, k)
    ensures Mergeable(ToBranch(n), k) && (Sized(n) ==> Sized(ToBranch(n)))
    ensures k == [] ==> Lonely(ToBranch(n))
  {
    if k == [] {
      assert n.key != [];
      assert NoKidBut(ToBranch(n), n.key[0]);
    }
  }

  // ---- references ----

  /** `h` is the hash of a node in normal form whose encoding is in play. */
  ghost predicate NamesNode(H: Hasher, U: set<Bytes>, h: Hash) {
    exists m :: NamedBy(H, U, h, m)
  }

  ghost predicate NamedBy(H: Hasher, U: set<Bytes>, h: Hash, m: Node) {
    Normal(m) && Sized(m) && Enc(H, m) in U && H(Enc(H, m)) == h
  }

  ghost predicate NormalRefs(H: Hasher, U: set<Bytes>, C: multiset<Hash>) {
    forall h :: h in C ==> NamesNode(H, U, h)
  }

  lemma {:induction false} NormalRefsSum(H: Hasher, U: set<Bytes>, C: multiset<Hash>, D: multiset<Hash>)
    ensures NormalRefs(H, U, C + D) <==> NormalRefs(H, U, C) && NormalRefs(H, U, D)
  {
    if NormalRefs(H, U, C + D) {
      assert forall h :: h in C ==> h in C + D;
      assert forall h :: h in D ==> h in C + D;
    }
  }

  lemma {:induction false} OwnIsNormal(H: Hasher, U: set<Bytes>, n: Node)
    requires Normal(n) && Sized(n) && (|Enc(H, n)| >= 32 ==> Enc(H, n) in U)
    ensures NormalRefs(H, U, Own(H, n))
  {
    if |Enc(H, n)| >= 32 {
      assert NamedBy(H, U, H(Enc(H, n)), n);
    }
  }

  /** All references below a trie in normal form name nodes in normal form. */
  lemma {:induction false} RefsAreNormal(H: Hasher, U: set<Bytes>, n: Node)
    requires Normal(n) && Sized(n) && Below(H, n) <= U
    ensures NormalRefs(H, U, Refs(H, n))
    decreases n, 0
  {
    match n
    case Ext(_, c) => OwnedIsNormal(H, U, c);
    case Branch(kids, _) =>
      forall i | 0 <= i < |kids|
        ensures Kept(H, kids[i]) <= U
      {
        KidKept(H, n, i);
      }
      AllNormal(H, U, kids);
    case _ =>
  }

  lemma {:induction false} OwnedIsNormal(H: Hasher, U: set<Bytes>, n: Node)
    requires Normal(n) && Sized(n) && Kept(H, n) <= U
    ensures NormalRefs(H, U, Owned(H, n))
    decreases n, 1
  {
    OwnIsNormal(H, U, n);
    RefsAreNormal(H, U, n);
    NormalRefsSum(H, U, Own(H, n), Refs(H, n));
  }

  lemma {:induction false} AllNormal(H: Hasher, U: set<Bytes>, kids: seq<Node>)
    requires forall i :: 0 <= i < |kids| ==> Normal(kids[i]) && Sized(kids[i]) && Kept(H, kids[i]) <= U
    ensures NormalRefs(H, U, RefsAll(H, kids))
    decreases kids, 0
  {
    if kids != [] {
      OwnedIsNormal(H, U, kids[0]);
      AllNormal(H, U, kids[1..]);
      NormalRefsSum(H, U, Owned(H, kids[0]), RefsAll(H, kids[1..]));
    }
  }

  /** A branch with one slot in use is no node of a trie in normal form: its hash is held by nobody. */
  lemma {:induction false} LonelyIsDead(H: Hasher, U: set<Bytes>, b: Node, C: multiset<Hash>)
    requires Lonely(b) && WellFormed(b) && Sized(b) && Enc(H, b) in U
    requires CollisionFree(H, U) && NormalRefs(H, U, C)
    ensures H(Enc(H, b)) !in C
  {
    if H(Enc(H, b)) in C {
      assert NamesNode(H, U, H(Enc(H, b)));
      var m :| NamedBy(H, U, H(Enc(H, b)), m);
      SizedFits(H, b);
      SizedFits(H, m);
      EncodeInjective(ItemOf(H, b), ItemOf(H, m));
      LonelyIsNotNormal(H, b, m);
    }
  }

  lemma {:induction false} LonelyIsNotNormal(H: Hasher, b: Node, m: Node)
    requires Lonely(b) && WellFormed(b) && Normal(m)
    ensures ItemOf(H, b) != ItemOf(H, m)
  {
    ItemShape(H, b);
    ItemShape(H, m);
    if m.Branch? {
      var u :| NoKidBut(b, u);
      var i, j :| 0 <= i < j <= 16 && Used(m, i) && Used(m, j);
      var s := if i == u then j else i;
      if s < 16 {
        RefShape(H, b.kids[s]);
        RefShape(H, m.kids[s]);
        assert ItemOf(H, b).items[s] == RefOf(H, b.kids[s]);
        assert ItemOf(H, m).items[s] == RefOf(H, m.kids[s]);
      } else {
        assert ItemOf(H, b).items[16] == Data(b.value) && ItemOf(H, m).items[16] == Data(m.value);
      }
    }
  }

  // ---- plans: what each step of an insertion hands to the next ----

  /** What insertion at a node needs of the tree and of the strings in play. */
  ghost predicate Plan(H: Hasher, n: Node, k: Nibbles, v: Bytes, C: multiset<Hash>, U: set<Bytes>) {
    && Mergeable(n, k) && Sized(n) && v != []
    && Below(H, n) <= U && Touched(H, n, k, v) <= U
    && CollisionFree(H, U) && NormalRefs(H, U, C + Refs(H, n))
  }

  /** The same for insertion through a reference, whose node is stored or inlined again afterwards. */
  ghost predicate PlanRef(H: Hasher, c: Node, k: Nibbles, v: Bytes, C: multiset<Hash>, U: set<Bytes>) {
    && Normal(c) && Sized(c) && v != []
    && Kept(H, c) <= U && Touched(H, c, k, v) <= U && Enc(H, Merged(c, k, v)) in U
    && CollisionFree(H, U) && NormalRefs(H, U, C + Owned(H, c))
  }

  lemma {:induction false} RefStep(H: Hasher, c: Node, k: Nibbles, v: Bytes, C: multiset<Hash>, U: set<Bytes>)
    requires PlanRef(H, c, k, v, C, U)
    ensures Plan(H, c, k, v, C, U)
    ensures C + Owned(H, c) == C + Own(H, c) + Refs(H, c)
    ensures C + Owned(H, Merged(c, k, v)) == C + Refs(H, Merged(c, k, v)) + Own(H, Merged(c, k, v))
  {
    hide Own, Refs, Touched, Merged;
    NormalRefsSum(H, U, C + Refs(H, c), Own(H, c));
    assert C + Owned(H, c) == C + Refs(H, c) + Own(H, c);
  }

  lemma ExtStep(H: Hasher, n: Node, k: Nibbles, v: Bytes, C: multiset<Hash>, U: set<Bytes>)
    requires Plan(H, n, k, v, C, U) && n.Ext? && IsPrefix(n.key, k)
    ensures PlanRef(H, n.child, k[|n.key|..], v, C, U)
    ensures Refs(H, n) == Owned(H, n.child)
    ensures Merged(n, k, v) == Ext(n.key, Merged(n.child, k[|n.key|..], v))
  {
  }

  lemma {:induction false} SlotStep(H: Hasher, n: Node, k: Nibbles, v: Bytes, C: multiset<Hash>, U: set<Bytes>)
    requires Plan(H, n, k, v, C, U) && n.Branch? && k != []
    ensures PlanRef(H, n.kids[k[0]], k[1..], v, C + Others(H, n.kids, k[0]), U)
    ensures var after := Merged(n.kids[k[0]], k[1..], v);
      && C + Refs(H, n) == C + Others(H, n.kids, k[0]) + Owned(H, n.kids[k[0]])
      && C + Refs(H, Merged(n, k, v)) == C + Others(H, n.kids, k[0]) + Owned(H, after)
      && ItemOf(H, Merged(n, k, v)) == List(ItemOf(H, n).items[k[0] := RefOf(H, after)])
  {
    var after := Merged(n.kids[k[0]], k[1..], v);
    RefsSplit(H, n.kids, k[0]);
    RefsUpdate(H, n.kids, k[0], after);
    KidKept(H, n, k[0]);
    KidItem(H, n.kids, n.value, k[0], after);
    SlotPlan(H, n, k, v, C, U);
  }

  lemma {:induction false} SlotPlan(H: Hasher, n: Node, k: Nibbles, v: Bytes, C: multiset<Hash>, U: set<Bytes>)
    requires Plan(H, n, k, v, C, U) && n.Branch? && k != []
    ensures PlanRef(H, n.kids[k[0]], k[1..], v, C + Others(H, n.kids, k[0]), U)
  {
    RefsSplit(H, n.kids, k[0]);
    KidKept(H, n, k[0]);
    assert Touched(H, n, k, v) == {Enc(H, Merged(n.kids[k[0]], k[1..], v))} + Touched(H, n.kids[k[0]], k[1..], v);
    assert C + Refs(H, n) == C + Others(H, n.kids, k[0]) + Owned(H, n.kids[k[0]]);
  }

  lemma {:induction false} ReshapeFacts(H: Hasher, n: Node, k: Nibbles, v: Bytes, C: multiset<Hash>, U: set<Bytes>)
    requires Plan(H, n, k, v, C, U) && !Matches(n, k)
    ensures Normal(n) && (n.Leaf? || n.Ext?)
    ensures IsPair(ItemOf(H, n)) && PairKey(ItemOf(H, n)) == n.key
    ensures var s := Shared(k, n.key);
      && (n.Ext? ==> s < |n.key|)
      && Reshaped(n, k) == if s > 0 then Cleve(n, s) else ToBranch(n)
  {
    ItemShape(H, n);
    SharedIsPrefix(k, n.key);
  }

  lemma {:induction false} ReshapeStep(H: Hasher, n: Node, k: Nibbles, v: Bytes, C: multiset<Hash>, U: set<Bytes>)
    requires Plan(H, n, k, v, C, U) && !Matches(n, k)
    ensures var r := Reshaped(n, k);
      && Plan(H, r, k, v, C, U) && Matches(r, k) && (r.Ext? || r.Branch?)
      && Enc(H, r) in U && Below(H, r) <= U
      && (r.Branch? && k == [] ==> Lonely(r))
      && Merged(n, k, v) == Merged(r, k, v)
  {
    SharedIsPrefix(k, n.key);
    var s := Shared(k, n.key);
    var r := Reshaped(n, k);
    assert Below(H, r) <= U && Enc(H, r) in U && Touched(H, r, k, v) <= U;
    if s > 0 {
      CleveIsMergeable(n, s, k);
      ReshapedByCleve(H, n, s, C, U);
    } else {
      ToBranchIsMergeable(n, k);
      ReshapedByBranch(H, n, C, U);
    }
  }

  /** A reshaping step adds at most one reference, to a node in normal form. */
  lemma {:induction false} ReshapedByCleve(H: Hasher, n: Node, s: nat, C: multiset<Hash>, U: set<Bytes>)
    requires Normal(n) && Sized(n) && (n.Leaf? || n.Ext?)
    requires 0 < s <= |n.key| && (n.Ext? ==> s < |n.key|) && Below(H, Cleve(n, s)) <= U
    requires NormalRefs(H, U, C + Refs(H, n))
    ensures NormalRefs(H, U, C + Refs(H, Cleve(n, s)))
  {
    var low := WithKey(n, n.key[s..]);
    CleveRefs(H, n, s);
    OwnIsNormal(H, U, low);
    hide Own, Refs, NormalRefs;
    NormalRefsSum(H, U, C + Refs(H, n), Own(H, low));
    assert C + Refs(H, n) + Own(H, low) == C + Refs(H, Cleve(n, s));
  }

  lemma {:induction false} ReshapedByBranch(H: Hasher, n: Node, C: multiset<Hash>, U: set<Bytes>)
    requires Normal(n) && Sized(n) && (n.Leaf? || n.Ext?) && Below(H, ToBranch(n)) <= U
    requires NormalRefs(H, U, C + Refs(H, n))
    ensures NormalRefs(H, U, C + Refs(H, ToBranch(n)))
  {
    ToBranchRefs(H, n);
    if n.key != [] && (n.Leaf? || |n.key| > 1) {
      var low := WithKey(n, n.key[1..]);
      KidKept(H, ToBranch(n), n.key[0]);
      OwnIsNormal(H, U, low);
      hide Own, Refs, NormalRefs;
      NormalRefsSum(H, U, C + Refs(H, n), Own(H, low));
      assert C + Refs(H, n) + Own(H, low) == C + Refs(H, ToBranch(n));
    }
  }

  /** The kill in the placing step takes away what the caller holds, and nothing else. */
  lemma {:induction false} PlaceStep(H: Hasher, n: Node, k: Nibbles, v: Bytes, grip: multiset<Hash>, C: multiset<Hash>, U: set<Bytes>)
    requires Plan(H, n, k, v, C, U)
    requires n.Null? || (n.Leaf? && n.key == k) || (n.Branch? && k == [])
    requires grip == Own(H, n) || (grip == multiset{} && n.Branch? && Lonely(n) && Enc(H, n) in U)
    ensures C + grip + Refs(H, n) - Own(H, n) == C + Refs(H, n)
    ensures Refs(H, Merged(n, k, v)) == Refs(H, n)
  {
    if grip != Own(H, n) {
      LonelyIsDead(H, U, n, C + Refs(H, n));
    }
  }
}
