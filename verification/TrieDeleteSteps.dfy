/**
 Bookkeeping facts behind the steps of a removal from the stored trie.
 */
module TrieDeleteSteps {
  import opened Rlp
  import opened HexPrefix
  import opened Trie
  import opened TrieHash
  import opened TrieRefs
  import opened TrieSteps
  import opened TrieDelete
  import opened TrieFault
  import opened NodeStore
  import opened Options
  import RlpView

  /** The encodings that a removal stores below the node it starts at. */
  ghost function DeleteTouched(H: Hasher, n: Node, k: Nibbles): set<Bytes>
    requires Normal(n)
    decreases n, 0
  {
    match n
    case Ext(p, c) => if IsPrefix(p, k) then DeleteTouchedRef(H, c, k[|p|..]) else {}
    case Branch(kids, _) => if k == [] then {} else DeleteTouchedRef(H, kids[k[0]], k[1..])
    case _ => {}
  }

  ghost function DeleteTouchedRef(H: Hasher, c: Node, k: Nibbles): set<Bytes>
    requires Normal(c)
    decreases c, 1
  {
    var d := Plain(c, k);
    (if d.Removed? then {Enc(H, d.node)} else {}) + DeleteTouched(H, c, k)
  }

  // ---- values taken for hashes ----

  /** Whether bytes from the store are a list of two items; none when the reader rejects them. */
  function HasTwoItems(x: Bytes): Option<bool> {
    if x == [] then Some(false)
    else if SizeAsEncoded(x) != Ok(|x|) then None
    else if x[0] < LIST_START then Some(false)
    else if !RlpView.Splits(Payload(x)) then None
    else Some(RlpView.Count(Payload(x)) == 2)
  }

  /** The reader rejects bytes that are no encoding, and lists that do not divide into items. */
  lemma {:induction false} TwoItemsIs(x: Bytes)
    ensures x != [] && !IsEncoding(x) ==> HasTwoItems(x) == None
    ensures forall p: Bytes :: |p| < MAX_LENGTH ==> HasTwoItems(EncodeData(p)) == Some(false)
    ensures forall p: Bytes :: |p| < MAX_LENGTH ==>
      HasTwoItems(EncodeList(p)) == if RlpView.Splits(p) then Some(RlpView.Count(p) == 2) else None
  {
    ViewIs(x);
    hide EncodeData, EncodeList, SizeAsEncoded, RlpView.Splits, RlpView.Count, IsEncoding;
    forall p: Bytes | |p| < MAX_LENGTH
      ensures HasTwoItems(EncodeData(p)) == Some(false)
      ensures HasTwoItems(EncodeList(p)) == if RlpView.Splits(p) then Some(RlpView.Count(p) == 2) else None
    {
      RlpView.ViewOfPayload(p);
    }
  }

  lemma {:induction false} NodeHasTwoItems(H: Hasher, n: Node)
    requires WellFormed(n) && Sized(n)
    ensures HasTwoItems(Enc(H, n)) == Some(TwoItem(n))
  {
    SizedFits(H, n);
    ItemShape(H, n);
    var x := Enc(H, n);
    hide Encode;
    if n == Null {
      assert x == RLP_NULL by { NullEncodes(H); }
    } else {
      ListHasItems(ItemOf(H, n).items);
    }
  }

  lemma NullEncodes(H: Hasher)
    ensures Enc(H, Null) == RLP_NULL
  {
  }

  lemma {:induction false} ListHasItems(items: seq<Item>)
    requires Fits(List(items))
    ensures HasTwoItems(Encode(List(items))) == Some(|items| == 2)
  {
    hide Encode, EncodeAll;
    RlpView.PayloadOfList(items);
    RlpView.ItemAtEncodeAll(items, 0);
  }

  /** Too long for a hash, or, padded, the hash of something found that is a pair or unreadable. */
  predicate Seems(shelf: Shelf, v: Bytes) {
    |v| > 32 || HasTwoItems(shelf.Lookup(Pad(v))) != Some(false)
  }

  /** A value in which the reader finds no node to go on in: too long, or leading to nothing or to unreadable bytes. */
  predicate Unreadable(shelf: Shelf, v: Bytes) {
    |v| > 32 ||
    (var x := shelf.Lookup(Pad(v));
     x == [] || SizeAsEncoded(x) != Ok(|x|))
  }

  lemma {:induction false} UnreadableIs(shelf: Shelf, v: Bytes)
    ensures Unreadable(shelf, v) <==> |v| > 32 || !IsEncoding(shelf.Lookup(Pad(v)))
  {
    if |v| <= 32 { ViewIs(shelf.Lookup(Pad(v))); }
  }

  /** The key passes a stored key that nothing goes on from, and the value there cannot be read as a node. */
  ghost predicate Refuses(shelf: Shelf, n: Node, k: Nibbles)
    requires WellFormed(n)
  {
    exists j :: Dangling(n, k, j) && Unreadable(shelf, At(n, j))
  }

  predicate StopsDead(shelf: Shelf, n: Node, k: Nibbles)
    requires Normal(n)
  {
    Stopped(n, k).Some? && Unreadable(shelf, Stopped(n, k).value)
  }

  lemma {:induction false} RefusesExactly(shelf: Shelf, n: Node, k: Nibbles)
    requires Normal(n)
    ensures StopsDead(shelf, n, k) <==> Refuses(shelf, n, k)
  {
    hide Unreadable, Dangling, Stopped, Normal;
    StoppedExactly(n, k);
  }

  /** The store without one reference to a node. */
  function Released(H: Hasher, shelf: Shelf, n: Node): Shelf {
    if |Enc(H, n)| < 32 then shelf else shelf.Without(H(Enc(H, n)))
  }

  /** Which values a store makes the removal take for hashes. */
  function TakerOf(H: Hasher, shelf: Shelf): Taker {
    (l: Node, v: Bytes) => Seems(Released(H, shelf, l), v)
  }

  lemma TakerTells(H: Hasher, shelf: Shelf, l: Node, v: Bytes)
    ensures TakerOf(H, shelf)(l, v) == Seems(Released(H, shelf, l), v)
  {
  }

  /**
   A value no longer than a hash can lead removal astray as well: a branch holds the hash of some stored
   pair as its value, and the only other key is removed.  The pair takes the branch's place, and under
   the branch's own key nothing is found any more.
   */
  lemma {:induction false} ShortValueCanFault(H: Hasher, shelf: Shelf, a: Bytes, other: Node)
    requires a != [] && TwoItem(other) && other.key != [] && Normal(other) && Sized(other)
    requires Released(H, shelf, Leaf([], a)).Lookup(H(Enc(H, other))) == Enc(H, other)
    ensures var n := Branch(NO_KIDS[1 := Leaf([], a)], H(Enc(H, other)));
      && Normal(n) && Deleted(TakerOf(H, shelf), n, [1]).Fault?
      && At(n, []) != [] && At(Graft([], other), []) == []
  {
    var l, v := Leaf([], a), H(Enc(H, other));
    hide Enc, HasTwoItems, Deleted, Normal, Released, Sized;
    NodeHasTwoItems(H, other);
    assert Pad(v) == v;
    assert TakerOf(H, shelf)(l, v);
    ValueTaken(TakerOf(H, shelf), a, v);
    assert Graft([], other) == other;
  }

  lemma {:induction false} ValueTaken(takes: Taker, a: Bytes, v: Bytes)
    requires a != [] && v != [] && takes(Leaf([], a), v)
    ensures var n := Branch(NO_KIDS[1 := Leaf([], a)], v);
      Normal(n) && Deleted(takes, n, [1]).Fault?
  {
    var l, kids := Leaf([], a), NO_KIDS[1 := Leaf([], a)];
    var n, b := Branch(kids, v), Branch(kids[1 := Null], v);
    assert forall i :: 0 <= i < 16 ==> NO_KIDS[i] == Null;
    hide NO_KIDS;
    assert Used(n, 1) && Used(n, 16);
    assert Only(b, NONE, 16);
    UniqueInUseIs(b, NONE);
    hide UniqueInUse;
    assert [1][1..] == [];
    assert Deleted(takes, l, []) == Removed(Null);
  }

  /** What removal at a node needs of the tree and of the strings in play. */
  ghost predicate DeletePlan(H: Hasher, n: Node, k: Nibbles, U: set<Bytes>) {
    && Normal(n) && Bounded(n)
    && Kept(H, n) <= U && DeleteTouched(H, n, k) <= U
    && CollisionFree(H, U)
  }

  ghost predicate DeletePlanRef(H: Hasher, c: Node, k: Nibbles, U: set<Bytes>) {
    && Normal(c) && Bounded(c)
    && Kept(H, c) <= U && DeleteTouchedRef(H, c, k) <= U
    && CollisionFree(H, U)
  }

  lemma {:induction false} DeleteRefStep(H: Hasher, takes: Taker, c: Node, k: Nibbles, U: set<Bytes>)
    requires DeletePlanRef(H, c, k, U)
    ensures DeletePlan(H, c, k, U) && Legible(H, U, c)
    ensures var d := Deleted(takes, c, k);
      d.Removed? ==> Normal(d.node) && Bounded(d.node) && Legible(H, U, d.node) && Enc(H, d.node) in U
  {
    hide Deleted, DeleteTouched;
    BoundedIsSized(c);
    DeletedPlain(takes, c, k);
    DeletedDeletes(takes, c, k);
    var d := Deleted(takes, c, k);
    if d.Removed? {
      DeletesBounded(c, k, d.node);
      BoundedIsSized(d.node);
    }
  }

  lemma TouchedResult(H: Hasher, n: Node, k: Nibbles)
    requires Normal(n)
    ensures DeleteTouched(H, n, k) <= DeleteTouchedRef(H, n, k)
    ensures Plain(n, k).Removed? ==> Enc(H, Plain(n, k).node) in DeleteTouchedRef(H, n, k)
  {
  }

  /** What the whole tree and the result of a removal bring into play is all that it needs. */
  lemma {:induction false} RemovalPlan(H: Hasher, n: Node, k: Nibbles, U: set<Bytes>)
    requires Normal(n) && Bounded(n) && CollisionFree(H, U)
    requires Below(H, n) + {Enc(H, n)} + DeleteTouchedRef(H, n, k) <= U
    ensures DeletePlan(H, n, k, U)
  {
    TouchedResult(H, n, k);
    hide Below, Enc, DeleteTouched, DeleteTouchedRef;
  }

  lemma {:induction false} DeletesBounded(n: Node, k: Nibbles, m: Node)
    requires WellFormed(n) && Bounded(n) && Deletes(n, k, m)
    ensures Normal(m) && Bounded(m)
  {
    forall j | At(m, j) != []
      ensures |j| <= MAX_KEY && |At(m, j)| <= MAX_VALUE
    {
      assert At(m, j) == At(n, j);
    }
  }

  lemma {:induction false} DeleteExtStep(H: Hasher, takes: Taker, n: Node, k: Nibbles, U: set<Bytes>)
    requires DeletePlan(H, n, k, U) && n.Ext? && IsPrefix(n.key, k)
    ensures DeletePlanRef(H, n.child, k[|n.key|..], U)
    ensures Refs(H, n) == Owned(H, n.child)
    ensures var d := Deleted(takes, n.child, k[|n.key|..]);
      && Deleted(takes, n, k) == (if d.Removed? then Removed(Extend(n.key, d.node)) else d)
      && (d.Removed? ==> d.node != Null && Stopped(n, k).None?)
    ensures Stopped(n, k) == Stopped(n.child, k[|n.key|..])
  {
    StoppedFaults(takes, n.child, k[|n.key|..]);
    ChildBounded(n);
    ChildKept(H, n);
    hide Encode, Enc, Kept, Below, Bounded, CollisionFree;
    DeletedDeletes(takes, n.child, k[|n.key|..]);
  }

  lemma {:induction false} DeleteSlotStep(H: Hasher, takes: Taker, n: Node, k: Nibbles, U: set<Bytes>)
    requires DeletePlan(H, n, k, U) && n.Branch? && k != []
    ensures DeletePlanRef(H, n.kids[k[0]], k[1..], U)
    ensures Refs(H, n) == Others(H, n.kids, k[0]) + Owned(H, n.kids[k[0]])
    ensures var d := Deleted(takes, n.kids[k[0]], k[1..]);
      Deleted(takes, n, k) ==
        if d.Removed? then Rejigged(Branch(n.kids[k[0] := d.node], n.value), takes(n.kids[k[0]], n.value)) else d
  {
    KidBounded(n, k[0]);
    KidKept(H, n, k[0]);
    RefsSplit(H, n.kids, k[0]);
  }

  /** A node that can be read back if it is stored at all. */
  ghost predicate Legible(H: Hasher, U: set<Bytes>, c: Node) {
    Normal(c) && Sized(c) && (|Enc(H, c)| >= 32 ==> Enc(H, c) in U)
  }

  lemma {:induction false} KidLegible(H: Hasher, n: Node, k: Nibbles, U: set<Bytes>, i: nat)
    requires DeletePlan(H, n, k, U) && n.Branch? && i < 16
    ensures Legible(H, U, n.kids[i])
  {
    KidBounded(n, i);
    BoundedIsSized(n.kids[i]);
    KidKept(H, n, i);
  }

  /** The branch left behind when one child was replaced. */
  lemma {:induction false} ReplacedKid(H: Hasher, n: Node, k: Nibbles, m: Node, U: set<Bytes>)
    requires DeletePlan(H, n, k, U) && n.Branch? && k != [] && Legible(H, U, m)
    ensures var b := Branch(n.kids[k[0] := m], n.value);
      && Refs(H, b) == Others(H, n.kids, k[0]) + Owned(H, m)
      && ItemOf(H, b) == List(ItemOf(H, n).items[k[0] := RefOf(H, m)])
      && (forall i :: 0 <= i < 16 ==> Legible(H, U, b.kids[i]))
  {
    RefsUpdate(H, n.kids, k[0], m);
    KidItem(H, n.kids, n.value, k[0], m);
    forall i | 0 <= i < 16
      ensures Legible(H, U, n.kids[i])
    {
      KidLegible(H, n, k, U, i);
    }
  }

  lemma {:induction false} ItemSlotUsed(H: Hasher, b: Node, i: nat)
    requires b.Branch? && WellFormed(b) && i <= 16
    ensures IsEmptyItem(ItemOf(H, b).items[i]) <==> !Used(b, i)
  {
    if i < 16 { RefShape(H, b.kids[i]); }
  }

  lemma ExtendRefs(H: Hasher, p: Nibbles, c: Node)
    ensures Refs(H, Extend(p, c)) == if TwoItem(c) then Refs(H, c) else Owned(H, c)
  {
  }

  lemma {:induction false} ExtendItem(H: Hasher, p: Nibbles, c: Node)
    ensures !TwoItem(c) ==> ItemOf(H, Extend(p, c)) == List([Data(Encoded(p, false)), RefOf(H, c)])
    ensures TwoItem(c) ==> ItemOf(H, Extend(p, c)) == List([Data(Encoded(p + c.key, c.Leaf?)), ItemOf(H, c).items[1]])
  {
    if TwoItem(c) { PairItem(H, c, ItemOf(H, c), p + c.key); }
  }

  /** When one slot is left, all references are those of its child. */
  lemma {:induction false} LoneSlotRefs(H: Hasher, b: Node, u: nat)
    requires b.Branch? && |b.kids| == 16 && Only(b, NONE, u)
    ensures RefsAll(H, b.kids) == if u < 16 then Owned(H, b.kids[u]) else multiset{}
  {
    if u < 16 {
      forall j | 0 <= j < 16 && j != u ensures b.kids[j] == Null { assert !Used(b, j); }
      LoneRefs(H, b.kids, u);
    } else {
      forall j | 0 <= j < 16 ensures b.kids[j] == Null { assert !Used(b, j); }
      NullsHaveNoRefs(H, b.kids);
    }
  }

  /** The collapse of a branch to its lone slot, in references and items. */
  lemma {:induction false} CollapseStep(H: Hasher, b: Node, u: nat, taken: bool)
    requires b.Branch? && WellFormed(b) && u == UniqueInUse(b, NONE)
    ensures u == NONE ==> Rejigged(b, taken) == Removed(b)
    ensures u < 16 ==>
      && b.kids[u] != Null && Refs(H, b) == Owned(H, b.kids[u])
      && Rejigged(b, taken) == Removed(Extend([u], b.kids[u]))
      && ItemOf(H, b).items[u] == RefOf(H, b.kids[u])
    ensures u == 16 ==>
      && b.value != [] && Only(b, NONE, 16) && Refs(H, b) == multiset{} && ItemOf(H, b).items[16] == Data(b.value)
      && Rejigged(b, taken) == if taken then Fault else Removed(Leaf([], b.value))
    ensures u == NONE || u <= 16
  {
    UniqueInUseIs(b, NONE);
    if u != NONE {
      LoneSlotRefs(H, b, u);
      ItemShape(H, b);
    }
  }

  lemma {:induction false} PlanLegible(H: Hasher, n: Node, k: Nibbles, U: set<Bytes>)
    requires DeletePlan(H, n, k, U)
    ensures Legible(H, U, n)
  {
    BoundedIsSized(n);
  }

  /** A branch of which only the value is left has lost the child in every slot. */
  lemma {:induction false} SlotEmptied(n: Node, i: nat, m: Node, taken: bool)
    requires n.Branch? && |n.kids| == 16 && i < 16
    ensures var b := Branch(n.kids[i := m], n.value);
      && (Only(b, NONE, 16) ==> m == Null)
      && Rejigged(b, taken) != Removed(Null) && !Rejigged(b, taken).Absent?
  {
    var b := Branch(n.kids[i := m], n.value);
    assert Used(b, i) <==> m != Null;
  }

  /** Taking the value out of a branch. */
  lemma {:induction false} ValueStep(H: Hasher, takes: Taker, n: Node, U: set<Bytes>)
    requires DeletePlan(H, n, [], U) && n.Branch?
    ensures n.value == [] ==> Deleted(takes, n, []).Fault?
    ensures n.value != [] ==> var u := UniqueInUse(n, 16);
      && (u == NONE ==> Deleted(takes, n, []) == Removed(Branch(n.kids, [])))
      && (u != NONE ==>
            && u < 16 && n.kids[u] != Null && Legible(H, U, n.kids[u])
            && Refs(H, n) == Owned(H, n.kids[u])
            && Deleted(takes, n, []) == Removed(Extend([u], n.kids[u]))
            && ItemOf(H, n).items[u] == RefOf(H, n.kids[u]))
  {
    var b := Branch(n.kids, []);
    ScanWithoutValue(n, b);
    UniqueInUseIs(b, NONE);
    var u := UniqueInUse(n, 16);
    if u != NONE {
      LoneSlotRefs(H, b, u);
      KidLegible(H, n, [], U, u);
      ItemShape(H, n);
    }
  }

  lemma TakeOut(C: multiset<Hash>, O: multiset<Hash>, R: multiset<Hash>, M: multiset<Hash>)
    ensures C + O + R + M - O == C + (R + M)
    ensures C + O + (R + M) == C + O + R + M
  {
  }

  // ---- what is kept after a removal ----

  lemma BelowExtend(H: Hasher, p: Nibbles, c: Node)
    ensures Below(H, Extend(p, c)) <= Kept(H, c)
  {
  }

  lemma {:induction false} BelowRejigged(H: Hasher, b: Node, taken: bool, V: set<Bytes>)
    requires b.Branch? && WellFormed(b) && Rejigged(b, taken).Removed?
    requires forall i :: 0 <= i < 16 ==> Kept(H, b.kids[i]) <= V
    ensures Below(H, Rejigged(b, taken).node) <= V
  {
    var u := UniqueInUse(b, NONE);
    CollapseStep(H, b, u, taken);
    if u < 16 {
      BelowExtend(H, [u], b.kids[u]);
    }
  }

  /** Everything kept below the changed tree was kept before or stored by the removal. */
  lemma {:induction false} BelowDeleted(H: Hasher, n: Node, k: Nibbles)
    requires Normal(n) && Plain(n, k).Removed?
    ensures Below(H, Plain(n, k).node) <= Below(H, n) + DeleteTouched(H, n, k)
    decreases n
  {
    match n
    case Ext(p, c) =>
      BelowDeleted(H, c, k[|p|..]);
      BelowExtend(H, p, Plain(c, k[|p|..]).node);
    case Branch(kids, v) =>
      if k == [] {
        ScanWithoutValue(n, Branch(kids, []));
        var u := UniqueInUse(n, 16);
        if u != NONE {
          BelowExtend(H, [u], kids[u]);
          KidKept(H, n, u);
        }
      } else {
        BelowDeleted(H, kids[k[0]], k[1..]);
        DeletedDeletes(Never, kids[k[0]], k[1..]);
        BelowDeletedSlot(H, n, k);
      }
    case _ =>
  }

  lemma {:induction false} BelowDeletedSlot(H: Hasher, n: Node, k: Nibbles)
    requires Normal(n) && n.Branch? && k != [] && Plain(n, k).Removed?
    requires var d := Plain(n.kids[k[0]], k[1..]);
      d.Removed? && Normal(d.node) && Below(H, d.node) <= Below(H, n.kids[k[0]]) + DeleteTouched(H, n.kids[k[0]], k[1..])
    ensures Below(H, Plain(n, k).node) <= Below(H, n) + DeleteTouched(H, n, k)
  {
    var d := Plain(n.kids[k[0]], k[1..]);
    var b := Branch(n.kids[k[0] := d.node], n.value);
    KidKept(H, n, k[0]);
    forall i | 0 <= i < 16
      ensures Kept(H, b.kids[i]) <= Below(H, n) + DeleteTouched(H, n, k)
    {
      KidKept(H, n, i);
    }
    BelowRejigged(H, b, false, Below(H, n) + DeleteTouched(H, n, k));
  }
}
