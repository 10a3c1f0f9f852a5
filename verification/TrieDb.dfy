/**
 The trie over the node store: lookup, insertion and removal on encoded nodes,
 proved against the tree of values that the root stands for.
 */
module TrieDb {
  import opened Rlp
  import opened HexPrefix
  import opened Trie
  import opened TrieHash
  import opened TrieRefs
  import opened TrieSteps
  import opened TrieDelete
  import opened TrieDeleteSteps
  import opened TrieFault
  import opened TrieCanon
  import opened MapHash
  import opened TrieBinding
  import opened NodeStore
  import opened Options

  /**
   How a removal ends: the key was absent; the item has changed; there was nothing to read where a node
   was looked for, which stops the program; or a read led out of the trie.
   */
  datatype Outcome = Unchanged | Changed(item: Item) | Refused | Astray

  /** How the removal of a key ends for the caller. */
  datatype End = Done | Halted | Lost

  ghost function Failure(shelf: Shelf, n: Node, k: Nibbles): (r: Outcome)
    requires Normal(n)
    ensures r.Refused? || r.Astray?
  {
    if StopsDead(shelf, n, k) then Refused else Astray
  }

  class TrieDb {
    const H: Hasher
    const db: NodeStore
    var root: Hash

    // The tree that the root stands for, and its contents.
    ghost var trie: Node
    ghost var contents: Contents

    constructor (hasher: Hasher, store: NodeStore)
      ensures H == hasher && db == store
    {
      H, db := hasher, store;
      root := ZERO_HASH;
      trie, contents := Null, map[];
    }

    /**
     The tree is in normal form and holds the contents; the root is its hash; every node kept in the
     store can be read back; and each hash is counted as often as the unfolded tree mentions it, the
     root once.
     */
    ghost predicate Valid()
      reads this, db
    {
      && Normal(trie) && Bounded(trie) && Agrees(trie, contents)
      && root == H(Enc(H, trie))
      && db.Sound(H, db.Held()) && db.Tracks(multiset{root} + Refs(H, trie))
      && Readable(trie) && db.Lookup(root) == Enc(H, trie)
    }

    ghost predicate Readable(n: Node)
      reads db
    {
      forall x :: x in Below(H, n) ==> db.Lookup(H(x)) == x
    }

    // The ghost parameters of the steps: `n` is the node that an item encodes, `C` the references
    // held elsewhere, and `U` the byte strings in play.

    /** Reading back a node that the counts know of. */
    method Node(h: Hash, ghost n: Node, ghost C: multiset<Hash>, ghost U: set<Bytes>) returns (item: Item)
      requires CollisionFree(H, U) && db.Sound(H, U) && db.Tracks(C)
      requires WellFormed(n) && Sized(n) && Enc(H, n) in U && h == H(Enc(H, n)) && h in C
      ensures item == ItemOf(H, n)
    {
      db.Finds(H, U, C, Enc(H, n));
      SizedFits(H, n);
      ParseEncode(ItemOf(H, n));
      item := Parse(db.Lookup(h)).value;
    }

    /** Kills a node that is long enough to have been stored. */
    method KillNode(item: Item, ghost C: multiset<Hash>, ghost U: set<Bytes>)
      requires db.Sound(H, U) && db.Tracks(C)
      modifies db`main
      ensures db.Sound(H, U) && db.Tracks(C - OwnItem(H, item))
      ensures db.State() == if |Encode(item)| < 32 then old(db.State()) else old(db.State()).Without(H(Encode(item)))
    {
      if |Encode(item)| >= 32 {
        db.KillTracked(H(Encode(item)), H, U, C);
      }
    }

    /** Stores a node unless it is short, and gives the item by which its parent mentions it. */
    method StreamNode(item: Item, ghost C: multiset<Hash>, ghost U: set<Bytes>) returns (ref: Item)
      requires db.Sound(H, U) && db.Tracks(C) && (|Encode(item)| >= 32 ==> Encode(item) in U)
      modifies db`main
      ensures ref == Reference(H, item) && db.Sound(H, U) && db.Tracks(C + OwnItem(H, item))
      ensures |Encode(item)| < 32 ==> db.State() == old(db.State())
    {
      if |Encode(item)| < 32 {
        ref := item;
      } else {
        var h := db.InsertTracked(H, Encode(item), U, C);
        ref := Data(h);
      }
    }

    /** [K1 K2, V] becomes [K1, [K2, V]], the lower node stored or inlined. */
    method Cleve(orig: Item, s: nat, ghost n: Node, ghost C: multiset<Hash>, ghost U: set<Bytes>) returns (top: Item)
      requires Normal(n) && (n.Leaf? || n.Ext?) && orig == ItemOf(H, n)
      requires 0 < s <= |n.key| && (n.Ext? ==> s < |n.key|)
      requires db.Sound(H, U) && db.Tracks(C + Own(H, n) + Refs(H, n)) && Below(H, Trie.Cleve(n, s)) <= U
      modifies db`main
      ensures top == ItemOf(H, Trie.Cleve(n, s))
      ensures db.Sound(H, U) && db.Tracks(C + Refs(H, Trie.Cleve(n, s)))
    {
      ghost var low := WithKey(n, n.key[s..]);
      ItemShape(H, n);
      PairItem(H, n, orig, n.key[s..]);
      CleveRefs(H, n, s);
      hide Encode, Encoded, OwnItem;
      KillNode(orig, C + Own(H, n) + Refs(H, n), U);
      assert C + Own(H, n) + Refs(H, n) - Own(H, n) == C + Refs(H, n);
      var key := PairKey(orig);
      var bottom := List([Data(Encoded(key[s..], PairIsLeaf(orig))), orig.items[1]]);
      assert bottom == ItemOf(H, low);
      var ref := StreamNode(bottom, C + Refs(H, n), U);
      assert C + Refs(H, n) + Own(H, low) == C + Refs(H, Trie.Cleve(n, s));
      top := List([Data(Encoded(key[..s], false)), ref]);
    }

    /** A two-item node becomes a branch that holds it in one slot. */
    method Branch(orig: Item, ghost n: Node, ghost C: multiset<Hash>, ghost U: set<Bytes>) returns (r: Item)
      requires Normal(n) && (n.Leaf? || n.Ext?) && orig == ItemOf(H, n)
      requires db.Sound(H, U) && db.Tracks(C + Own(H, n) + Refs(H, n)) && Below(H, ToBranch(n)) <= U
      modifies db`main
      ensures r == ItemOf(H, ToBranch(n))
      ensures db.Sound(H, U) && db.Tracks(C + Refs(H, ToBranch(n)))
    {
      ItemShape(H, n);
      ToBranchRefs(H, n);
      hide Encode, Encoded, OwnItem, NodeStore.Sound, NodeStore.Tracks;
      KillNode(orig, C + Own(H, n) + Refs(H, n), U);
      assert C + Own(H, n) + Refs(H, n) - Own(H, n) == C + Refs(H, n);
      var key := PairKey(orig);
      if key == [] {
        NoKidsItem(H, n.value);
        r := List(EMPTY_SLOTS + [orig.items[1]]);
      } else {
        ghost var b := ToBranch(n);
        NoKidsItem(H, []);
        KidItem(H, NO_KIDS, [], key[0], b.kids[key[0]]);
        hide ItemOf, ToBranch, Refs;
        var slot := BranchSlot(orig, n, C, U);
        r := List((EMPTY_SLOTS + [EMPTY])[key[0] := slot]);
      }
    }

    /** What is left of a two-item node below the branch made of it. */
    method BranchSlot(orig: Item, ghost n: Node, ghost C: multiset<Hash>, ghost U: set<Bytes>) returns (slot: Item)
      requires Normal(n) && (n.Leaf? || n.Ext?) && n.key != [] && orig == ItemOf(H, n)
      requires db.Sound(H, U) && db.Tracks(C + Refs(H, n)) && Below(H, ToBranch(n)) <= U
      modifies db`main
      ensures slot == RefOf(H, ToBranch(n).kids[n.key[0]])
      ensures db.Sound(H, U) && db.Tracks(C + Refs(H, ToBranch(n)))
    {
      ghost var b := ToBranch(n);
      ItemShape(H, n);
      ToBranchRefs(H, n);
      hide Encode, Encoded, OwnItem, NodeStore.Sound, NodeStore.Tracks;
      var key := PairKey(orig);
      if PairIsLeaf(orig) || |key| > 1 {
        ghost var low := WithKey(n, n.key[1..]);
        PairItem(H, n, orig, n.key[1..]);
        KidKept(H, b, key[0]);
        slot := StreamNode(List([Data(Encoded(key[1..], PairIsLeaf(orig))), orig.items[1]]), C + Refs(H, n), U);
        assert C + Refs(H, n) + Own(H, low) == C + Refs(H, b);
      } else {
        slot := orig.items[1];
      }
    }

    /** What the caller holds of a node: nothing when the node was never stored. */
    ghost function Grip(n: Node, inLine: bool): multiset<Hash> {
      if inLine then multiset{} else Own(H, n)
    }

    /** A node handed on as inline is short, or was just reshaped and never stored. */
    ghost predicate InLineRight(n: Node, k: Nibbles, inLine: bool, U: set<Bytes>) {
      inLine && |Enc(H, n)| >= 32 ==>
        && Enc(H, n) in U && Matches(n, k) && (n.Ext? || n.Branch?)
        && (n.Branch? && k == [] ==> Lonely(n))
    }

    lemma GripIsOwn(n: Node, k: Nibbles, inLine: bool, U: set<Bytes>)
      requires InLineRight(n, k, inLine, U) && !Matches(n, k)
      ensures Grip(n, inLine) == Own(H, n)
    {
    }

    /** Puts the value into an empty place, over a leaf's, or into a branch. */
    method Place(orig: Item, k: Nibbles, v: Bytes, inLine: bool, ghost n: Node, ghost C: multiset<Hash>, ghost U: set<Bytes>)
      returns (r: Item)
      requires Plan(H, n, k, v, C, U) && InLineRight(n, k, inLine, U) && orig == ItemOf(H, n)
      requires db.Sound(H, U) && db.Tracks(C + Grip(n, inLine) + Refs(H, n))
      requires n.Null? || (n.Leaf? && n.key == k) || (n.Branch? && k == [])
      modifies db`main
      ensures r == ItemOf(H, Merged(n, k, v))
      ensures db.Sound(H, U) && db.Tracks(C + Refs(H, Merged(n, k, v)))
    {
      ItemShape(H, n);
      PlaceStep(H, n, k, v, Grip(n, inLine), C, U);
      KillNode(orig, C + Grip(n, inLine) + Refs(H, n), U);
      if IsEmptyItem(orig) {
        r := List([Data(Encoded(k, true)), Data(v)]);
      } else if |orig.items| == 2 {
        r := List([orig.items[0], Data(v)]);
      } else {
        ValueItem(H, n.kids, n.value, v);
        r := List(orig.items[..16] + [Data(v)]);
      }
    }

    /** Insertion below a reference: the node is fetched if stored, changed, and stored or inlined again. */
    method MergeAtAux(orig: Item, k: Nibbles, v: Bytes, ghost c: Node, ghost C: multiset<Hash>, ghost U: set<Bytes>)
      returns (ref: Item)
      requires PlanRef(H, c, k, v, C, U) && orig == RefOf(H, c)
      requires db.Sound(H, U) && db.Tracks(C + Owned(H, c))
      modifies db`main
      ensures ref == RefOf(H, Merged(c, k, v))
      ensures db.Sound(H, U) && db.Tracks(C + Owned(H, Merged(c, k, v)))
      decreases |k|, 2, 0
    {
      RefShape(H, c);
      RefStep(H, c, k, v, C, U);
      assert Enc(H, Merged(c, k, v)) in U;
      assert |Enc(H, c)| >= 32 ==> Enc(H, c) in U;
      hide Plan, Refs, Merged, ItemOf, Encode;
      var r, isRemovable := orig, false;
      if !r.List? && !IsEmptyItem(r) {
        r := Node(r.data, c, C + Owned(H, c), U);
        isRemovable := true;
      }
      assert C + Grip(c, !isRemovable) + Refs(H, c) == C + Owned(H, c);
      var b := MergeAt(r, k, v, !isRemovable, c, C, U);
      ref := StreamNode(b, C + Refs(H, Merged(c, k, v)), U);
    }

    /** Insertion at a node: the item of the changed tree, with the counts of its references. */
    method MergeAt(orig: Item, k: Nibbles, v: Bytes, inLine: bool, ghost n: Node, ghost C: multiset<Hash>, ghost U: set<Bytes>)
      returns (r: Item)
      requires Plan(H, n, k, v, C, U) && InLineRight(n, k, inLine, U) && orig == ItemOf(H, n)
      requires db.Sound(H, U) && db.Tracks(C + Grip(n, inLine) + Refs(H, n))
      modifies db`main
      ensures r == ItemOf(H, Merged(n, k, v))
      ensures db.Sound(H, U) && db.Tracks(C + Refs(H, Merged(n, k, v)))
      decreases |k|, if Matches(n, k) then 0 else 1, 1
    {
      ItemShape(H, n);
      hide Merged, Refs, ItemOf, NormalRefs, Below, Touched, Own;
      if IsEmptyItem(orig) {
        r := Place(orig, k, v, inLine, n, C, U);
      } else if |orig.items| == 2 {
        var key := PairKey(orig);
        if key == k && PairIsLeaf(orig) {
          r := Place(orig, k, v, inLine, n, C, U);
        } else if IsPrefix(key, k) && !PairIsLeaf(orig) {
          r := MergeBelowExt(orig, k, v, inLine, n, C, U);
        } else {
          r := MergeReshaped(orig, k, v, inLine, n, C, U);
        }
      } else if k == [] {
        r := Place(orig, k, v, inLine, n, C, U);
      } else {
        r := MergeIntoSlot(orig, k, v, inLine, n, C, U);
      }
    }

    /** The extension's key is a prefix of ours: move down. */
    method MergeBelowExt(orig: Item, k: Nibbles, v: Bytes, inLine: bool, ghost n: Node, ghost C: multiset<Hash>, ghost U: set<Bytes>)
      returns (r: Item)
      requires Plan(H, n, k, v, C, U) && orig == ItemOf(H, n) && n.Ext? && IsPrefix(n.key, k)
      requires db.Sound(H, U) && db.Tracks(C + Grip(n, inLine) + Refs(H, n))
      modifies db`main
      ensures r == ItemOf(H, Merged(n, k, v))
      ensures db.Sound(H, U) && db.Tracks(C + Refs(H, Merged(n, k, v)))
      decreases |k|, 0, 0
    {
      ItemShape(H, n);
      ExtStep(H, n, k, v, C, U);
      hide Plan, PlanRef, Encode, Merged, Own;
      if !inLine {
        KillNode(orig, C + Own(H, n) + Refs(H, n), U);
      }
      assert C + Grip(n, inLine) + Refs(H, n) - Grip(n, inLine) == C + Refs(H, n);
      var ref := MergeAtAux(orig.items[1], k[|PairKey(orig)|..], v, n.child, C, U);
      r := List([orig.items[0], ref]);
    }

    /** Not exactly a branch's own place: delve into the slot of the next nibble. */
    method MergeIntoSlot(orig: Item, k: Nibbles, v: Bytes, inLine: bool, ghost n: Node, ghost C: multiset<Hash>, ghost U: set<Bytes>)
      returns (r: Item)
      requires Plan(H, n, k, v, C, U) && orig == ItemOf(H, n) && n.Branch? && k != []
      requires db.Sound(H, U) && db.Tracks(C + Grip(n, inLine) + Refs(H, n))
      modifies db`main
      ensures r == ItemOf(H, Merged(n, k, v))
      ensures db.Sound(H, U) && db.Tracks(C + Refs(H, Merged(n, k, v)))
      decreases |k|, 0, 0
    {
      ItemShape(H, n);
      SlotStep(H, n, k, v, C, U);
      hide Plan, PlanRef, Encode, Merged, Own, Refs, Others, Owned, RefOf, ItemOf;
      if !inLine {
        KillNode(orig, C + Own(H, n) + Refs(H, n), U);
      }
      assert C + Grip(n, inLine) + Refs(H, n) - Grip(n, inLine) == C + Refs(H, n);
      var ref := MergeAtAux(orig.items[k[0]], k[1..], v, n.kids[k[0]], C + Others(H, n.kids, k[0]), U);
      r := List(orig.items[k[0] := ref]);
    }

    /** A two-item node in the way: cleave at the disagreement, or branch, and start again. */
    method MergeReshaped(orig: Item, k: Nibbles, v: Bytes, inLine: bool, ghost n: Node, ghost C: multiset<Hash>, ghost U: set<Bytes>)
      returns (r: Item)
      requires Plan(H, n, k, v, C, U) && InLineRight(n, k, inLine, U) && orig == ItemOf(H, n) && !Matches(n, k)
      requires db.Sound(H, U) && db.Tracks(C + Grip(n, inLine) + Refs(H, n))
      modifies db`main
      ensures r == ItemOf(H, Merged(n, k, v))
      ensures db.Sound(H, U) && db.Tracks(C + Refs(H, Merged(n, k, v)))
      decreases |k|, 1, 0
    {
      hide Plan, Encode, Merged, Own, Refs, ItemOf, Below, Normal, Trie.Cleve, ToBranch, Reshaped, Shared, Lonely, RefOf;
      ReshapeFacts(H, n, k, v, C, U);
      ReshapeStep(H, n, k, v, C, U);
      GripIsOwn(n, k, inLine, U);
      var key := PairKey(orig);
      var sh := Shared(k, key);
      var reshaped: Item;
      if sh > 0 {
        reshaped := Cleve(orig, sh, n, C, U);
      } else {
        reshaped := Branch(orig, n, C, U);
      }
      r := MergeAt(reshaped, k, v, true, Reshaped(n, k), C, U);
    }

    // ---- removal ----

    /** Which values the store makes a removal take for hashes. */
    ghost function Takes(): Taker
      reads db
    {
      TakerOf(H, db.State())
    }

    /** Whether a mention of a node, or a value taken for one, leads to a two-item node; none where the reader rejects it. */
    method IsTwoItemNode(item: Item) returns (r: Option<bool>)
      ensures item.List? ==> r == Some(|item.items| == 2)
      ensures item.Data? ==> (r == Some(false) <==> !Seems(db.State(), item.data))
      ensures item.Data? && |item.data| <= 32 ==> r == HasTwoItems(db.Lookup(Pad(item.data)))
    {
      if item.List? { return Some(|item.items| == 2); }
      if |item.data| > 32 { return None; }
      return HasTwoItems(db.Lookup(Pad(item.data)));
    }

    /** A mention of a stored or inlined node tells whether the node has two items. */
    method IsTwoItemRef(ref: Item, ghost c: Node, ghost C: multiset<Hash>, ghost U: set<Bytes>) returns (r: bool)
      requires c != Null && Legible(H, U, c) && ref == RefOf(H, c)
      requires CollisionFree(H, U) && db.Sound(H, U) && db.Tracks(C) && Own(H, c) <= C
      ensures r == TwoItem(c)
    {
      RefShape(H, c);
      ItemShape(H, c);
      if ref.Data? {
        assert Pad(ref.data) == ref.data;
        assert H(Enc(H, c)) in Own(H, c);
        db.Finds(H, U, C, Enc(H, c));
        NodeHasTwoItems(H, c);
      }
      var two := IsTwoItemNode(ref);
      r := two.value;
    }

    /** [K1, [K2, V]] becomes [K1 K2, V]; the lower node is taken out of the store. */
    method Graft(orig: Item, ghost p: Nibbles, ghost c: Node, ghost C: multiset<Hash>, ghost U: set<Bytes>) returns (r: Item)
      requires TwoItem(c) && Legible(H, U, c) && orig == List([Data(Encoded(p, false)), RefOf(H, c)])
      requires CollisionFree(H, U) && db.Sound(H, U) && db.Tracks(C + Owned(H, c))
      modifies db`main
      ensures r == ItemOf(H, Extend(p, c))
      ensures db.Sound(H, U) && db.Tracks(C + Refs(H, Extend(p, c)))
    {
      RefShape(H, c);
      ItemShape(H, c);
      EncodedInverts(p, false);
      ExtendItem(H, p, c);
      ExtendRefs(H, p, c);
      var n: Item;
      hide Encode, Refs, ItemOf, Encoded;
      if orig.items[1].List? {
        n := orig.items[1];
        assert C + Owned(H, c) == C + Refs(H, c);
      } else {
        var lh := orig.items[1].data;
        n := Node(lh, c, C + Owned(H, c), U);
        db.KillTracked(lh, H, U, C + Owned(H, c));
        assert C + Owned(H, c) - Own(H, c) == C + Refs(H, c);
      }
      r := List([Data(Encoded(PairKey(orig) + PairKey(n), PairIsLeaf(n))), n.items[1]]);
    }

    /** The scan for the only non-empty slot. */
    method UniqueSlot(item: Item, except: nat, ghost b: Node) returns (used: nat)
      requires b.Branch? && WellFormed(b) && item == ItemOf(H, b)
      ensures used == UniqueInUse(b, except)
    {
      hide ItemOf, RefOf;
      used := NONE;
      ItemShape(H, b);
      hide WellFormed, IsEmptyItem, Used;
      for i := 0 to 17
        invariant used == NONE || used < i
        invariant UniqueFrom(b, except, i, used) == UniqueInUse(b, except)
      {
        ItemSlotUsed(H, b, i);
        if i != except && !IsEmptyItem(item.items[i]) {
          if used == NONE {
            used := i;
          } else {
            return NONE;
          }
        }
      }
    }

    /** Only the child in slot `u` is left: it takes the branch's place, one nibble longer. */
    method MergeSlot(ref: Item, u: Nibble, ghost c: Node, ghost C: multiset<Hash>, ghost U: set<Bytes>) returns (r: Item)
      requires c != Null && Legible(H, U, c) && ref == RefOf(H, c)
      requires CollisionFree(H, U) && db.Sound(H, U) && db.Tracks(C + Owned(H, c))
      modifies db`main
      ensures r == ItemOf(H, Extend([u], c))
      ensures db.Sound(H, U) && db.Tracks(C + Refs(H, Extend([u], c)))
    {
      ExtendItem(H, [u], c);
      ExtendRefs(H, [u], c);
      hide Refs, ItemOf, Own, Encoded;
      var two := IsTwoItemRef(ref, c, C + Owned(H, c), U);
      var merged := List([Data(Encoded([u], false)), ref]);
      if two {
        r := Graft(merged, [u], c, C, U);
      } else {
        r := merged;
      }
    }

    /** A branch after a change: kept while it forks, collapsed when one slot is left; none where it goes astray. */
    method Rejig(item: Item, ghost b: Node, ghost taken: bool, ghost C: multiset<Hash>, ghost U: set<Bytes>)
      returns (r: Option<Item>)
      requires b.Branch? && |b.kids| == 16 && item == ItemOf(H, b)
      requires Only(b, NONE, 16) ==> taken == Seems(db.State(), b.value)
      requires forall i :: 0 <= i < 16 ==> Legible(H, U, b.kids[i])
      requires CollisionFree(H, U) && db.Sound(H, U) && db.Tracks(C + Refs(H, b))
      modifies db`main
      ensures Rejigged(b, taken).Fault? ==> r == None
      ensures Rejigged(b, taken).Removed? ==>
        var after := Rejigged(b, taken).node;
        r == Some(ItemOf(H, after)) && db.Sound(H, U) && db.Tracks(C + Refs(H, after))
    {
      assert WellFormed(b);
      CollapseStep(H, b, UniqueInUse(b, NONE), taken);
      ItemShape(H, b);
      hide Rejigged, Refs, ItemOf, UniqueInUse, Owned, RefOf, Only;
      var used := UniqueSlot(item, NONE, b);
      if used == NONE {
        r := Some(item);
      } else if used < 16 {
        var merged := MergeSlot(item.items[used], used, b.kids[used], C, U);
        r := Some(merged);
      } else {
        r := MergeValue(item, b.value, C);
      }
    }

    /** Only the branch's own value is left: a leaf with an empty key, unless the value is taken for a hash. */
    method MergeValue(item: Item, ghost v: Bytes, ghost C: multiset<Hash>) returns (r: Option<Item>)
      requires IsSlots(item) && item.items[16] == Data(v) && db.Tracks(C + multiset{})
      ensures Seems(db.State(), v) ==> r == None
      ensures !Seems(db.State(), v) ==> r == Some(ItemOf(H, Leaf([], v))) && db.Tracks(C + Refs(H, Leaf([], v)))
    {
      var two := IsTwoItemNode(item.items[16]);
      if two == Some(false) {
        return Some(List([Data(Encoded([], true)), item.items[16]]));
      }
      return None;
    }

    /** Removal below a reference; nothing is touched when the key is absent. */
    method DeleteAtAux(orig: Item, k: Nibbles, ghost c: Node, ghost C: multiset<Hash>, ghost U: set<Bytes>)
      returns (ref: Outcome)
      requires DeletePlanRef(H, c, k, U) && orig == RefOf(H, c)
      requires db.Sound(H, U) && db.Tracks(C + Owned(H, c))
      modifies db`main
      ensures Deleted(old(Takes()), c, k).Fault? ==> ref == Failure(old(db.State()), c, k)
      ensures Stopped(c, k).Some? ==> db.main == old(db.main)
      ensures Deleted(old(Takes()), c, k).Absent? ==> ref == Unchanged && db.main == old(db.main)
      ensures Deleted(old(Takes()), c, k).Removed? ==>
        var m := Deleted(old(Takes()), c, k).node;
        && ref == Changed(RefOf(H, m))
        && db.Sound(H, U) && db.Tracks(C + Owned(H, m))
        && (m == Null ==> db.State() == Released(H, old(db.State()), c))
      decreases c, 2
    {
      hide *;
      AuxFacts(orig, k, c, U);
      if IsEmptyItem(orig) {
        return Unchanged;
      }
      var there := orig;
      if !orig.List? {
        there := Node(orig.data, c, C + Owned(H, c), U);
      }
      assert C + Own(H, c) + Refs(H, c) == C + Owned(H, c);
      ghost var d := Deleted(Takes(), c, k);
      var b := DeleteAt(there, k, c, C, U);
      if !b.Changed? {
        return b;
      }
      ResultFacts(d.node, U);
      var stored := StreamNode(b.item, C + Refs(H, d.node), U);
      assert C + Refs(H, d.node) + Own(H, d.node) == C + Owned(H, d.node);
      return Changed(stored);
    }

    lemma {:induction false} AuxFacts(orig: Item, k: Nibbles, c: Node, U: set<Bytes>)
      requires DeletePlanRef(H, c, k, U) && orig == RefOf(H, c)
      ensures Normal(c) && Sized(c) && DeletePlan(H, c, k, U) && CollisionFree(H, U)
      ensures Owned(H, c) == Own(H, c) + Refs(H, c)
      ensures if IsEmptyItem(orig) then Deleted(Takes(), c, k).Absent? && Stopped(c, k).None?
        else if orig.List? then orig == ItemOf(H, c)
        else orig == Data(H(Enc(H, c))) && H(Enc(H, c)) in Own(H, c) && Enc(H, c) in U
      ensures var d := Deleted(Takes(), c, k);
        d.Removed? ==> Normal(d.node) && Enc(H, d.node) in U && Stopped(c, k).None?
    {
      RefShape(H, c);
      StoppedFaults(Takes(), c, k);
      DeleteRefStep(H, Takes(), c, k, U);
    }

    lemma {:induction false} ResultFacts(m: Node, U: set<Bytes>)
      requires Enc(H, m) in U
      ensures Encode(ItemOf(H, m)) in U && RefOf(H, m) == Reference(H, ItemOf(H, m))
      ensures OwnItem(H, ItemOf(H, m)) == Own(H, m) && Owned(H, m) == Own(H, m) + Refs(H, m)
      ensures m == Null ==> |Encode(ItemOf(H, m))| < 32
    {
      NullEncodes(H);
    }

    /** Removal at a node: the item of the tree without the key, or nothing when the key is absent. */
    method DeleteAt(orig: Item, k: Nibbles, ghost n: Node, ghost C: multiset<Hash>, ghost U: set<Bytes>)
      returns (r: Outcome)
      requires DeletePlan(H, n, k, U) && orig == ItemOf(H, n)
      requires db.Sound(H, U) && db.Tracks(C + Own(H, n) + Refs(H, n))
      modifies db`main
      ensures Deleted(old(Takes()), n, k).Fault? ==> r == Failure(old(db.State()), n, k)
      ensures Stopped(n, k).Some? ==> db.main == old(db.main)
      ensures Deleted(old(Takes()), n, k).Absent? ==> r == Unchanged && db.main == old(db.main)
      ensures Deleted(old(Takes()), n, k).Removed? ==>
        var m := Deleted(old(Takes()), n, k).node;
        && r == Changed(ItemOf(H, m))
        && db.Sound(H, U) && db.Tracks(C + Refs(H, m))
        && (m == Null ==> db.State() == Released(H, old(db.State()), n))
      decreases n, 1
    {
      ItemShape(H, n);
      if IsEmptyItem(orig) {
        return Unchanged;
      } else if |orig.items| == 2 {
        var key := PairKey(orig);
        if PairIsLeaf(orig) {
          r := DeleteLeaf(orig, k, n, C, U);
        } else if IsPrefix(key, k) {
          hide Deleted, Stopped, DeletePlan, Failure, Released;
          r := DeleteBelowExt(orig, k, n, C, U);
        } else {
          return Unchanged;
        }
      } else if k == [] {
        r := DeleteValue(orig, n, C, U);
      } else {
        hide Deleted, Stopped, DeletePlan, Failure, Released;
        r := DeleteInSlot(orig, k, n, C, U);
      }
    }

    /** Exactly our leaf is removed.  With a key that goes on, its value is taken for the mention of a node. */
    method DeleteLeaf(orig: Item, k: Nibbles, ghost n: Node, ghost C: multiset<Hash>, ghost U: set<Bytes>)
      returns (r: Outcome)
      requires Normal(n) && n.Leaf? && orig == ItemOf(H, n)
      requires db.Sound(H, U) && db.Tracks(C + Own(H, n) + Refs(H, n))
      modifies db`main
      ensures Deleted(old(Takes()), n, k).Fault? ==> r == Failure(old(db.State()), n, k)
      ensures Stopped(n, k).Some? ==> db.main == old(db.main)
      ensures Deleted(old(Takes()), n, k).Absent? ==> r == Unchanged && db.main == old(db.main)
      ensures Deleted(old(Takes()), n, k).Removed? ==>
        && Deleted(old(Takes()), n, k).node == Null && r == Changed(ItemOf(H, Null))
        && db.Sound(H, U) && db.Tracks(C + Refs(H, Null)) && db.State() == Released(H, old(db.State()), n)
    {
      ItemShape(H, n);
      hide Encode, Unreadable, NodeStore.Sound, NodeStore.Tracks, TakerOf;
      var key := PairKey(orig);
      if key == k {
        KillNode(orig, C + Own(H, n) + Refs(H, n), U);
        assert C + Own(H, n) + Refs(H, n) - Own(H, n) == C + multiset{};
        return Changed(EMPTY);
      } else if IsPrefix(key, k) {
        return if Unreadable(db.State(), orig.items[1].data) then Refused else Astray;
      }
      return Unchanged;
    }

    method DeleteBelowExt(orig: Item, k: Nibbles, ghost n: Node, ghost C: multiset<Hash>, ghost U: set<Bytes>)
      returns (r: Outcome)
      requires DeletePlan(H, n, k, U) && orig == ItemOf(H, n) && n.Ext? && IsPrefix(n.key, k)
      requires db.Sound(H, U) && db.Tracks(C + Own(H, n) + Refs(H, n))
      modifies db`main
      ensures Deleted(old(Takes()), n, k).Fault? ==> r == Failure(old(db.State()), n, k)
      ensures Stopped(n, k).Some? ==> db.main == old(db.main)
      ensures Deleted(old(Takes()), n, k).Absent? ==> r == Unchanged && db.main == old(db.main)
      ensures Deleted(old(Takes()), n, k).Removed? ==>
        var m := Deleted(old(Takes()), n, k).node;
        m != Null && r == Changed(ItemOf(H, m)) && db.Sound(H, U) && db.Tracks(C + Refs(H, m))
      decreases n, 0
    {
      hide *;
      ExtFacts(orig, k, n, U);
      var key := PairKey(orig);
      ghost var d := Deleted(Takes(), n.child, k[|key|..]);
      var ref := DeleteAtAux(orig.items[1], k[|key|..], n.child, C + Own(H, n), U);
      if !ref.Changed? { return ref; }
      ghost var m := d.node;
      ExtendFacts(n.key, m);
      KillNode(orig, C + Own(H, n) + Owned(H, m), U);
      assert C + Own(H, n) + Owned(H, m) - Own(H, n) == C + Owned(H, m);
      var two := IsTwoItemRef(ref.item, m, C + Owned(H, m), U);
      var e := List([orig.items[0], ref.item]);
      if two {
        var grafted := Graft(e, n.key, m, C, U);
        return Changed(grafted);
      }
      return Changed(e);
    }

    lemma {:induction false} ExtFacts(orig: Item, k: Nibbles, n: Node, U: set<Bytes>)
      requires DeletePlan(H, n, k, U) && orig == ItemOf(H, n) && n.Ext? && IsPrefix(n.key, k)
      ensures IsPair(orig) && orig.List? && |orig.items| == 2 && PairKey(orig) == n.key && |n.key| <= |k|
      ensures orig.items[0] == Data(Encoded(n.key, false)) && orig.items[1] == RefOf(H, n.child)
      ensures OwnItem(H, orig) == Own(H, n) && Refs(H, n) == Owned(H, n.child)
      ensures Normal(n) && Normal(n.child) && CollisionFree(H, U) && DeletePlanRef(H, n.child, k[|n.key|..], U)
      ensures Stopped(n, k) == Stopped(n.child, k[|n.key|..])
      ensures Failure(db.State(), n, k) == Failure(db.State(), n.child, k[|n.key|..])
      ensures var d := Deleted(Takes(), n.child, k[|n.key|..]);
        && Deleted(Takes(), n, k) == (if d.Removed? then Removed(Extend(n.key, d.node)) else d)
        && (d.Removed? ==> d.node != Null && Legible(H, U, d.node) && Stopped(n, k).None?)
    {
      ItemShape(H, n);
      DeleteExtStep(H, Takes(), n, k, U);
      hide DeletePlanRef, Deleted, Legible;
      DeleteRefStep(H, Takes(), n.child, k[|n.key|..], U);
    }

    lemma {:induction false} ExtendFacts(p: Nibbles, m: Node)
      requires m != Null
      ensures Extend(p, m) != Null && Own(H, m) <= Owned(H, m)
      ensures !TwoItem(m) ==> ItemOf(H, Extend(p, m)) == List([Data(Encoded(p, false)), RefOf(H, m)])
      ensures !TwoItem(m) ==> Refs(H, Extend(p, m)) == Owned(H, m)
    {
      ExtendItem(H, p, m);
      ExtendRefs(H, p, m);
    }

    method DeleteValue(orig: Item, ghost n: Node, ghost C: multiset<Hash>, ghost U: set<Bytes>) returns (r: Outcome)
      requires DeletePlan(H, n, [], U) && orig == ItemOf(H, n) && n.Branch?
      requires db.Sound(H, U) && db.Tracks(C + Own(H, n) + Refs(H, n))
      modifies db`main
      ensures Deleted(old(Takes()), n, []).Fault? ==> r == Astray
      ensures Deleted(old(Takes()), n, []).Removed? ==>
        var m := Deleted(old(Takes()), n, []).node;
        m != Null && r == Changed(ItemOf(H, m)) && db.Sound(H, U) && db.Tracks(C + Refs(H, m))
      ensures !Deleted(old(Takes()), n, []).Absent?
    {
      ItemShape(H, n);
      ValueStep(H, Takes(), n, U);
      ValueItem(H, n.kids, n.value, []);
      // The key is at its end, but its next nibble would now be read.
      if IsEmptyItem(orig.items[16]) { return Astray; }
      KillNode(orig, C + Own(H, n) + Refs(H, n), U);
      assert C + Own(H, n) + Refs(H, n) - Own(H, n) == C + Refs(H, n);
      hide Deleted, ItemOf, RefOf, UniqueInUse, Owned;
      var used := UniqueSlot(orig, 16, n);
      if used != NONE {
        var merged := MergeSlot(orig.items[used], used, n.kids[used], C, U);
        return Changed(merged);
      }
      return Changed(List(orig.items[..16] + [EMPTY]));
    }

    method DeleteInSlot(orig: Item, k: Nibbles, ghost n: Node, ghost C: multiset<Hash>, ghost U: set<Bytes>)
      returns (r: Outcome)
      requires DeletePlan(H, n, k, U) && orig == ItemOf(H, n) && n.Branch? && k != []
      requires db.Sound(H, U) && db.Tracks(C + Own(H, n) + Refs(H, n))
      modifies db`main
      ensures Deleted(old(Takes()), n, k).Fault? ==> r == Failure(old(db.State()), n, k)
      ensures Stopped(n, k).Some? ==> db.main == old(db.main)
      ensures Deleted(old(Takes()), n, k).Absent? ==> r == Unchanged && db.main == old(db.main)
      ensures Deleted(old(Takes()), n, k).Removed? ==>
        var m := Deleted(old(Takes()), n, k).node;
        m != Null && r == Changed(ItemOf(H, m)) && db.Sound(H, U) && db.Tracks(C + Refs(H, m))
      decreases n, 0
    {
      hide *;
      SlotFacts(orig, k, n, U);
      ghost var kid, rest := n.kids[k[0]], Others(H, n.kids, k[0]);
      ghost var d, taken := Deleted(Takes(), kid, k[1..]), Takes()(kid, n.value);
      TakeOut(C, Own(H, n), rest, Owned(H, kid));
      var ref := DeleteAtAux(orig.items[k[0]], k[1..], kid, C + Own(H, n) + rest, U);
      if !ref.Changed? { return ref; }
      var rejigged := FinishSlot(orig, ref.item, k, n, d.node, taken, C, U);
      return if rejigged.Some? then Changed(rejigged.value) else Astray;
    }

    lemma {:induction false} SlotFacts(orig: Item, k: Nibbles, n: Node, U: set<Bytes>)
      requires DeletePlan(H, n, k, U) && orig == ItemOf(H, n) && n.Branch? && k != []
      ensures Normal(n) && |n.kids| == 16 && Normal(n.kids[k[0]]) && DeletePlanRef(H, n.kids[k[0]], k[1..], U)
      ensures orig.List? && |orig.items| == 17 && orig.items[k[0]] == RefOf(H, n.kids[k[0]])
      ensures Refs(H, n) == Others(H, n.kids, k[0]) + Owned(H, n.kids[k[0]])
      ensures var kid := n.kids[k[0]];
        var d := Deleted(Takes(), kid, k[1..]);
        && Takes()(kid, n.value) == Seems(Released(H, db.State(), kid), n.value)
        && (d.Removed? ==> Legible(H, U, d.node) && Stopped(kid, k[1..]).None?)
        && Stopped(n, k) == Stopped(kid, k[1..])
        && Failure(db.State(), n, k) == Failure(db.State(), kid, k[1..])
        && (Stopped(n, k).None? ==> Failure(db.State(), n, k) == Astray)
        && Deleted(Takes(), n, k) ==
           if d.Removed? then Rejigged(Trie.Branch(n.kids[k[0] := d.node], n.value), Takes()(kid, n.value)) else d
    {
      ItemShape(H, n);
      StoppedFaults(Takes(), n.kids[k[0]], k[1..]);
      hide Deleted, Rejigged, ItemOf, Legible, Seems, Released, Others, Owned, DeletePlanRef, Unreadable;
      DeleteSlotStep(H, Takes(), n, k, U);
      DeleteRefStep(H, Takes(), n.kids[k[0]], k[1..], U);
      TakerTells(H, db.State(), n.kids[k[0]], n.value);
    }

    /** What a value leads to does not change when a branch is killed. */
    lemma {:induction false} StillSeems(n: Node, v: Bytes, U: set<Bytes>)
      requires n.Branch? && Legible(H, U, n) && CollisionFree(H, U) && db.Sound(H, U)
      ensures Seems(Released(H, db.State(), n), v) == Seems(db.State(), v)
    {
      hide Enc, HasTwoItems, Normal, Sized;
      if |v| <= 32 && |Enc(H, n)| >= 32 && Pad(v) == H(Enc(H, n)) {
        NodeHasTwoItems(H, n);
        NothingHasNoItems();
        var now, later := db.Lookup(Pad(v)), Released(H, db.State(), n).Lookup(Pad(v));
        assert now == [] || now == Enc(H, n);
        assert later == [] || later == Enc(H, n);
      }
    }

    lemma NothingHasNoItems()
      ensures HasTwoItems([]) == Some(false)
    {
    }

    /** The slot has its new mention: kill the old branch and tidy the new one. */
    method FinishSlot(orig: Item, ref: Item, k: Nibbles, ghost n: Node, ghost m: Node, ghost taken: bool,
                      ghost C: multiset<Hash>, ghost U: set<Bytes>)
      returns (r: Option<Item>)
      requires DeletePlan(H, n, k, U) && orig == ItemOf(H, n) && n.Branch? && k != []
      requires Legible(H, U, m) && ref == RefOf(H, m)
      requires m == Null ==> taken == Seems(db.State(), n.value)
      requires db.Sound(H, U) && db.Tracks(C + Own(H, n) + Others(H, n.kids, k[0]) + Owned(H, m))
      modifies db`main
      ensures var d := Rejigged(Trie.Branch(n.kids[k[0] := m], n.value), taken);
        && !d.Absent? && (d.Fault? ==> r == None)
        && (d.Removed? ==> d.node != Null && r == Some(ItemOf(H, d.node)) && db.Sound(H, U) && db.Tracks(C + Refs(H, d.node)))
    {
      ItemShape(H, n);
      ghost var b := Trie.Branch(n.kids[k[0] := m], n.value);
      assert CollisionFree(H, U);
      hide Refs, ItemOf, Own, Encode, Others, Owned, RefOf, DeletePlan, Rejigged, Normal, Legible;
      ReplacedKid(H, n, k, m, U);
      TakeOut(C, Own(H, n), Others(H, n.kids, k[0]), Owned(H, m));
      SlotEmptied(n, k[0], m, taken);
      PlanLegible(H, n, k, U);
      StillSeems(n, n.value, U);
      KillNode(orig, C + Own(H, n) + Others(H, n.kids, k[0]) + Owned(H, m), U);
      r := Rejig(List(orig.items[k[0] := ref]), b, taken, C, U);
    }

    // ---- the trie as a map ----

    /** Lookup through the store. */
    function AtAux(here: Item, k: Nibbles, ghost n: Node): (r: Bytes)
      requires Normal(n) && Sized(n) && Readable(n) && here == ItemOf(H, n)
      reads db
      ensures r == Trie.At(n, k)
      decreases n
    {
      ItemShape(H, n);
      if IsEmptyItem(here) then []
      else if |here.items| == 2 then
        var key := PairKey(here);
        if k == key && PairIsLeaf(here) then here.items[1].data
        else if IsPrefix(key, k) && !PairIsLeaf(here) then
          ChildKept(H, n);
          AtAux(Deref(here.items[1], n.child), k[|key|..], n.child)
        else []
      else if k == [] then here.items[16].data
      else
        RefShape(H, n.kids[k[0]]);
        if IsEmptyItem(here.items[k[0]]) then []
        else
          KidKept(H, n, k[0]);
          AtAux(Deref(here.items[k[0]], n.kids[k[0]]), k[1..], n.kids[k[0]])
    }

    /** The item behind a mention: itself, or read from the store. */
    function Deref(ref: Item, ghost c: Node): (item: Item)
      requires Normal(c) && Sized(c) && c != Null && ref == RefOf(H, c)
      requires |Enc(H, c)| >= 32 ==> db.Lookup(H(Enc(H, c))) == Enc(H, c)
      reads db
      ensures item == ItemOf(H, c)
    {
      RefShape(H, c);
      if ref.List? then ref
      else
        SizedFits(H, c);
        ParseEncode(ItemOf(H, c));
        Parse(db.Lookup(ref.data)).value
    }

    /** The value stored under a key; no bytes when there is none. */
    function At(key: Bytes): (v: Bytes)
      requires Valid()
      reads this, db
      ensures v == if key in contents then contents[key] else []
    {
      BoundedIsSized(trie);
      SizedFits(H, trie);
      ParseEncode(ItemOf(H, trie));
      AgreesAt(trie, contents, key);
      AtAux(Parse(db.Lookup(root)).value, ToNibbles(key), trie)
    }

    /** Every string that insertion of a key brings into play, with all the store holds. */
    ghost function InsertInPlay(key: Bytes, v: Bytes): set<Bytes>
      requires Normal(trie) && v != []
      reads this, db
    {
      var k := ToNibbles(key);
      db.Held() + Below(H, trie) + {Enc(H, trie)} + Touched(H, trie, k, v) + {Enc(H, Merged(trie, k, v))}
    }

    ghost function RemoveInPlay(key: Bytes): set<Bytes>
      requires Normal(trie)
      reads this, db
    {
      db.Held() + Below(H, trie) + {Enc(H, trie)} + DeleteTouchedRef(H, trie, ToNibbles(key))
    }

    /** Taking the old root out and putting the new one in. */
    method ReplaceRoot(old': nat, item: Item, ghost m: Node, ghost U: set<Bytes>)
      requires item == ItemOf(H, m) && Enc(H, m) in U && db.Sound(H, U)
      requires db.Tracks((if old' < 32 then multiset{root} else multiset{}) + Refs(H, m))
      modifies db`main, this`root
      ensures root == H(Enc(H, m)) && db.Sound(H, U) && db.Tracks(multiset{root} + Refs(H, m))
    {
      hide Refs, ItemOf, Encode, NodeStore.Sound, NodeStore.Tracks;
      if old' < 32 {
        db.KillTracked(root, H, U, multiset{root} + Refs(H, m));
        assert multiset{root} + Refs(H, m) - multiset{root} == Refs(H, m);
      }
      assert multiset{} + Refs(H, m) == Refs(H, m);
      root := db.InsertTracked(H, Encode(item), U, Refs(H, m));
      assert Refs(H, m) + multiset{root} == multiset{root} + Refs(H, m);
    }

    /** The counts and the strings in play make the new tree readable. */
    lemma {:induction false} TracksReadable(m: Node, U: set<Bytes>)
      requires CollisionFree(H, U) && db.Sound(H, U) && Below(H, m) <= U && Enc(H, m) in U
      requires db.Tracks(multiset{H(Enc(H, m))} + Refs(H, m))
      ensures Readable(m) && db.Lookup(H(Enc(H, m))) == Enc(H, m)
    {
      var C := multiset{H(Enc(H, m))} + Refs(H, m);
      db.Finds(H, U, C, Enc(H, m));
      forall x | x in Below(H, m)
        ensures db.Lookup(H(x)) == x
      {
        BelowIsReferenced(H, m, x);
        db.Finds(H, U, C, x);
      }
    }

    lemma RootGrip(n: Node)
      ensures multiset{H(Enc(H, n))} + Refs(H, n) ==
        (if |Enc(H, n)| < 32 then multiset{H(Enc(H, n))} else multiset{}) + Own(H, n) + Refs(H, n)
      ensures Grip(n, false) == Own(H, n)
    {
    }

    lemma {:induction false} Open()
      requires Valid()
      ensures Normal(trie) && Bounded(trie) && Agrees(trie, contents) && root == H(Enc(H, trie))
      ensures db.Sound(H, db.Held()) && db.Tracks(multiset{root} + Refs(H, trie))
      ensures db.Lookup(root) == Enc(H, trie)
      ensures Parse(db.Lookup(root)) == Ok(ItemOf(H, trie))
    {
      BoundedIsSized(trie);
      SizedFits(H, trie);
      ParseEncode(ItemOf(H, trie));
    }

    lemma {:induction false} Close(U: set<Bytes>)
      requires Normal(trie) && Bounded(trie) && Agrees(trie, contents) && root == H(Enc(H, trie))
      requires CollisionFree(H, U) && Below(H, trie) <= U && Enc(H, trie) in U
      requires db.Sound(H, U) && db.Tracks(multiset{root} + Refs(H, trie))
      ensures Valid()
    {
      TracksReadable(trie, U);
      db.SoundHeld(H, U);
    }

    /** Insertion: the contents are updated at the key, and the trie stays valid. */
    method Insert(key: Bytes, v: Bytes)
      requires Valid() && v != [] && |v| <= 0x7fff_ffff_ffff_ffff && 2 * |key| <= 0x7fff_ffff
      requires CollisionFree(H, InsertInPlay(key, v))
      modifies this, db`main
      ensures Valid() && contents == old(contents)[key := v]
      ensures trie == Merged(old(trie), ToNibbles(key), v) && db.Held() <= old(InsertInPlay(key, v))
    {
      hide *;
      Open();
      var k := ToNibbles(key);
      ghost var U := InsertInPlay(key, v);
      ghost var n := trie;
      ghost var m := Merged(n, k, v);
      ghost var C := if |Enc(H, n)| < 32 then multiset{root} else multiset{};
      InsertPlan(key, v, C, U);
      InsertKeeps(n, contents, key, v);
      RootGrip(n);
      var rootValue := db.Lookup(root);
      var b := MergeAt(Parse(rootValue).value, k, v, false, n, C, U);
      ReplaceRoot(|rootValue|, b, m, U);
      trie, contents := m, contents[key := v];
      Close(U);
      db.HeldInside(H, U);
    }

    lemma {:induction false} InsertPlan(key: Bytes, v: Bytes, C: multiset<Hash>, U: set<Bytes>)
      requires Valid() && v != [] && U == InsertInPlay(key, v) && CollisionFree(H, U)
      requires C <= multiset{root}
      ensures Plan(H, trie, ToNibbles(key), v, C, U) && db.Sound(H, U)
      ensures InLineRight(trie, ToNibbles(key), false, U)
      ensures var m := Merged(trie, ToNibbles(key), v); Enc(H, m) in U && Below(H, m) <= U
    {
      db.SoundGrows(H, db.Held(), U);
      BelowMerged(H, trie, ToNibbles(key), v);
      BoundedIsSized(trie);
      NormalIsNear(trie);
      RefsAreNormal(H, U, trie);
      assert NamedBy(H, U, root, trie);
      assert forall h :: h in C ==> h == root;
      NormalRefsSum(H, U, C, Refs(H, trie));
    }

    lemma {:induction false} InsertKeeps(n: Node, m: Contents, key: Bytes, v: Bytes)
      requires Normal(n) && Bounded(n) && Agrees(n, m) && v != [] && |v| <= 0x7fff_ffff_ffff_ffff && 2 * |key| <= 0x7fff_ffff
      ensures var r := Merged(n, ToNibbles(key), v);
        Normal(r) && Bounded(r) && Agrees(r, m[key := v])
    {
      var k := ToNibbles(key);
      MergedNormal(n, k, v);
      AgreesMerged(n, m, key, v);
      forall j | Trie.At(Merged(n, k, v), j) != []
        ensures |j| <= MAX_KEY && |Trie.At(Merged(n, k, v), j)| <= MAX_VALUE
      {
        AtMerged(n, k, v, j);
      }
    }

    /**
     Removal is done on exactly the keys that do not clash: then exactly the key is deleted, and nothing
     at all changes when it is absent.  It is halted, with nothing changed, on exactly the keys that
     pass a stored key that nothing goes on from and whose value cannot be read as a node.
     */
    method Remove(key: Bytes) returns (end: End)
      requires Valid() && CollisionFree(H, RemoveInPlay(key))
      modifies this, db`main
      ensures end.Done? <==> !Clash(old(Takes()), old(trie), ToNibbles(key))
      ensures end.Halted? <==> Refuses(old(db.State()), old(trie), ToNibbles(key))
      ensures end.Done? ==> Valid() && contents == old(contents) - {key} && db.Held() <= old(RemoveInPlay(key))
      ensures end.Done? && key !in old(contents) ==> root == old(root) && trie == old(trie) && db.main == old(db.main)
      ensures end.Done? && key in old(contents) ==> Plain(old(trie), ToNibbles(key)) == Removed(trie)
      ensures end.Halted? ==>
        Valid() && root == old(root) && trie == old(trie) && contents == old(contents) && db.main == old(db.main)
    {
      hide *;
      Open();
      var k := ToNibbles(key);
      ghost var U := RemoveInPlay(key);
      ghost var n := trie;
      ghost var d := Deleted(Takes(), n, k);
      ghost var C := if |Enc(H, n)| < 32 then multiset{root} else multiset{};
      FailureFacts(n, k);
      RemovePlan(key, U);
      RemoveKeeps(Takes(), n, contents, key, U);
      RootGrip(n);
      var rootValue := db.Lookup(root);
      var b := DeleteAt(Parse(rootValue).value, k, n, C, U);
      if b.Refused? {
        return Halted;
      } else if b.Astray? {
        return Lost;
      }
      contents := contents - {key};
      if b.Changed? {
        trie := d.node;
        ReplaceRoot(|rootValue|, b.item, trie, U);
      } else {
        assert contents == old(contents);
      }
      Close(U);
      db.HeldInside(H, U);
      return Done;
    }

    lemma {:induction false} FailureFacts(n: Node, k: Nibbles)
      requires Normal(n)
      ensures Deleted(Takes(), n, k).Fault? <==> Clash(Takes(), n, k)
      ensures Refuses(db.State(), n, k) ==> Clash(Takes(), n, k) && Stopped(n, k).Some?
      ensures Failure(db.State(), n, k) == if Refuses(db.State(), n, k) then Refused else Astray
    {
      FaultExactly(Takes(), n, k);
      RefusesExactly(db.State(), n, k);
      StoppedFaults(Takes(), n, k);
    }

    lemma {:induction false} RemovePlan(key: Bytes, U: set<Bytes>)
      requires Valid() && U == RemoveInPlay(key)
      ensures db.Sound(H, U)
      ensures Below(H, trie) + {Enc(H, trie)} + DeleteTouchedRef(H, trie, ToNibbles(key)) <= U
    {
      db.SoundGrows(H, db.Held(), U);
    }

    lemma {:induction false} RemoveKeeps(takes: Taker, n: Node, m: Contents, key: Bytes, U: set<Bytes>)
      requires Normal(n) && Bounded(n) && Agrees(n, m)
      requires Below(H, n) + {Enc(H, n)} + DeleteTouchedRef(H, n, ToNibbles(key)) <= U
      requires CollisionFree(H, U)
      ensures DeletePlan(H, n, ToNibbles(key), U)
      ensures var d := Deleted(takes, n, ToNibbles(key));
        && (d.Absent? ==> key !in m)
        && (d.Removed? ==>
              && Normal(d.node) && Bounded(d.node) && Agrees(d.node, m - {key}) && key in m
              && Enc(H, d.node) in U && Below(H, d.node) <= U && Plain(n, ToNibbles(key)) == d)
    {
      hide *;
      var k := ToNibbles(key);
      var d := Deleted(takes, n, k);
      RemovalPlan(H, n, k, U);
      DeletedDeletes(takes, n, k);
      DeletedPlain(takes, n, k);
      if d.Removed? {
        AgreesDeleted(n, m, key, d.node);
        DeletesBounded(n, k, d.node);
        BelowDeleted(H, n, k);
        TouchedResult(H, n, k);
      } else if d.Absent? {
        AgreesAbsent(n, m, key);
      }
    }

    /** An empty trie in a store that counts nothing yet. */
    method Init()
      requires db.Sound(H, db.Held()) && db.Tracks(multiset{})
      requires CollisionFree(H, db.Held() + {RLP_NULL})
      modifies this, db`main
      ensures Valid() && contents == map[] && trie == Null && db.Held() <= old(db.Held()) + {RLP_NULL}
    {
      hide *;
      ghost var U := db.Held() + {RLP_NULL};
      db.SoundGrows(H, db.Held(), U);
      trie, contents := Null, map[];
      EmptyTrie();
      root := db.InsertTracked(H, RLP_NULL, U, multiset{});
      assert multiset{} + multiset{root} == multiset{root} + Refs(H, Null);
      Close(U);
      db.HeldInside(H, U);
    }

    lemma EmptyTrie()
      ensures Normal(Null) && Bounded(Null) && Agrees(Null, map[]) && Refs(H, Null) == multiset{}
      ensures Enc(H, Null) == RLP_NULL != [] && Below(H, Null) == {}
    {
    }

    /** Committing to the disk changes no lookup. */
    method Commit()
      requires Valid() && CollisionFree(H, db.Held() + Below(H, trie) + {Enc(H, trie)})
      modifies db`main, db`disk
      ensures Valid() && db.disk.Some? == old(db.disk).Some?
      ensures db.disk.Some? ==> db.main == map[]
      ensures db.Held() <= old(db.Held() + Below(H, trie) + {Enc(H, trie)})
    {
      ghost var U := db.Held() + Below(H, trie) + {Enc(H, trie)};
      db.SoundGrows(H, db.Held(), U);
      db.CommitTracked(H, U, multiset{root} + Refs(H, trie));
      TracksReadable(trie, U);
      db.HeldInside(H, U);
    }

    // ---- the scan for left-overs ----

    /** Strikes out a stored node and all below it; none where the trie is found to be invalid. */
    method DescendKey(h: Hash, mask: set<Hash>, wasExt: bool, ghost n: Node) returns (rest: Option<set<Hash>>)
      requires Normal(n) && Sized(n) && (wasExt ==> n.Branch?) && Readable(n)
      requires h == H(Enc(H, n)) && db.Lookup(h) == Enc(H, n)
      requires if n == Null then h == root else root != H(RLP_NULL)
      ensures rest.Some? && rest.value == mask - {h} - NamesBelow(H, n)
      decreases n, 2
    {
      NamesSplit(H, n);
      NullEncodes(H);
      hide ItemOf, Encode, NamesBelow;
      if h == root && h == H(RLP_NULL) { return Some(mask - {h}); }
      SizedFits(H, n);
      ParseEncode(ItemOf(H, n));
      rest := DescendList(Parse(db.Lookup(h)).value, mask - {h}, wasExt, n);
    }

    method DescendEntry(ref: Item, mask: set<Hash>, wasExt: bool, ghost c: Node) returns (rest: Option<set<Hash>>)
      requires Normal(c) && Sized(c) && c != Null && (wasExt ==> c.Branch?) && Readable(c)
      requires ref == RefOf(H, c) && root != H(RLP_NULL)
      requires |Enc(H, c)| >= 32 ==> db.Lookup(H(Enc(H, c))) == Enc(H, c)
      ensures rest.Some? && rest.value == mask - Names(H, c)
      decreases c, 3
    {
      RefShape(H, c);
      ItemShape(H, c);
      NamesSplit(H, c);
      hide ItemOf, Encode, NamesBelow, Names;
      if ref.Data? && |ref.data| == 32 {
        rest := DescendKey(ref.data, mask, wasExt, c);
      } else if ref.List? {
        rest := DescendList(ref, mask, wasExt, c);
      } else {
        return None;
      }
    }

    /** An extension may not lead to a pair, and only slots may be empty. */
    method DescendList(item: Item, mask: set<Hash>, wasExt: bool, ghost n: Node) returns (rest: Option<set<Hash>>)
      requires Normal(n) && Sized(n) && n != Null && (wasExt ==> n.Branch?) && Readable(n)
      requires item == ItemOf(H, n) && root != H(RLP_NULL)
      ensures rest.Some? && rest.value == mask - NamesBelow(H, n)
      decreases n, 1
    {
      ItemShape(H, n);
      NamesSplit(H, n);
      if |item.items| == 2 && !wasExt {
        if PairIsLeaf(item) { return Some(mask); }
        ReadableChild(n);
        hide ItemOf, Encode, NamesBelow, Names, Readable;
        rest := DescendEntry(item.items[1], mask, true, n.child);
      } else if |item.items| == 17 {
        BranchNames(H, n);
        rest := DescendSlots(item, mask, n);
      } else {
        return None;
      }
    }

    method DescendSlots(item: Item, mask: set<Hash>, ghost n: Node) returns (rest: Option<set<Hash>>)
      requires Normal(n) && Sized(n) && n.Branch? && Readable(n)
      requires IsSlots(item) && item == ItemOf(H, n) && root != H(RLP_NULL)
      ensures rest.Some? && rest.value == mask - SlotNames(H, n.kids, 16)
      decreases n, 0
    {
      ItemShape(H, n);
      rest := Some(mask);
      assert SlotNames(H, n.kids, 0) == {};
      hide ItemOf, Encode, NamesBelow, Names, Readable, SlotNames, RefOf, Enc;
      for i := 0 to 16
        invariant rest.Some? && rest.value == mask - SlotNames(H, n.kids, i)
      {
        RefShape(H, n.kids[i]);
        ReadableSlot(n, i);
        NullHasNoNames();
        SlotNamesStep(H, n.kids, i, mask);
        if !IsEmptyItem(item.items[i]) {
          rest := DescendEntry(item.items[i], rest.value, false, n.kids[i]);
        }
      }
    }

    lemma {:induction false} ReadableChild(n: Node)
      requires n.Ext? && Readable(n)
      ensures Readable(n.child)
      ensures |Enc(H, n.child)| >= 32 ==> db.Lookup(H(Enc(H, n.child))) == Enc(H, n.child)
    {
      ChildKept(H, n);
    }

    lemma {:induction false} ReadableSlot(n: Node, i: nat)
      requires n.Branch? && i < |n.kids| && Readable(n)
      ensures Readable(n.kids[i])
      ensures |Enc(H, n.kids[i])| >= 32 ==> db.Lookup(H(Enc(H, n.kids[i]))) == Enc(H, n.kids[i])
    {
      KidKept(H, n, i);
    }

    lemma {:induction false} NullHasNoNames()
      ensures Names(H, Null) == {}
    {
      NullEncodes(H);
      NamesSplit(H, Null);
    }

    /** The counted hashes that the root does not lead to: none at all over the plain memory database. */
    method LeftOvers() returns (rest: Option<set<Hash>>)
      requires Valid() && CollisionFree(H, db.Held() + {RLP_NULL})
      ensures rest.Some? && rest.value == (set h | h in db.main && db.main[h].1 > 0) - {root} - NamesBelow(H, trie)
      ensures db.disk.None? ==> rest == Some({})
    {
      var mask := db.Keys();
      BoundedIsSized(trie);
      RootTellsEmpty();
      rest := DescendKey(root, mask, false, trie);
      if db.disk.None? {
        forall h | h in mask
          ensures h == root || h in NamesBelow(H, trie)
        {
          assert db.Count(h) == (multiset{root} + Refs(H, trie))[h];
          if h != root { ReferencedIsBelow(H, trie, h); }
        }
        assert rest.value == {};
      }
    }

    lemma {:induction false} RootTellsEmpty()
      requires Valid() && CollisionFree(H, db.Held() + {RLP_NULL})
      ensures trie == Null <==> root == H(RLP_NULL)
    {
      NullEncodes(H);
      Open();
      ItemShape(H, trie);
      if root == H(RLP_NULL) {
        assert db.Lookup(root) in db.Held();
        ParseEncode(Data([]));
      }
    }

    /** The root is the hash computed from scratch over the contents. */
    lemma {:induction false} RootIsHash256()
      requires Valid()
      ensures AllStored(contents) && root == HashOf(H, contents)
    {
      TreeIs(contents, trie);
    }

    /** Two tries whose nodes hash apart have the same root exactly when they have the same contents. */
    lemma {:induction false} RootCommits(other: TrieDb)
      requires Valid() && other.Valid() && other.H == H
      requires CollisionFree(H, Hashed(H, trie) + Hashed(H, other.trie))
      ensures root == other.root <==> contents == other.contents
      ensures root == other.root ==> trie == other.trie
    {
      if root == other.root {
        BoundedIsSized(trie);
        BoundedIsSized(other.trie);
        RootBinds(H, trie, other.trie);
        AgreesOnce(trie, contents, other.contents);
      }
      if contents == other.contents {
        RootIsHash256();
        other.RootIsHash256();
      }
    }
  }
}
