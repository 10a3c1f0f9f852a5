/**
 Which hashes a trie mentions, how often, and which encodings an operation
 brings into play.
 */
module TrieRefs {
  import opened Rlp
  import opened HexPrefix
  import opened Trie
  import opened TrieHash

  /** The hash under which a node item is stored; none for one short enough to be inlined. */
  ghost function OwnItem(H: Hasher, item: Item): multiset<Hash> {
    if |Encode(item)| < 32 then multiset{} else multiset{H(Encode(item))}
  }

  ghost function Own(H: Hasher, n: Node): multiset<Hash> {
    OwnItem(H, ItemOf(H, n))
  }

  /** All hash references below a node in the unfolded tree, with multiplicity. */
  ghost function Refs(H: Hasher, n: Node): multiset<Hash>
    decreases n, 0
  {
    match n
    case Ext(_, c) => Owned(H, c)
    case Branch(kids, _) => RefsAll(H, kids)
    case _ => multiset{}
  }

  ghost function Owned(H: Hasher, n: Node): multiset<Hash>
    decreases n, 1
  {
    Own(H, n) + Refs(H, n)
  }

  ghost function RefsAll(H: Hasher, kids: seq<Node>): multiset<Hash>
    decreases kids, 0
  {
    if kids == [] then multiset{} else Owned(H, kids[0]) + RefsAll(H, kids[1..])
  }

  lemma {:induction false} RefsAllAppend(H: Hasher, a: seq<Node>, b: seq<Node>)
    ensures RefsAll(H, a + b) == RefsAll(H, a) + RefsAll(H, b)
  {
    hide Owned;
    if a == [] {
      assert a + b == b;
    } else {
      RefsAllAppend(H, a[1..], b);
      assert (a + b)[1..] == a[1..] + b;
    }
  }

  /** The references of all children but one. */
  ghost function Others(H: Hasher, kids: seq<Node>, i: nat): multiset<Hash>
    requires i < |kids|
  {
    RefsAll(H, kids[..i]) + RefsAll(H, kids[i + 1..])
  }

  lemma {:induction false} RefsSplit(H: Hasher, kids: seq<Node>, i: nat)
    requires i < |kids|
    ensures RefsAll(H, kids) == Others(H, kids, i) + Owned(H, kids[i])
  {
    assert kids == kids[..i] + ([kids[i]] + kids[i + 1..]);
    RefsAllAppend(H, kids[..i], [kids[i]] + kids[i + 1..]);
    assert ([kids[i]] + kids[i + 1..])[1..] == kids[i + 1..];
  }

  lemma {:induction false} RefsUpdate(H: Hasher, kids: seq<Node>, i: nat, c: Node)
    requires i < |kids|
    ensures RefsAll(H, kids[i := c]) == Others(H, kids, i) + Owned(H, c)
  {
    var after := kids[i := c];
    RefsSplit(H, after, i);
    assert after[..i] == kids[..i] && after[i + 1..] == kids[i + 1..];
  }

  lemma NullHasNoRefs(H: Hasher)
    ensures Owned(H, Null) == multiset{}
  {
  }

  lemma {:induction false} NullsHaveNoRefs(H: Hasher, kids: seq<Node>)
    requires forall i :: 0 <= i < |kids| ==> kids[i] == Null
    ensures RefsAll(H, kids) == multiset{}
  {
    if kids != [] {
      NullHasNoRefs(H);
      NullsHaveNoRefs(H, kids[1..]);
    }
  }

  lemma {:induction false} LoneRefs(H: Hasher, kids: seq<Node>, i: nat)
    requires i < |kids| && forall j :: 0 <= j < |kids| && j != i ==> kids[j] == Null
    ensures RefsAll(H, kids) == Owned(H, kids[i])
  {
    hide Owned, RefsAll;
    RefsSplit(H, kids, i);
    NullsHaveNoRefs(H, kids[..i]);
    NullsHaveNoRefs(H, kids[i + 1..]);
  }

  lemma WithKeyRefs(H: Hasher, n: Node, k: Nibbles)
    requires n.Leaf? || n.Ext?
    ensures Refs(H, WithKey(n, k)) == Refs(H, n)
  {
  }

  lemma {:induction false} CleveRefs(H: Hasher, n: Node, s: nat)
    requires (n.Leaf? || n.Ext?) && WellFormed(n)
    requires 0 < s <= |n.key| && (n.Ext? ==> s < |n.key|)
    ensures Refs(H, Cleve(n, s)) == Own(H, WithKey(n, n.key[s..])) + Refs(H, n)
  {
    WithKeyRefs(H, n, n.key[s..]);
  }

  lemma {:induction false} ToBranchRefs(H: Hasher, n: Node)
    requires (n.Leaf? || n.Ext?) && WellFormed(n)
    ensures n.key == [] ==> Refs(H, ToBranch(n)) == multiset{}
    ensures n.key != [] && (n.Leaf? || |n.key| > 1) ==>
      Refs(H, ToBranch(n)) == Own(H, WithKey(n, n.key[1..])) + Refs(H, n)
    ensures n.Ext? && |n.key| == 1 ==> Refs(H, ToBranch(n)) == Refs(H, n)
  {
    hide Own, RefsAll;
    var b := ToBranch(n);
    if n.key == [] {
      NullsHaveNoRefs(H, b.kids);
    } else {
      LoneRefs(H, b.kids, n.key[0]);
      WithKeyRefs(H, n, n.key[1..]);
    }
  }

  // ---- encodings in play ----

  /** The encodings of the nodes below that are stored under their hash. */
  ghost function Below(H: Hasher, n: Node): set<Bytes>
    decreases n, 0
  {
    match n
    case Ext(_, c) => Kept(H, c)
    case Branch(kids, _) => set i, x | 0 <= i < |kids| && x in Kept(H, kids[i]) :: x
    case _ => {}
  }

  ghost function Kept(H: Hasher, n: Node): set<Bytes>
    decreases n, 1
  {
    (if |Enc(H, n)| < 32 then {} else {Enc(H, n)}) + Below(H, n)
  }

  /** The encodings that an insertion stores, or hashes on the way, below the node it starts at. */
  ghost function Touched(H: Hasher, n: Node, k: Nibbles, v: Bytes): set<Bytes>
    requires WellFormed(n) && v != []
    decreases |k|, if Matches(n, k) then 0 else 1
  {
    if !Matches(n, k) then
      var r := Reshaped(n, k);
      {Enc(H, r)} + Below(H, r) + Touched(H, r, k, v)
    else
      match n
      case Ext(p, c) => {Enc(H, Merged(c, k[|p|..], v))} + Touched(H, c, k[|p|..], v)
      case Branch(kids, _) =>
        if k == [] then {}
        else {Enc(H, Merged(kids[k[0]], k[1..], v))} + Touched(H, kids[k[0]], k[1..], v)
      case _ => {}
  }

  ghost predicate CollisionFree(H: Hasher, U: set<Bytes>) {
    forall x, y :: x in U && y in U && H(x) == H(y) ==> x == y
  }

  /** Everything kept below the changed tree was kept before or brought in by the insertion. */
  lemma {:induction false} BelowMerged(H: Hasher, n: Node, k: Nibbles, v: Bytes)
    requires WellFormed(n) && v != []
    ensures Below(H, Merged(n, k, v)) <= Below(H, n) + Touched(H, n, k, v)
    decreases |k|, if Matches(n, k) then 0 else 1
  {
    if !Matches(n, k) {
      BelowMerged(H, Reshaped(n, k), k, v);
    } else if n.Ext? {
      BelowMerged(H, n.child, k[|n.key|..], v);
    } else if n.Branch? && k != [] {
      BelowMerged(H, n.kids[k[0]], k[1..], v);
      BelowSlot(H, n, k, v);
    }
  }

  lemma {:induction false} BelowSlot(H: Hasher, n: Node, k: Nibbles, v: Bytes)
    requires WellFormed(n) && v != [] && n.Branch? && k != []
    requires var kid := n.kids[k[0]];
      Below(H, Merged(kid, k[1..], v)) <= Below(H, kid) + Touched(H, kid, k[1..], v)
    ensures Below(H, Merged(n, k, v)) <= Below(H, n) + Touched(H, n, k, v)
  {
    var kid := n.kids[k[0]];
    var r := Merged(n, k, v);
    assert r.kids == n.kids[k[0] := Merged(kid, k[1..], v)];
    forall x | x in Below(H, r)
      ensures x in Below(H, n) + Touched(H, n, k, v)
    {
      var i :| 0 <= i < |r.kids| && x in Kept(H, r.kids[i]);
      if i == k[0] {
        KidKept(H, n, i);
        assert x == Enc(H, r.kids[i]) || x in Below(H, r.kids[i]);
      } else {
        assert x in Kept(H, n.kids[i]);
      }
    }
  }

  lemma KidKept(H: Hasher, n: Node, i: nat)
    requires n.Branch? && i < |n.kids|
    ensures Kept(H, n.kids[i]) <= Below(H, n)
  {
  }

  lemma ChildKept(H: Hasher, n: Node)
    requires n.Ext?
    ensures Kept(H, n.child) == Below(H, n)
  {
  }

  /** What is kept below a node is referred to from it. */
  lemma {:induction false} BelowIsReferenced(H: Hasher, n: Node, x: Bytes)
    requires x in Below(H, n)
    ensures H(x) in Refs(H, n)
    decreases n, 0
  {
    match n
    case Ext(_, c) => KeptIsReferenced(H, c, x);
    case Branch(kids, _) =>
      var i :| 0 <= i < |kids| && x in Kept(H, kids[i]);
      KeptIsReferenced(H, kids[i], x);
      RefsSplit(H, kids, i);
    case _ =>
  }

  lemma {:induction false} KeptIsReferenced(H: Hasher, n: Node, x: Bytes)
    requires x in Kept(H, n)
    ensures H(x) in Owned(H, n)
    decreases n, 1
  {
    if x in Below(H, n) {
      BelowIsReferenced(H, n, x);
    }
  }

  /** The hashes under which the nodes below are stored. */
  ghost function NamesBelow(H: Hasher, n: Node): set<Hash> {
    set x | x in Below(H, n) :: H(x)
  }

  ghost function Names(H: Hasher, n: Node): set<Hash> {
    set x | x in Kept(H, n) :: H(x)
  }

  /** The hashes of the children in the slots before `i`, and of what is below them. */
  ghost function SlotNames(H: Hasher, kids: seq<Node>, i: nat): set<Hash>
    requires i <= |kids|
  {
    if i == 0 then {} else SlotNames(H, kids, i - 1) + Names(H, kids[i - 1])
  }

  lemma {:induction false} SlotNamesStep(H: Hasher, kids: seq<Node>, i: nat, mask: set<Hash>)
    requires i < |kids|
    ensures mask - SlotNames(H, kids, i + 1) == mask - SlotNames(H, kids, i) - Names(H, kids[i])
    ensures Names(H, kids[i]) == {} ==> SlotNames(H, kids, i + 1) == SlotNames(H, kids, i)
  {
    hide Names;
  }

  lemma {:induction false} NamesSplit(H: Hasher, n: Node)
    ensures Names(H, n) == (if |Enc(H, n)| < 32 then {} else {H(Enc(H, n))}) + NamesBelow(H, n)
    ensures n.Ext? ==> NamesBelow(H, n) == Names(H, n.child)
    ensures n.Null? || n.Leaf? ==> NamesBelow(H, n) == {}
  {
    hide Enc;
  }

  lemma {:induction false} SlotNamesAre(H: Hasher, kids: seq<Node>, i: nat, h: Hash)
    requires i <= |kids|
    ensures h in SlotNames(H, kids, i) <==> exists j :: 0 <= j < i && h in Names(H, kids[j])
  {
    hide Names;
    if i > 0 { SlotNamesAre(H, kids, i - 1, h); }
  }

  lemma {:induction false} BranchNames(H: Hasher, n: Node)
    requires n.Branch?
    ensures NamesBelow(H, n) == SlotNames(H, n.kids, |n.kids|)
  {
    forall h
      ensures h in NamesBelow(H, n) <==> h in SlotNames(H, n.kids, |n.kids|)
    {
      SlotNamesAre(H, n.kids, |n.kids|, h);
      hide Kept;
      if h in NamesBelow(H, n) {
        var x :| x in Below(H, n) && H(x) == h;
        var j :| 0 <= j < |n.kids| && x in Kept(H, n.kids[j]);
        assert h in Names(H, n.kids[j]);
      }
      if j :| 0 <= j < |n.kids| && h in Names(H, n.kids[j]) {
        var x :| x in Kept(H, n.kids[j]) && H(x) == h;
        assert x in Below(H, n);
      }
    }
  }

  /** What is referred to from a node is kept below it. */
  lemma {:induction false} ReferencedIsBelow(H: Hasher, n: Node, h: Hash)
    requires h in Refs(H, n)
    ensures h in NamesBelow(H, n)
    decreases n, 0
  {
    match n
    case Ext(_, c) => OwnedIsKept(H, c, h);
    case Branch(kids, _) =>
      var i := ReferencedSlot(H, kids, h);
      OwnedIsKept(H, kids[i], h);
      KidKept(H, n, i);
    case _ =>
  }

  lemma {:induction false} OwnedIsKept(H: Hasher, n: Node, h: Hash)
    requires h in Owned(H, n)
    ensures h in Names(H, n)
    decreases n, 1
  {
    if h in Refs(H, n) {
      ReferencedIsBelow(H, n, h);
    } else {
      assert Enc(H, n) in Kept(H, n);
    }
  }

  lemma {:induction false} ReferencedSlot(H: Hasher, kids: seq<Node>, h: Hash) returns (i: nat)
    requires h in RefsAll(H, kids)
    ensures i < |kids| && h in Owned(H, kids[i])
  {
    hide Owned;
    if h in Owned(H, kids[0]) {
      i := 0;
    } else {
      i := ReferencedSlot(H, kids[1..], h);
      i := i + 1;
    }
  }

  // ---- sizes ----

  // A value is a string in a 64-bit address space.
  const MAX_VALUE: nat := 0x7fff_ffff_ffff_ffff

  predicate Sized(n: Node) {
    match n
    case Null => true
    case Leaf(k, v) => |k| <= MAX_KEY && |v| <= MAX_VALUE
    case Ext(k, c) => |k| <= MAX_KEY && Sized(c)
    case Branch(kids, v) => |v| <= MAX_VALUE && forall i :: 0 <= i < |kids| ==> Sized(kids[i])
  }

  ghost predicate Bounded(n: Node)
    requires WellFormed(n)
  {
    forall k :: At(n, k) != [] ==> |k| <= MAX_KEY && |At(n, k)| <= MAX_VALUE
  }

  lemma {:induction false} ChildBounded(n: Node)
    requires n.Ext? && WellFormed(n) && Bounded(n)
    ensures Bounded(n.child)
  {
    forall k: Nibbles | At(n.child, k) != []
      ensures |k| <= MAX_KEY && |At(n.child, k)| <= MAX_VALUE
    {
      PrefixAppend(n.key, k);
      assert At(n, n.key + k) == At(n.child, k);
    }
  }

  lemma {:induction false} KidBounded(n: Node, i: nat)
    requires n.Branch? && WellFormed(n) && Bounded(n) && i < 16
    ensures Bounded(n.kids[i])
  {
    var first: Nibble := i;
    forall k: Nibbles | At(n.kids[i], k) != []
      ensures |k| <= MAX_KEY && |At(n.kids[i], k)| <= MAX_VALUE
    {
      var full := [first] + k;
      assert full[1..] == k;
      assert At(n, full) == At(n.kids[i], k);
    }
  }

  /** In normal form every key segment is part of a stored key, so bounded lookups bound the nodes. */
  lemma {:induction false} BoundedIsSized(n: Node)
    requires Normal(n) && Bounded(n)
    ensures Sized(n)
  {
    match n
    case Null =>
    case Leaf(k, v) => assert At(n, k) == v;
    case Ext(k, c) =>
      ChildBounded(n);
      BoundedIsSized(c);
      var l := HasKey(n);
    case Branch(kids, v) =>
      assert At(n, []) == v;
      forall i | 0 <= i < 16
        ensures Sized(kids[i])
      {
        KidBounded(n, i);
        BoundedIsSized(kids[i]);
      }
  }

  lemma {:induction false} EncodeDataLength(d: Bytes)
    requires |d| < MAX_LENGTH
    ensures |d| <= |EncodeData(d)| <= |d| + 9
  {
    if |d| >= IMM_LEN_COUNT {
      var digits := HeaderDigits(|d|, DATA_IMM_START, DATA_IND_ZERO);
    }
  }

  lemma {:induction false} RefIsShort(H: Hasher, n: Node)
    ensures |Encode(RefOf(H, n))| <= 33
  {
    var item := ItemOf(H, n);
    if |Encode(item)| >= 32 {
      EncodeDataLength(H(Encode(item)));
    }
  }

  /** Nodes within the size limits have encodings the reader accepts. */
  lemma {:induction false} SizedFits(H: Hasher, n: Node)
    requires Sized(n) && WellFormed(n)
    ensures Fits(ItemOf(H, n))
    decreases n, 0
  {
    match n
    case Null =>
    case Leaf(k, v) =>
      EncodeDataLength(v);
      PairFits(Encoded(k, true), Data(v), |v|);
    case Ext(k, c) =>
      RefFits(H, c);
      RefIsShort(H, c);
      PairFits(Encoded(k, false), RefOf(H, c), 33);
    case Branch(kids, v) =>
      var refs := seq(16, i requires 0 <= i < 16 => RefOf(H, kids[i]));
      forall i | 0 <= i < 16
        ensures Fits(refs[i]) && |Encode(refs[i])| <= 33
      {
        RefFits(H, kids[i]);
        RefIsShort(H, kids[i]);
      }
      SlotsFit(refs, v);
  }

  lemma {:induction false} RefFits(H: Hasher, n: Node)
    requires Sized(n) && WellFormed(n)
    ensures Fits(RefOf(H, n))
    decreases n, 1
  {
    SizedFits(H, n);
  }

  lemma {:induction false} PairFits(hpe: Bytes, second: Item, size: nat)
    requires |hpe| <= 0x1_0000_0000 && Fits(second) && size <= MAX_VALUE && |Encode(second)| <= size + 9
    ensures Fits(List([Data(hpe), second]))
  {
    EncodeDataLength(hpe);
    EncodeCons(Data(hpe), [second]);
    EncodeCons(second, []);
    assert [second] + [] == [second];
    assert [Data(hpe)] + [second] == [Data(hpe), second];
  }

  lemma {:induction false} ItemsFit(items: seq<Item>)
    requires forall i :: 0 <= i < |items| ==> Fits(items[i]) && |Encode(items[i])| <= 33
    ensures FitsAll(items) && |EncodeAll(items)| <= 33 * |items|
  {
    if items != [] {
      ItemsFit(items[1..]);
    }
  }

  lemma {:induction false} FitsAllAppend(a: seq<Item>, b: seq<Item>)
    requires FitsAll(a) && FitsAll(b)
    ensures FitsAll(a + b)
  {
    if a == [] {
      assert a + b == b;
    } else {
      FitsAllAppend(a[1..], b);
      assert (a + b)[1..] == a[1..] + b;
    }
  }

  lemma {:induction false} SlotsFit(refs: seq<Item>, v: Bytes)
    requires |refs| == 16 && |v| <= MAX_VALUE
    requires forall i :: 0 <= i < |refs| ==> Fits(refs[i]) && |Encode(refs[i])| <= 33
    ensures Fits(List(refs + [Data(v)]))
  {
    ItemsFit(refs);
    EncodeDataLength(v);
    EncodeCons(Data(v), []);
    assert [Data(v)] + [] == [Data(v)];
    FitsAllAppend(refs, [Data(v)]);
    EncodeAllAppend(refs, [Data(v)]);
  }
}
