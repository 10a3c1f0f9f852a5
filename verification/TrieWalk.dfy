/**
 The entries of a trie in the order the iterator meets them, and the part of
 them that a lower bound leaves.
 */
module TrieWalk {
  import opened HexPrefix
  import opened Trie
  import opened TrieBuild
  import opened TrieCanon

  /** All entries below a node: a branch's value first, then its children from left to right. */
  function Walk(n: Node, path: Nibbles): seq<Entry>
    requires WellFormed(n)
    decreases n, 17
  {
    match n
    case Null => []
    case Leaf(k, v) => [(path + k, v)]
    case Ext(k, c) => Walk(c, path + k)
    case Branch(_, v) => (if v == [] then [] else [(path, v)]) + WalkKids(n, 0, path)
  }

  /** The entries in the slots of a branch from slot `i` on. */
  function WalkKids(b: Node, i: nat, path: Nibbles): seq<Entry>
    requires WellFormed(b) && b.Branch? && i <= 16
    decreases b, 16 - i
  {
    if i == 16 then [] else Walk(b.kids[i], path + [i]) + WalkKids(b, i + 1, path)
  }

  // ---- what a walk lists ----

  /** An entry that lies below the node reached by `path`, with the value found there. */
  predicate Found(n: Node, path: Nibbles, e: Entry)
    requires WellFormed(n)
  {
    IsPrefix(path, e.0) && e.1 != [] && At(n, e.0[|path|..]) == e.1
  }

  lemma {:induction false} WalkFinds(n: Node, path: Nibbles, e: Entry)
    requires WellFormed(n) && e in Walk(n, path)
    ensures Found(n, path, e)
    decreases n, 17
  {
    match n
    case Null =>
    case Leaf(k, v) =>
      PrefixAppend(path, k);
    case Ext(k, c) =>
      WalkFinds(c, path + k, e);
      FoundBelow(path, k, e.0);
    case Branch(_, v) =>
      if e in WalkKids(n, 0, path) {
        var j := KidsFind(n, 0, path, e);
        assert e.0[|path|..] != [];
      }
  }

  /** A key below a longer path lies below the shorter one. */
  lemma {:induction false} FoundBelow(path: Nibbles, k: Nibbles, key: Nibbles)
    requires IsPrefix(path + k, key)
    ensures IsPrefix(path, key) && IsPrefix(k, key[|path|..])
    ensures key[|path|..][|k|..] == key[|path + k|..]
  {
    assert key[..|path|] == (path + k)[..|path|];
    assert key[|path|..][..|k|] == (path + k)[|path|..];
  }

  lemma {:induction false} KidsFind(b: Node, i: nat, path: Nibbles, e: Entry) returns (j: Nibble)
    requires WellFormed(b) && b.Branch? && i <= 16 && e in WalkKids(b, i, path)
    ensures Found(b, path, e) && |e.0| > |path| && e.0[|path|] == j >= i
    decreases b, 16 - i
  {
    if i < 16 {
      if e in Walk(b.kids[i], path + [i]) {
        j := i;
        WalkFinds(b.kids[i], path + [i], e);
        FoundBelow(path, [j], e.0);
        assert e.0[|path|..][0] == e.0[|path|] == (path + [i])[|path|];
      } else {
        j := KidsFind(b, i + 1, path, e);
      }
    }
  }

  lemma {:induction false} WalkHas(n: Node, path: Nibbles, k: Nibbles)
    requires WellFormed(n) && At(n, k) != []
    ensures (path + k, At(n, k)) in Walk(n, path)
    decreases n, 17
  {
    match n
    case Null =>
    case Leaf(p, v) =>
    case Ext(p, c) =>
      WalkHas(c, path + p, k[|p|..]);
      assert path + p + k[|p|..] == path + k;
    case Branch(kids, v) =>
      if k == [] {
        assert path + k == path;
      } else {
        WalkHas(kids[k[0]], path + [k[0]], k[1..]);
        assert path + [k[0]] + k[1..] == path + k;
        KidsHave(n, 0, path, k[0], (path + k, At(n, k)));
      }
  }

  lemma {:induction false} KidsHave(b: Node, i: nat, path: Nibbles, j: nat, e: Entry)
    requires WellFormed(b) && b.Branch? && i <= j < 16 && e in Walk(b.kids[j], path + [j])
    ensures e in WalkKids(b, i, path)
    decreases j - i
  {
    if i < j { KidsHave(b, i + 1, path, j, e); }
  }

  // ---- a walk is in ascending order ----

  lemma {:induction false} SortedJoin(a: seq<Entry>, b: seq<Entry>)
    requires Sorted(a) && Sorted(b) && forall x, y :: x in a && y in b ==> Less(x.0, y.0)
    ensures Sorted(a + b)
  {
    forall i, j | 0 <= i < j < |a + b|
      ensures Less((a + b)[i].0, (a + b)[j].0)
    {
      if i < |a| <= j { assert a[i] in a && b[j - |a|] in b; }
    }
  }

  /** The nibble after a common path decides. */
  lemma {:induction false} NextDecides(path: Nibbles, a: Nibbles, b: Nibbles)
    requires IsPrefix(path, a) && IsPrefix(path, b) && |b| > |path|
    requires |a| == |path| || a[|path|] < b[|path|]
    ensures Less(a, b)
  {
    LessAppend(path, a[|path|..], b[|path|..]);
    assert a == path + a[|path|..] && b == path + b[|path|..];
  }

  lemma {:induction false} WalkSorted(n: Node, path: Nibbles)
    requires WellFormed(n)
    ensures Sorted(Walk(n, path))
    decreases n, 17
  {
    match n
    case Null =>
    case Leaf(_, _) =>
    case Ext(k, c) => WalkSorted(c, path + k);
    case Branch(_, v) =>
      KidsSorted(n, 0, path);
      var own := if v == [] then [] else [(path, v)];
      var below := WalkKids(n, 0, path);
      forall x, y | x in own && y in below
        ensures Less(x.0, y.0)
      {
        var j := KidsFind(n, 0, path, y);
        NextDecides(path, x.0, y.0);
      }
      SortedJoin(own, below);
  }

  lemma {:induction false} KidsSorted(b: Node, i: nat, path: Nibbles)
    requires WellFormed(b) && b.Branch? && i <= 16
    ensures Sorted(WalkKids(b, i, path))
    decreases b, 16 - i
  {
    if i < 16 {
      var here, later := Walk(b.kids[i], path + [i]), WalkKids(b, i + 1, path);
      WalkSorted(b.kids[i], path + [i]);
      KidsSorted(b, i + 1, path);
      forall x, y | x in here && y in later
        ensures Less(x.0, y.0)
      {
        KidKey(b, i, path, x);
        var j := KidsFind(b, i + 1, path, y);
        NextDecides(path, x.0, y.0);
      }
      SortedJoin(here, later);
    }
  }

  lemma {:induction false} KidKey(b: Node, i: Nibble, path: Nibbles, e: Entry)
    requires WellFormed(b) && b.Branch? && e in Walk(b.kids[i], path + [i])
    ensures IsPrefix(path, e.0) && |e.0| > |path| && e.0[|path|] == i
  {
    WalkFinds(b.kids[i], path + [i], e);
    FoundBelow(path, [i], e.0);
    assert e.0[|path|] == (path + [i])[|path|];
  }

  /** The walk of a trie lists its contents: every entry, once, in ascending order. */
  lemma {:induction false} WalkListsAll(n: Node, m: Contents)
    requires WellFormed(n) && Agrees(n, m)
    ensures ListsAll(Walk(n, []), m)
  {
    var s := Walk(n, []);
    WalkSorted(n, []);
    forall i | 0 <= i < |s|
      ensures s[i].1 != [] && At(n, s[i].0) == s[i].1
    {
      WalkFinds(n, [], s[i]);
      assert s[i].0[0..] == s[i].0;
    }
    forall key | key in m
      ensures Mentions(s, ToNibbles(key))
    {
      WalkHas(n, [], ToNibbles(key));
      assert [] + ToNibbles(key) == ToNibbles(key);
      var i :| 0 <= i < |s| && s[i] == (ToNibbles(key), m[key]);
    }
  }

  // ---- lower bounds ----

  /** What is left of a list from the first key that is not less than `k`. */
  function From(s: seq<Entry>, k: Nibbles): seq<Entry> {
    if s != [] && Less(s[0].0, k) then From(s[1..], k) else s
  }

  /** In a sorted list a lower bound leaves a tail, and in it exactly the entries that are not less. */
  lemma {:induction false} FromIs(s: seq<Entry>, k: Nibbles)
    requires Sorted(s)
    ensures var r := From(s, k); |r| <= |s| && r == s[|s| - |r|..]
    ensures forall e :: e in From(s, k) <==> e in s && !Less(e.0, k)
  {
    hide Less;
    if s != [] {
      var rest := s[1..];
      assert s == [s[0]] + rest;
      if Less(s[0].0, k) {
        FromIs(rest, k);
      } else {
        forall e | e in rest
          ensures !Less(e.0, k)
        {
          if Less(e.0, k) { LessTrans(s[0].0, e.0, k); }
        }
      }
    }
  }

  ghost predicate AllLess(s: seq<Entry>, k: Nibbles) {
    forall e :: e in s ==> Less(e.0, k)
  }

  ghost predicate NoneLess(s: seq<Entry>, k: Nibbles) {
    forall e :: e in s ==> !Less(e.0, k)
  }

  lemma {:induction false} FromSplit(a: seq<Entry>, b: seq<Entry>, k: Nibbles)
    requires NoneLess(b, k)
    ensures From(a + b, k) == From(a, k) + b
  {
    if a == [] {
      assert a + b == b;
      if b != [] { assert b[0] in b; }
    } else if Less(a[0].0, k) {
      FromSplit(a[1..], b, k);
      assert (a + b)[1..] == a[1..] + b;
    }
  }

  lemma {:induction false} FromSkips(a: seq<Entry>, b: seq<Entry>, k: Nibbles)
    requires AllLess(a, k)
    ensures From(a + b, k) == From(b, k)
  {
    if a == [] {
      assert a + b == b;
    } else {
      assert a[0] in a;
      FromSkips(a[1..], b, k);
      assert (a + b)[1..] == a[1..] + b;
    }
  }

  lemma {:induction false} FromNothing(s: seq<Entry>, k: Nibbles)
    requires AllLess(s, k)
    ensures From(s, k) == []
  {
    FromSkips(s, [], k);
    assert s + [] == s;
  }

  lemma {:induction false} FromAll(s: seq<Entry>, k: Nibbles)
    requires NoneLess(s, k)
    ensures From(s, k) == s
  {
    FromSplit([], s, k);
    assert [] + s == s;
  }

  /** Below a path nothing is less than the path itself. */
  lemma {:induction false} FromPath(n: Node, path: Nibbles)
    requires WellFormed(n)
    ensures From(Walk(n, path), path) == Walk(n, path)
  {
    forall e | e in Walk(n, path)
      ensures !Less(e.0, path)
    {
      WalkFinds(n, path, e);
      NotLessThanPrefix(path, e.0);
    }
    FromAll(Walk(n, path), path);
  }

  lemma {:induction false} NotLessThanPrefix(p: Nibbles, k: Nibbles)
    requires IsPrefix(p, k)
    ensures !Less(k, p)
  {
    LessAppend(p, k[|p|..], []);
    assert k == p + k[|p|..] && p + [] == p;
  }

  /** A key that parts from a prefix is on the same side of everything below the prefix. */
  lemma {:induction false} SideOfPrefix(p: Nibbles, k: Nibbles, key: Nibbles)
    requires IsPrefix(p, key) && !IsPrefix(p, k)
    ensures Less(k, key) <==> Less(k, p)
    ensures Less(key, k) <==> !Less(k, p)
  {
    assert p != [];
    assert key[0] == key[..|p|][0] && key[1..][..|p| - 1] == key[..|p|][1..];
    if k != [] && p[0] == k[0] {
      assert !IsPrefix(p[1..], k[1..]) by {
        assert |k| >= |p| ==> k[..|p|] == [k[0]] + k[1..][..|p| - 1];
      }
      SideOfPrefix(p[1..], k[1..], key[1..]);
    }
  }

  /** A two-item node that parts from the bound is kept whole or dropped whole. */
  lemma {:induction false} FromParted(n: Node, path: Nibbles, k: Nibbles)
    requires WellFormed(n) && (n.Leaf? || n.Ext?) && !IsPrefix(n.key, k)
    ensures From(Walk(n, path), path + k) == if Less(k, n.key) then Walk(n, path) else []
  {
    var s := Walk(n, path);
    forall e | e in s
      ensures Less(e.0, path + k) <==> !Less(k, n.key)
    {
      KeyBelow(n, path, e);
      SideOfPrefix(n.key, k, e.0[|path|..]);
      LessAppend(path, e.0[|path|..], k);
      assert e.0 == path + e.0[|path|..];
    }
    if Less(k, n.key) { FromAll(s, path + k); } else { FromNothing(s, path + k); }
  }

  lemma {:induction false} KeyBelow(n: Node, path: Nibbles, e: Entry)
    requires WellFormed(n) && (n.Leaf? || n.Ext?) && e in Walk(n, path)
    ensures IsPrefix(path, e.0) && IsPrefix(n.key, e.0[|path|..])
  {
    if n.Leaf? {
      PrefixAppend(path, n.key);
      assert e.0[|path|..] == n.key;
    } else {
      WalkFinds(n.child, path + n.key, e);
      FoundBelow(path, n.key, e.0);
    }
  }

  /** A leaf whose key is a prefix of the bound is kept exactly when it is the bound. */
  lemma {:induction false} FromLeaf(n: Node, path: Nibbles, k: Nibbles)
    requires WellFormed(n) && n.Leaf? && IsPrefix(n.key, k)
    ensures From(Walk(n, path), path + k) == if k == n.key then Walk(n, path) else []
  {
    LessAppend(path, n.key, k);
    LessAppend(n.key, [], k[|n.key|..]);
    assert n.key + [] == n.key && n.key + k[|n.key|..] == k;
  }

  /** A branch below a bound: its value and the slots before are dropped, the slots after are kept. */
  lemma {:induction false} FromBranch(b: Node, path: Nibbles, k: Nibbles)
    requires WellFormed(b) && b.Branch? && k != []
    ensures From(Walk(b, path), path + k) == FromKid(b, k[0], path, k[1..])
  {
    var own := if b.value == [] then [] else [(path, b.value)];
    assert AllLess(own, path + k) by {
      LessAppend(path, [], k);
      assert path + [] == path;
    }
    FromSkips(own, WalkKids(b, 0, path), path + k);
    FromKids(b, 0, path, k);
  }

  /** What a bound leaves of a slot, and all of the slots after it. */
  function FromKid(b: Node, i: nat, path: Nibbles, k: Nibbles): seq<Entry>
    requires WellFormed(b) && b.Branch? && i < 16
  {
    From(Walk(b.kids[i], path + [i]), path + [i] + k) + WalkKids(b, i + 1, path)
  }

  lemma {:induction false} FromKids(b: Node, i: nat, path: Nibbles, k: Nibbles)
    requires WellFormed(b) && b.Branch? && k != [] && i <= k[0]
    ensures From(WalkKids(b, i, path), path + k) == FromKid(b, k[0], path, k[1..])
    decreases k[0] - i
  {
    var here, later := Walk(b.kids[i], path + [i]), WalkKids(b, i + 1, path);
    KidsAround(b, i, path, k);
    if i < k[0] {
      FromSkips(here, later, path + k);
      FromKids(b, i + 1, path, k);
    } else {
      FromSplit(here, later, path + k);
      assert path + [i] + k[1..] == path + k;
    }
  }

  lemma {:induction false} KidsAround(b: Node, i: nat, path: Nibbles, k: Nibbles)
    requires WellFormed(b) && b.Branch? && k != [] && i <= k[0]
    ensures i < k[0] ==> AllLess(Walk(b.kids[i], path + [i]), path + k)
    ensures i == k[0] ==> NoneLess(WalkKids(b, i + 1, path), path + k)
  {
    var key := path + k;
    PrefixAppend(path, k);
    if i < k[0] {
      forall e | e in Walk(b.kids[i], path + [i])
        ensures Less(e.0, key)
      {
        KidKey(b, i, path, e);
        NextDecides(path, e.0, key);
      }
    } else {
      forall e | e in WalkKids(b, i + 1, path)
        ensures !Less(e.0, key)
      {
        var j := KidsFind(b, i + 1, path, e);
        NextDecides(path, key, e.0);
        LessTotal(key, e.0);
      }
    }
  }

  // Slot numbers of a frame besides 0..15 for the children.
  const ENTERING := 255
  const VALUE := 16
  const FINISHED := 17

  /** The order in which the slots of a branch are visited: 16, 0, 1, .., 15, 17. */
  function Increment(child: nat): nat {
    if child == VALUE then 0 else if child == 15 then FINISHED else child + 1
  }

  // ---- the trail as values ----

  /** A node on the trail, the path that leads to it, and the slot that is being visited. */
  datatype Spot = Spot(node: Node, path: Nibbles, child: nat)

  ghost predicate InPlace(s: Spot) {
    && Normal(s.node)
    && (s.child == ENTERING || (s.node.Leaf? && s.child == 0) || (s.node.Branch? && s.child <= VALUE))
  }

  ghost predicate AllInPlace(spots: seq<Spot>) {
    forall i :: 0 <= i < |spots| ==> InPlace(spots[i])
  }

  /** A spot that shows an entry. */
  ghost predicate Shows(s: Spot) {
    (s.node.Leaf? && s.child == 0) || (s.node.Branch? && s.child == VALUE)
  }

  ghost function Shown(s: Spot): Entry
    requires Shows(s)
  {
    (s.path, s.node.value)
  }

  /** The entries of a branch from a slot on, in the order of the visit. */
  ghost function FromSlot(b: Node, c: nat, path: Nibbles): seq<Entry>
    requires Normal(b) && b.Branch? && c <= FINISHED
  {
    if c == FINISHED then [] else if c == VALUE then Walk(b, path) else WalkKids(b, c, path)
  }

  /** The entries that a spot still has to deliver. */
  ghost function Remaining(s: Spot): seq<Entry>
    requires InPlace(s)
  {
    if s.child == ENTERING then Walk(s.node, s.path)
    else if s.node.Leaf? then []
    else FromSlot(s.node, Increment(s.child), s.path)
  }

  /** The entries that a trail still has to deliver, the innermost node first. */
  ghost function Pending(spots: seq<Spot>): seq<Entry>
    requires AllInPlace(spots)
  {
    if spots == [] then []
    else
      var last := |spots| - 1;
      Remaining(spots[last]) + Pending(spots[..last])
  }

  lemma PendingNothing()
    ensures Pending([]) == []
  {
  }

  lemma {:induction false} PendingPush(spots: seq<Spot>, s: Spot)
    requires AllInPlace(spots) && InPlace(s)
    ensures AllInPlace(spots + [s])
    ensures Pending(spots + [s]) == Remaining(s) + Pending(spots)
    ensures Work(spots + [s]) == Load(s) + Work(spots)
  {
    assert (spots + [s])[..|spots|] == spots;
  }

  ghost function Top(spots: seq<Spot>): Spot
    requires spots != []
  {
    spots[|spots| - 1]
  }

  ghost function Outer(spots: seq<Spot>): seq<Spot>
    requires spots != []
  {
    spots[..|spots| - 1]
  }

  /** A bound is looked for only in a node that is being entered. */
  ghost predicate Bound(spots: seq<Spot>, k: Nibbles) {
    k != [] ==> spots != [] && Top(spots).child == ENTERING
  }

  /** The entries ahead of a trail that is on its way to a bound below its innermost node. */
  ghost function Ahead(spots: seq<Spot>, k: Nibbles): seq<Entry>
    requires AllInPlace(spots) && Bound(spots, k)
  {
    if k == [] then Pending(spots)
    else From(Walk(Top(spots).node, Top(spots).path), Top(spots).path + k) + Pending(Outer(spots))
  }

  lemma {:induction false} AheadEntering(spots: seq<Spot>, k: Nibbles)
    requires AllInPlace(spots) && spots != [] && Top(spots).child == ENTERING
    ensures Ahead(spots, k) == From(Walk(Top(spots).node, Top(spots).path), Top(spots).path + k) + Pending(Outer(spots))
    ensures Work(spots) == NodeLoad(Top(spots).node) + Work(Outer(spots))
  {
    FromPath(Top(spots).node, Top(spots).path);
    assert Top(spots).path + [] == Top(spots).path;
  }

  // ---- the work left, for termination ----

  ghost function NodeLoad(n: Node): nat
    requires Normal(n)
    decreases n, 17
  {
    match n
    case Null => 1
    case Leaf(_, _) => 2
    case Ext(_, c) => 1 + NodeLoad(c)
    case Branch(_, _) => 3 + KidsLoad(n, 0)
  }

  ghost function KidsLoad(b: Node, i: nat): nat
    requires Normal(b) && b.Branch? && i <= 16
    decreases b, 16 - i
  {
    if i == 16 then 0 else 1 + NodeLoad(b.kids[i]) + KidsLoad(b, i + 1)
  }

  ghost function SlotLoad(b: Node, c: nat): nat
    requires Normal(b) && b.Branch? && c <= FINISHED
  {
    if c == FINISHED then 0 else if c == VALUE then 2 + KidsLoad(b, 0) else KidsLoad(b, c)
  }

  ghost function Load(s: Spot): nat
    requires InPlace(s)
  {
    if s.child == ENTERING then NodeLoad(s.node)
    else if s.node.Leaf? then 1
    else 1 + SlotLoad(s.node, Increment(s.child))
  }

  ghost function Work(spots: seq<Spot>): nat
    requires AllInPlace(spots)
  {
    if spots == [] then 0
    else
      var last := |spots| - 1;
      Load(spots[last]) + Work(spots[..last])
  }

  lemma {:induction false} KidsLoadShrinks(b: Node, i: nat)
    requires Normal(b) && b.Branch? && i <= 16
    ensures KidsLoad(b, i) <= KidsLoad(b, 0)
    decreases i
  {
    if i > 0 { KidsLoadShrinks(b, i - 1); }
  }

  // ---- one slot of a branch ----

  lemma {:induction false} SlotOf(b: Node, c: nat, path: Nibbles)
    requires Normal(b) && b.Branch? && c < 16
    ensures FromSlot(b, c, path) == Walk(b.kids[c], path + [c]) + FromSlot(b, Increment(c), path)
    ensures SlotLoad(b, c) == 1 + NodeLoad(b.kids[c]) + SlotLoad(b, Increment(c))
  {
    assert WalkKids(b, c, path) == Walk(b.kids[c], path + [c]) + WalkKids(b, c + 1, path);
    assert KidsLoad(b, c) == 1 + NodeLoad(b.kids[c]) + KidsLoad(b, c + 1);
    assert WalkKids(b, 16, path) == [] && KidsLoad(b, 16) == 0;
  }

  /** An empty slot adds nothing. */
  lemma {:induction false} SlotSkipped(b: Node, c: nat, path: Nibbles)
    requires Normal(b) && b.Branch? && c <= VALUE && !Used(b, c)
    ensures FromSlot(b, Increment(c), path) == FromSlot(b, c, path)
    ensures SlotLoad(b, Increment(c)) <= SlotLoad(b, c)
  {
    if c < 16 {
      SlotOf(b, c, path);
      assert Walk(Null, path + [c]) == [];
    }
  }

  lemma NothingLeft(s: Spot, below: seq<Spot>)
    requires InPlace(s) && s.node.Branch? && AllInPlace(below)
    ensures FromSlot(s.node, FINISHED, s.path) + Pending(below) == Pending(below)
  {
  }

  /** The value of a branch is delivered, and the children are left. */
  lemma ValueShown(s: Spot, below: seq<Spot>)
    requires InPlace(s) && s.node.Branch? && Used(s.node, VALUE) && AllInPlace(below)
    ensures var v := Spot(s.node, s.path, VALUE);
      && InPlace(v) && Shows(v)
      && [Shown(v)] + (Remaining(v) + Pending(below)) == FromSlot(s.node, VALUE, s.path) + Pending(below)
  {
  }

  /** A child that is entered takes its own entries over. */
  lemma {:induction false} KidEntered(s: Spot, c: Nibble, below: seq<Spot>)
    requires InPlace(s) && s.node.Branch? && AllInPlace(below)
    ensures var v, kid := Spot(s.node, s.path, c), Spot(s.node.kids[c], s.path + [c], ENTERING);
      && InPlace(v) && InPlace(kid)
      && Remaining(kid) + (Remaining(v) + Pending(below)) == FromSlot(s.node, c, s.path) + Pending(below)
      && Load(kid) + Load(v) == SlotLoad(s.node, c)
  {
    hide Walk, WalkKids, KidsLoad, NodeLoad, Pending, FromSlot, SlotLoad, AllInPlace;
    SlotOf(s.node, c, s.path);
    var v, kid := Spot(s.node, s.path, c), Spot(s.node.kids[c], s.path + [c], ENTERING);
    assert Remaining(kid) + Remaining(v) == FromSlot(s.node, c, s.path);
  }

  // ---- one turn of the search ----

  /** A turn either shows the first entry ahead or leaves the same entries ahead with less work. */
  ghost predicate Turned(before: seq<Spot>, k: Nibbles, after: seq<Spot>, stop: bool, rest: Nibbles)
    requires AllInPlace(before) && Bound(before, k) && AllInPlace(after)
  {
    if stop then after != [] && Shows(Top(after)) && Ahead(before, k) == [Shown(Top(after))] + Pending(after)
    else Bound(after, rest) && Ahead(after, rest) == Ahead(before, k) && Work(after) < Work(before)
  }

  ghost predicate Entering(spots: seq<Spot>) {
    AllInPlace(spots) && spots != [] && Top(spots).child == ENTERING
  }

  /** A node with nothing at or after the bound is left. */
  lemma {:induction false} Skipped(before: seq<Spot>, k: Nibbles)
    requires Entering(before) && From(Walk(Top(before).node, Top(before).path), Top(before).path + k) == []
    ensures Turned(before, k, Outer(before), false, [])
  {
    AheadEntering(before, k);
  }

  lemma NullAhead(before: seq<Spot>, k: Nibbles)
    requires Entering(before) && Top(before).node.Null?
    ensures From(Walk(Top(before).node, Top(before).path), Top(before).path + k) == []
  {
  }

  lemma {:induction false} LeafLeft(s: Spot, k: Nibbles, left: Nibbles)
    requires InPlace(s) && s.node.Leaf?
    requires if IsPrefix(s.node.key, k) then left == k[|s.node.key|..] else left == [] && Less(k, s.node.key)
    ensures From(Walk(s.node, s.path), s.path + k) == if left == [] then Walk(s.node, s.path) else []
  {
    if IsPrefix(s.node.key, k) {
      FromLeaf(s.node, s.path, k);
      assert left == [] <==> k == s.node.key;
    } else {
      FromParted(s.node, s.path, k);
    }
  }

  lemma {:induction false} LeafShown(before: seq<Spot>, k: Nibbles, after: seq<Spot>)
    requires Entering(before) && Top(before).node.Leaf?
    requires var s := Top(before);
      && From(Walk(s.node, s.path), s.path + k) == Walk(s.node, s.path)
      && after == Outer(before) + [Spot(s.node, s.path + s.node.key, 0)]
    ensures AllInPlace(after) && Turned(before, k, after, true, [])
  {
    var s := Top(before);
    AheadEntering(before, k);
    PendingPush(Outer(before), Spot(s.node, s.path + s.node.key, 0));
    assert [] + Pending(Outer(before)) == Pending(Outer(before));
  }

  lemma {:induction false} ExtLeft(s: Spot, k: Nibbles, left: Nibbles)
    requires InPlace(s) && s.node.Ext?
    requires if IsPrefix(s.node.key, k) then left == k[|s.node.key|..] else left == [] && Less(k, s.node.key)
    ensures var path := s.path + s.node.key;
      From(Walk(s.node, s.path), s.path + k) == From(Walk(s.node.child, path), path + left)
  {
    var path := s.path + s.node.key;
    if IsPrefix(s.node.key, k) {
      assert path + left == s.path + k;
    } else {
      FromParted(s.node, s.path, k);
      FromPath(s.node.child, path);
      assert path + left == path;
    }
  }

  lemma {:induction false} ChildTurned(before: seq<Spot>, k: Nibbles, after: seq<Spot>, left: Nibbles)
    requires Entering(before) && Top(before).node.Ext?
    requires var s := Top(before);
      var path := s.path + s.node.key;
      && From(Walk(s.node, s.path), s.path + k) == From(Walk(s.node.child, path), path + left)
      && after == Outer(before) + [Spot(s.node.child, path, ENTERING)]
    ensures AllInPlace(after) && Turned(before, k, after, false, left)
  {
    var s := Top(before);
    AheadEntering(before, k);
    PendingPush(Outer(before), Spot(s.node.child, s.path + s.node.key, ENTERING));
    assert Outer(after) == Outer(before);
    AheadEntering(after, left);
  }

  /** A bound that leads into a child is followed there. */
  lemma {:induction false} KidTurned(before: seq<Spot>, k: Nibbles, after: seq<Spot>)
    requires Entering(before) && Top(before).node.Branch? && k != []
    requires var b := Top(before);
      after == Outer(before) + [Spot(b.node, b.path, k[0])] + [Spot(b.node.kids[k[0]], b.path + [k[0]], ENTERING)]
    ensures AllInPlace(after) && Turned(before, k, after, false, k[1..])
  {
    hide Walk, Pending, From, Work;
    var b := Top(before);
    var v, kid := Spot(b.node, b.path, k[0]), Spot(b.node.kids[k[0]], b.path + [k[0]], ENTERING);
    AheadEntering(before, k);
    FromBranch(b.node, b.path, k);
    KidEntered(b, k[0], Outer(before));
    PendingPush(Outer(before), v);
    PendingPush(Outer(before) + [v], kid);
    assert Outer(after) == Outer(before) + [v];
    AheadEntering(after, k[1..]);
    KidsLoadShrinks(b.node, k[0]);
  }

  /** Otherwise the branch is visited from the first slot that can hold the bound. */
  lemma {:induction false} BranchAhead(before: seq<Spot>, k: Nibbles)
    requires Entering(before) && Top(before).node.Branch?
    requires k != [] ==> Top(before).node.kids[k[0]] == Null
    ensures var b, first := Top(before), if k == [] then VALUE else k[0];
      && Ahead(before, k) == FromSlot(b.node, first, b.path) + Pending(Outer(before))
      && SlotLoad(b.node, first) + Work(Outer(before)) < Work(before)
  {
    var b := Top(before);
    AheadEntering(before, k);
    if k == [] {
      FromPath(b.node, b.path);
      assert b.path + k == b.path;
    } else {
      FromBranch(b.node, b.path, k);
      assert Walk(Null, b.path + [k[0]]) == [];
      KidsLoadShrinks(b.node, k[0]);
    }
  }

  /** Going on from a slot that was visited. */
  lemma GoingOn(before: seq<Spot>)
    requires AllInPlace(before) && before != [] && Top(before).child != ENTERING && Top(before).node.Branch?
    ensures var b := Top(before);
      && Ahead(before, []) == FromSlot(b.node, Increment(b.child), b.path) + Pending(Outer(before))
      && SlotLoad(b.node, Increment(b.child)) + Work(Outer(before)) < Work(before)
  {
  }

  lemma {:induction false} LeafLeftBehind(before: seq<Spot>)
    requires AllInPlace(before) && before != [] && Top(before).child != ENTERING && Top(before).node.Leaf?
    ensures Turned(before, [], Outer(before), false, [])
  {
    assert [] + Pending(Outer(before)) == Pending(Outer(before));
  }
}
