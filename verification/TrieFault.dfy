/**
 On which keys removal goes astray, told from what is stored before it starts.
 */
module TrieFault {
  import opened HexPrefix
  import opened Trie
  import opened TrieDelete
  import opened Options

  predicate Stored(n: Node, k: Nibbles)
    requires WellFormed(n)
  {
    At(n, k) != []
  }

  predicate ProperPrefix(j: Nibbles, k: Nibbles) {
    IsPrefix(j, k) && |j| < |k|
  }

  /** `j` is stored, lies on the way to `k`, and nothing stored goes on past it. */
  ghost predicate Dangling(n: Node, k: Nibbles, j: Nibbles)
    requires WellFormed(n)
  {
    && Stored(n, j) && ProperPrefix(j, k)
    && forall l :: Stored(n, l) && IsPrefix(j, l) ==> l == j
  }

  /** `k` alone goes on past the stored `j`, whose value is taken for a hash once the leaf of `k` is gone. */
  ghost predicate Lone(takes: Taker, n: Node, k: Nibbles, j: Nibbles)
    requires WellFormed(n)
  {
    && Stored(n, j) && ProperPrefix(j, k) && Stored(n, k) && takes(Leaf(k[|j| + 1..], At(n, k)), At(n, j))
    && forall l :: Stored(n, l) && IsPrefix(j, l) ==> l == j || l == k
  }

  ghost predicate Part(n: Node, k: Nibbles, l: Nibbles, m: Nibbles)
    requires WellFormed(n)
  {
    Stored(n, l) && Stored(n, m) && ProperPrefix(k, l) && ProperPrefix(k, m) && l[|k|] != m[|k|]
  }

  /** `k` is not stored, but stored keys part right after it. */
  ghost predicate Parting(n: Node, k: Nibbles)
    requires WellFormed(n)
  {
    !Stored(n, k) && exists l, m :: Part(n, k, l, m)
  }

  ghost predicate Clash(takes: Taker, n: Node, k: Nibbles)
    requires WellFormed(n)
  {
    (exists j :: Dangling(n, k, j)) || (exists j :: Lone(takes, n, k, j)) || Parting(n, k)
  }

  // ---- the three situations, seen from a subtree ----

  /** The lookups of `n` below the prefix `p` are those of `c`. */
  ghost predicate Holds(n: Node, p: Nibbles, c: Node)
    requires WellFormed(n) && WellFormed(c)
  {
    forall l: Nibbles :: At(n, p + l) == At(c, l)
  }

  lemma {:induction false} PrefixShift(p: Nibbles, j: Nibbles, k: Nibbles)
    ensures IsPrefix(p + j, p + k) <==> IsPrefix(j, k)
    ensures p + j == p + k <==> j == k
  {
    assert (p + k)[|p|..] == k && (p + j)[|p|..] == j;
    if |j| <= |k| {
      assert (p + k)[..|p + j|] == p + k[..|j|];
      assert (p + k[..|j|])[|p|..] == k[..|j|];
    }
  }

  lemma {:induction false} Rest(p: Nibbles, j: Nibbles, l: Nibbles) returns (rest: Nibbles)
    requires IsPrefix(p + j, l)
    ensures l == p + rest && IsPrefix(j, rest)
  {
    rest := l[|p|..];
    PrefixAppend(p, j);
    PrefixTrans(p, p + j, l);
    assert l == p + rest;
    PrefixShift(p, j, rest);
  }

  lemma {:induction false} DanglingShift(n: Node, p: Nibbles, c: Node, k: Nibbles, j: Nibbles)
    requires WellFormed(n) && WellFormed(c) && Holds(n, p, c)
    ensures Dangling(n, p + k, p + j) <==> Dangling(c, k, j)
  {
    assert At(n, p + j) == At(c, j);
    PrefixShift(p, j, k);
    if Dangling(c, k, j) {
      forall l | Stored(n, l) && IsPrefix(p + j, l) ensures l == p + j {
        var rest := Rest(p, j, l);
      }
    }
    if Dangling(n, p + k, p + j) {
      forall l | Stored(c, l) && IsPrefix(j, l) ensures l == j {
        PrefixShift(p, j, l);
        assert At(n, p + l) == At(c, l);
      }
    }
  }

  lemma {:induction false} LoneShift(takes: Taker, n: Node, p: Nibbles, c: Node, k: Nibbles, j: Nibbles)
    requires WellFormed(n) && WellFormed(c) && Holds(n, p, c)
    ensures Lone(takes, n, p + k, p + j) <==> Lone(takes, c, k, j)
  {
    assert At(n, p + j) == At(c, j) && At(n, p + k) == At(c, k);
    PrefixShift(p, j, k);
    assert |j| < |k| ==> (p + k)[|p + j| + 1..] == k[|j| + 1..];
    if Lone(takes, c, k, j) {
      forall l | Stored(n, l) && IsPrefix(p + j, l) ensures l == p + j || l == p + k {
        var rest := Rest(p, j, l);
      }
    }
    if Lone(takes, n, p + k, p + j) {
      forall l | Stored(c, l) && IsPrefix(j, l) ensures l == j || l == k {
        PrefixShift(p, j, l);
        PrefixShift(p, k, l);
        assert At(n, p + l) == At(c, l);
      }
    }
  }

  lemma {:induction false} PartShift(n: Node, p: Nibbles, c: Node, k: Nibbles, l: Nibbles, m: Nibbles)
    requires WellFormed(n) && WellFormed(c) && Holds(n, p, c)
    ensures Part(n, p + k, p + l, p + m) <==> Part(c, k, l, m)
  {
    PrefixShift(p, k, l);
    PrefixShift(p, k, m);
    assert At(n, p + l) == At(c, l) && At(n, p + m) == At(c, m);
  }

  lemma {:induction false} PartingShift(n: Node, p: Nibbles, c: Node, k: Nibbles)
    requires WellFormed(n) && WellFormed(c) && Holds(n, p, c)
    ensures Parting(n, p + k) <==> Parting(c, k)
  {
    assert At(n, p + k) == At(c, k);
    if Parting(c, k) {
      var l, m :| Part(c, k, l, m);
      PartShift(n, p, c, k, l, m);
    }
    if Parting(n, p + k) {
      var l, m :| Part(n, p + k, l, m);
      var l' := Rest(p, k, l);
      var m' := Rest(p, k, m);
      PartShift(n, p, c, k, l', m');
    }
  }

  lemma {:induction false} ClashRises(takes: Taker, n: Node, p: Nibbles, c: Node, k: Nibbles)
    requires WellFormed(n) && WellFormed(c) && Holds(n, p, c)
    requires Clash(takes, c, k)
    ensures Clash(takes, n, p + k)
  {
    if j :| Dangling(c, k, j) {
      DanglingShift(n, p, c, k, j);
    } else if j :| Lone(takes, c, k, j) {
      LoneShift(takes, n, p, c, k, j);
    } else {
      PartingShift(n, p, c, k);
    }
  }

  /** A clash comes from below unless its stored key `j` is not under `p`. */
  lemma {:induction false} ClashSinks(takes: Taker, n: Node, p: Nibbles, c: Node, k: Nibbles)
    requires WellFormed(n) && WellFormed(c) && Holds(n, p, c)
    requires forall j :: Dangling(n, p + k, j) || Lone(takes, n, p + k, j) ==> IsPrefix(p, j)
    requires Clash(takes, n, p + k)
    ensures Clash(takes, c, k)
  {
    if j :| Dangling(n, p + k, j) {
      assert j == p + j[|p|..];
      DanglingShift(n, p, c, k, j[|p|..]);
    } else if j :| Lone(takes, n, p + k, j) {
      assert j == p + j[|p|..];
      LoneShift(takes, n, p, c, k, j[|p|..]);
    } else {
      PartingShift(n, p, c, k);
    }
  }

  // ---- the cases of removal ----

  lemma {:induction false} FaultAtLeaf(takes: Taker, n: Node, k: Nibbles)
    requires n.Leaf? && Normal(n)
    ensures Deleted(takes, n, k).Fault? <==> Clash(takes, n, k)
  {
    if Deleted(takes, n, k).Fault? {
      assert Dangling(n, k, n.key);
    }
    assert forall l, m :: !Part(n, k, l, m);
  }

  lemma {:induction false} ExtHolds(n: Node)
    requires n.Ext? && WellFormed(n)
    ensures Holds(n, n.key, n.child)
    ensures forall l :: Stored(n, l) ==> IsPrefix(n.key, l)
  {
    forall l: Nibbles ensures At(n, n.key + l) == At(n.child, l) { PrefixAppend(n.key, l); }
  }

  /** Keys that leave an extension clash with nothing. */
  lemma {:induction false} NoClashBesideExt(takes: Taker, n: Node, k: Nibbles)
    requires n.Ext? && Normal(n) && !IsPrefix(n.key, k)
    ensures !Clash(takes, n, k)
  {
    ExtHolds(n);
    var p := n.key;
    forall j | Stored(n, j) ensures !IsPrefix(j, k) { PrefixTrans(p, j, k); }
    forall l, m | Stored(n, l) && Stored(n, m) && ProperPrefix(k, l) && ProperPrefix(k, m)
      ensures l[|k|] == m[|k|]
    {
      SameStep(p, k, l, m);
    }
  }

  lemma {:induction false} Comparable(p: Nibbles, k: Nibbles, l: Nibbles)
    requires IsPrefix(p, l) && IsPrefix(k, l) && |p| <= |k|
    ensures IsPrefix(p, k)
  {
    assert k[..|p|] == l[..|k|][..|p|] == l[..|p|];
  }

  /** Two keys under `p` agree right after `k` when `k` stops short of `p`. */
  lemma {:induction false} SameStep(p: Nibbles, k: Nibbles, l: Nibbles, m: Nibbles)
    requires IsPrefix(p, l) && IsPrefix(p, m) && !IsPrefix(p, k) && ProperPrefix(k, l) && ProperPrefix(k, m)
    ensures l[|k|] == m[|k|]
  {
    if |p| <= |k| { Comparable(p, k, l); }
    assert l[|k|] == l[..|p|][|k|] && m[|k|] == m[..|p|][|k|];
  }

  lemma {:induction false} KidHolds(n: Node, i: Nibble)
    requires n.Branch? && WellFormed(n)
    ensures Holds(n, [i], n.kids[i])
  {
    forall l: Nibbles ensures At(n, [i] + l) == At(n.kids[i], l) { assert ([i] + l)[1..] == l; }
  }

  lemma {:induction false} FaultAtBranchEnd(takes: Taker, n: Node)
    requires n.Branch? && Normal(n)
    ensures Deleted(takes, n, []).Fault? <==> Clash(takes, n, [])
  {
    if n.value == [] {
      var k, l := PartingKeys(n);
      assert Part(n, [], k, l);
    } else {
      ScanWithoutValue(n, Branch(n.kids, []));
    }
  }

  /** Only slot 16 survives exactly when the removed key was alone beside the branch's own. */
  lemma {:induction false} SlotSixteenAlone(n: Node, k: Nibbles, m: Node)
    requires n.Branch? && Normal(n) && k != [] && n.value != []
    requires Deletes(n.kids[k[0]], k[1..], m)
    ensures var b := Branch(n.kids[k[0] := m], n.value);
      Only(b, NONE, 16) <==> forall l: Nibbles :: Stored(n, l) ==> l == [] || l == k
  {
    var b := Branch(n.kids[k[0] := m], n.value);
    assert Used(b, 16);
    assert forall l: Nibbles :: At(b, l) == if l == k then [] else At(n, l) by {
      forall l: Nibbles ensures At(b, l) == if l == k then [] else At(n, l) {
        if l != [] && l[0] == k[0] {
          assert l == [k[0]] + l[1..] && k == [k[0]] + k[1..];
        }
      }
    }
    if Only(b, NONE, 16) {
      forall l: Nibbles | Stored(n, l) ensures l == [] || l == k {
        if l != [] {
          assert !Used(b, l[0]);
          assert At(b, l) == [];
        }
      }
    } else {
      var i :| 0 <= i < 16 && Used(b, i);
      var l := KeyInSlot(b, i);
      assert Stored(n, l) && l != [] && l != k;
    }
  }

  lemma {:induction false} ValueClash(takes: Taker, n: Node, k: Nibbles)
    requires n.Branch? && Normal(n) && k != []
    ensures !Dangling(n, k, [])
    ensures Lone(takes, n, k, []) <==>
      && Stored(n, k) && Stored(n, []) && takes(Leaf(k[1..], At(n, k)), n.value)
      && (forall l: Nibbles :: Stored(n, l) ==> l == [] || l == k)
  {
    var x, y := PartingKeys(n);
    assert IsPrefix([], x) && IsPrefix([], y);
    assert forall l: Nibbles :: IsPrefix([], l);
  }

  lemma {:induction false} FaultAtBranch(takes: Taker, n: Node, k: Nibbles)
    requires n.Branch? && Normal(n) && k != []
    requires Deleted(takes, n.kids[k[0]], k[1..]).Fault? <==> Clash(takes, n.kids[k[0]], k[1..])
    ensures Deleted(takes, n, k).Fault? <==> Clash(takes, n, k)
  {
    var c, rest, p := n.kids[k[0]], k[1..], [k[0]];
    assert k == p + rest;
    KidHolds(n, k[0]);
    assert At(n, p + rest) == At(c, rest);
    ValueClash(takes, n, k);
    var d := Deleted(takes, c, rest);
    DeletedDeletes(takes, c, rest);
    if d.Fault? {
      ClashRises(takes, n, p, c, rest);
    } else if d.Removed? {
      FaultOnCollapse(takes, n, k, d.node);
      if Clash(takes, n, k) && !Lone(takes, n, k, []) {
        NoClashOffPath(takes, n, k);
        ClashSinks(takes, n, p, c, rest);
      }
    } else if Clash(takes, n, k) {
      NoClashOffPath(takes, n, k);
      ClashSinks(takes, n, p, c, rest);
    }
  }

  /** Apart from the branch's own value, a clashing key starts as `k` does. */
  lemma {:induction false} NoClashOffPath(takes: Taker, n: Node, k: Nibbles)
    requires n.Branch? && Normal(n) && k != [] && !Lone(takes, n, k, [])
    ensures forall j :: Dangling(n, k, j) || Lone(takes, n, k, j) ==> IsPrefix([k[0]], j)
  {
    ValueClash(takes, n, k);
    forall j | Dangling(n, k, j) || Lone(takes, n, k, j) ensures IsPrefix([k[0]], j) {
      assert j != [];
      PrefixHead(j, k);
      assert j[..1] == [k[0]];
    }
  }

  /** When the value is all that is left, what went was the leaf of the removed key. */
  lemma {:induction false} LeafBeside(takes: Taker, n: Node, k: Nibbles, m: Node)
    requires n.Branch? && Normal(n) && k != [] && Stored(n, k)
    requires Deleted(takes, n.kids[k[0]], k[1..]) == Removed(m)
    requires Only(Branch(n.kids[k[0] := m], n.value), NONE, 16)
    ensures n.kids[k[0]] == Leaf(k[1..], At(n, k))
  {
    assert !Used(Branch(n.kids[k[0] := m], n.value), k[0]);
    DeletedDeletes(takes, n.kids[k[0]], k[1..]);
  }

  lemma {:induction false} FaultOnCollapse(takes: Taker, n: Node, k: Nibbles, m: Node)
    requires n.Branch? && Normal(n) && k != []
    requires Deleted(takes, n.kids[k[0]], k[1..]) == Removed(m)
    requires Deletes(n.kids[k[0]], k[1..], m) && Stored(n, k)
    ensures Rejigged(Branch(n.kids[k[0] := m], n.value), takes(n.kids[k[0]], n.value)).Fault? <==> Lone(takes, n, k, [])
  {
    var b := Branch(n.kids[k[0] := m], n.value);
    UniqueInUseIs(b, NONE);
    ValueClash(takes, n, k);
    var u := UniqueInUse(b, NONE);
    if n.value == [] {
      assert !Used(b, 16);
    } else {
      SlotSixteenAlone(n, k, m);
      if u == 16 { LeafBeside(takes, n, k, m); }
    }
  }

  /** Removal goes astray on exactly the clashing keys. */
  lemma {:induction false} FaultExactly(takes: Taker, n: Node, k: Nibbles)
    requires Normal(n)
    ensures Deleted(takes, n, k).Fault? <==> Clash(takes, n, k)
    decreases n
  {
    match n
    case Null =>
    case Leaf(_, _) => FaultAtLeaf(takes, n, k);
    case Ext(p, c) =>
      if IsPrefix(p, k) {
        var rest := k[|p|..];
        FaultExactly(takes, c, rest);
        ExtHolds(n);
        assert k == p + rest;
        if Clash(takes, c, rest) { ClashRises(takes, n, p, c, rest); }
        if Clash(takes, n, k) { ClashSinks(takes, n, p, c, rest); }
      } else {
        NoClashBesideExt(takes, n, k);
      }
    case Branch(kids, _) =>
      if k == [] {
        FaultAtBranchEnd(takes, n);
      } else {
        FaultExactly(takes, kids[k[0]], k[1..]);
        FaultAtBranch(takes, n, k);
      }
  }

  /** Removal stops at a leaf exactly on a dangling key, and there is only one such leaf. */
  lemma {:induction false} StoppedExactly(n: Node, k: Nibbles)
    requires Normal(n)
    ensures Stopped(n, k).Some? ==> exists j :: Dangling(n, k, j) && At(n, j) == Stopped(n, k).value
    ensures forall j :: Dangling(n, k, j) ==> Stopped(n, k) == Some(At(n, j))
    decreases n
  {
    match n
    case Null =>
    case Leaf(p, _) =>
      if Stopped(n, k).Some? { assert Dangling(n, k, p); }
    case Ext(p, c) =>
      if IsPrefix(p, k) {
        StoppedExactly(c, k[|p|..]);
        ExtHolds(n);
        assert k == p + k[|p|..];
        StoppedBelow(n, p, c, k[|p|..]);
      } else {
        NoClashBesideExt(Never, n, k);
      }
    case Branch(kids, _) =>
      if k != [] {
        StoppedExactly(kids[k[0]], k[1..]);
        KidHolds(n, k[0]);
        assert k == [k[0]] + k[1..];
        DanglingOnPath(n, k);
        StoppedBelow(n, [k[0]], kids[k[0]], k[1..]);
      }
  }

  lemma {:induction false} DanglingOnPath(n: Node, k: Nibbles)
    requires n.Branch? && Normal(n) && k != []
    ensures forall j :: Dangling(n, k, j) ==> IsPrefix([k[0]], j)
  {
    ValueClash(Never, n, k);
    forall j | Dangling(n, k, j)
      ensures IsPrefix([k[0]], j)
    {
      PrefixHead(j, k);
      assert j[..1] == [k[0]];
    }
  }

  lemma {:induction false} StoppedBelow(n: Node, p: Nibbles, c: Node, k: Nibbles)
    requires Normal(n) && Normal(c) && Holds(n, p, c) && Stopped(n, p + k) == Stopped(c, k)
    requires forall j :: Dangling(n, p + k, j) ==> IsPrefix(p, j)
    requires Stopped(c, k).Some? ==> exists j :: Dangling(c, k, j) && At(c, j) == Stopped(c, k).value
    requires forall j :: Dangling(c, k, j) ==> Stopped(c, k) == Some(At(c, j))
    ensures Stopped(n, p + k).Some? ==> exists j :: Dangling(n, p + k, j) && At(n, j) == Stopped(n, p + k).value
    ensures forall j :: Dangling(n, p + k, j) ==> Stopped(n, p + k) == Some(At(n, j))
  {
    hide Stopped, Dangling, Normal;
    if Stopped(c, k).Some? {
      var j :| Dangling(c, k, j) && At(c, j) == Stopped(c, k).value;
      DanglingShift(n, p, c, k, j);
      assert At(n, p + j) == At(c, j);
    }
    forall j | Dangling(n, p + k, j)
      ensures Stopped(n, p + k) == Some(At(n, j))
    {
      var i := j[|p|..];
      assert j == p + i;
      DanglingShift(n, p, c, k, i);
      assert At(n, p + i) == At(c, i);
    }
  }

  /** On a prefix-free set of keys removal never faults. */
  lemma {:induction false} PrefixFreeNeverFaults(takes: Taker, n: Node, k: Nibbles)
    requires Normal(n)
    requires forall j :: Stored(n, j) ==> !ProperPrefix(j, k) && !ProperPrefix(k, j)
    ensures !Deleted(takes, n, k).Fault?
  {
    FaultExactly(takes, n, k);
    assert forall l, m :: !Part(n, k, l, m);
  }

  /** Removal of a longer key runs into the value of a leaf: for one, over the empty key alone. */
  lemma RemovalCanFault(takes: Taker)
    ensures Normal(Leaf([], [7])) && Deleted(takes, Leaf([], [7]), [1, 2]).Fault?
  {
    assert IsPrefix([], [1, 2]);
  }
}
