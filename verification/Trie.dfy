/**
 The Merkle Patricia trie as a tree of values: lookup, insertion and removal
 with the reshaping steps of the node store's trie, and the normal form that
 makes the tree a function of its contents.
 */
module Trie {
  import opened Rlp
  import opened HexPrefix

  datatype Node =
    | Null
    | Leaf(key: Nibbles, value: Bytes)
    | Ext(key: Nibbles, child: Node)
    | Branch(kids: seq<Node>, value: Bytes)

  const NO_KIDS: seq<Node> := [
    Null, Null, Null, Null, Null, Null, Null, Null,
    Null, Null, Null, Null, Null, Null, Null, Null]

  /** Slot 16 of a branch is its value, the others its children. */
  predicate Used(b: Node, i: nat)
    requires b.Branch? && |b.kids| == 16 && i <= 16
  {
    if i < 16 then b.kids[i] != Null else b.value != []
  }

  /** Shape that every node met on the way has, reshaping steps included. */
  predicate WellFormed(n: Node) {
    match n
    case Null => true
    case Leaf(_, v) => v != []
    case Ext(k, c) => k != [] && c != Null && WellFormed(c)
    case Branch(kids, _) => |kids| == 16 && forall i :: 0 <= i < 16 ==> WellFormed(kids[i])
  }

  /** Two different slots in use. */
  predicate Forks(b: Node)
    requires b.Branch? && |b.kids| == 16
  {
    exists i, j :: 0 <= i < j <= 16 && Used(b, i) && Used(b, j)
  }

  /** Normal form: extensions lead to branches only, and branches fork. */
  predicate Normal(n: Node): (r: bool)
    ensures r ==> WellFormed(n)
  {
    match n
    case Null => true
    case Leaf(_, v) => v != []
    case Ext(k, c) => k != [] && c.Branch? && Normal(c)
    case Branch(kids, _) => |kids| == 16 && (forall i :: 0 <= i < 16 ==> Normal(kids[i])) && Forks(n)
  }

  // ---- lookup ----

  /** The value stored under a key; no bytes when there is none. */
  function At(n: Node, k: Nibbles): Bytes
    requires WellFormed(n)
    decreases n
  {
    match n
    case Null => []
    case Leaf(p, v) => if k == p then v else []
    case Ext(p, c) => if IsPrefix(p, k) then At(c, k[|p|..]) else []
    case Branch(kids, v) => if k == [] then v else At(kids[k[0]], k[1..])
  }

  // ---- insertion ----

  /** A two-item node under another key. */
  function WithKey(n: Node, k: Nibbles): Node
    requires n.Leaf? || n.Ext?
  {
    if n.Leaf? then Leaf(k, n.value) else Ext(k, n.child)
  }

  /** Cuts a two-item node in two after `s` nibbles of its key. */
  function Cleve(n: Node, s: nat): (r: Node)
    requires n.Leaf? || n.Ext?
    requires 0 < s <= |n.key| && (n.Ext? ==> s < |n.key|)
    requires WellFormed(n)
    ensures WellFormed(r)
  {
    Ext(n.key[..s], WithKey(n, n.key[s..]))
  }

  /** Turns a two-item node into a branch that holds it alone. */
  function ToBranch(n: Node): (r: Node)
    requires n.Leaf? || n.Ext?
    requires WellFormed(n)
    ensures r.Branch? && WellFormed(r)
  {
    if n.key == [] then Branch(NO_KIDS, n.value)
    else
      var kid := if n.Leaf? || |n.key| > 1 then WithKey(n, n.key[1..]) else n.child;
      Branch(NO_KIDS[n.key[0] := kid], [])
  }

  predicate Matches(n: Node, k: Nibbles) {
    match n
    case Leaf(p, _) => p == k
    case Ext(p, _) => IsPrefix(p, k)
    case _ => true
  }

  /** Insertion. A two-item node in the way is cleft or branched, and insertion starts again. */
  function Merged(n: Node, k: Nibbles, v: Bytes): (r: Node)
    requires WellFormed(n) && v != []
    ensures WellFormed(r) && r != Null
    decreases |k|, if Matches(n, k) then 0 else 1
  {
    if !Matches(n, k) then Merged(Reshaped(n, k), k, v)
    else
      match n
      case Null => Leaf(k, v)
      case Leaf(_, _) => Leaf(k, v)
      case Ext(p, c) => Ext(p, Merged(c, k[|p|..], v))
      case Branch(kids, w) =>
        if k == [] then Branch(kids, v)
        else Branch(kids[k[0] := Merged(kids[k[0]], k[1..], v)], w)
  }

  function Reshaped(n: Node, k: Nibbles): (r: Node)
    requires WellFormed(n) && !Matches(n, k)
    ensures WellFormed(r) && Matches(r, k)
  {
    SharedIsPrefix(k, n.key);
    var s := Shared(k, n.key);
    if s > 0 then Cleve(n, s) else ToBranch(n)
  }

  // ---- insertion is map update ----

  lemma {:induction false} AtCleve(n: Node, s: nat, j: Nibbles)
    requires (n.Leaf? || n.Ext?) && WellFormed(n)
    requires 0 < s <= |n.key| && (n.Ext? ==> s < |n.key|)
    ensures At(Cleve(n, s), j) == At(n, j)
  {
    var p := n.key;
    assert p == p[..s] + p[s..];
    if IsPrefix(p[..s], j) {
      assert j == p[..s] + j[s..];
      assert IsPrefix(p, j) <==> IsPrefix(p[s..], j[s..]);
      if n.Ext? && IsPrefix(p, j) {
        assert j[s..][|p[s..]|..] == j[|p|..];
      }
    } else {
      PrefixTrans(p[..s], p, j);
    }
  }

  lemma {:induction false} AtToBranch(n: Node, j: Nibbles)
    requires (n.Leaf? || n.Ext?) && WellFormed(n)
    ensures At(ToBranch(n), j) == At(n, j)
  {
    var p := n.key;
    if p != [] && j != [] {
      assert p == [p[0]] + p[1..] && j == [j[0]] + j[1..];
      if j[0] == p[0] {
        assert IsPrefix(p, j) <==> IsPrefix(p[1..], j[1..]);
        if n.Ext? && IsPrefix(p, j) {
          assert j[1..][|p[1..]|..] == j[|p|..];
          assert |p| == 1 ==> p[1..] == [] && j[1..] == j[|p|..];
        }
      } else {
        PrefixHead(p, j);
      }
    }
  }

  lemma {:induction false} AtReshaped(n: Node, k: Nibbles, j: Nibbles)
    requires WellFormed(n) && !Matches(n, k)
    ensures At(Reshaped(n, k), j) == At(n, j)
  {
    SharedIsPrefix(k, n.key);
    var s := Shared(k, n.key);
    if s > 0 {
      AtCleve(n, s, j);
    } else {
      AtToBranch(n, j);
    }
  }

  /** Insertion updates the lookup at exactly its key, for arbitrary keys. */
  lemma {:induction false} AtMerged(n: Node, k: Nibbles, v: Bytes, j: Nibbles)
    requires WellFormed(n) && v != []
    ensures At(Merged(n, k, v), j) == if j == k then v else At(n, j)
    decreases |k|, if Matches(n, k) then 0 else 1
  {
    if !Matches(n, k) {
      AtMerged(Reshaped(n, k), k, v, j);
      AtReshaped(n, k, j);
    } else {
      match n
      case Ext(p, c) =>
        if IsPrefix(p, j) {
          AtMerged(c, k[|p|..], v, j[|p|..]);
          assert k == p + k[|p|..] && j == p + j[|p|..];
        }
      case Branch(kids, w) =>
        if k != [] && j != [] && j[0] == k[0] {
          AtMerged(kids[k[0]], k[1..], v, j[1..]);
          assert k == [k[0]] + k[1..] && j == [j[0]] + j[1..];
        }
      case _ =>
    }
  }

  // ---- insertion keeps the normal form ----

  /** A two-item node that shares nothing with the key becomes a forking branch. */
  lemma {:induction false} MergeForks(n: Node, k: Nibbles, v: Bytes)
    requires Normal(n) && (n.Leaf? || n.Ext?) && v != []
    requires !Matches(n, k) && Shared(k, n.key) == 0
    ensures Merged(n, k, v).Branch? && Normal(Merged(n, k, v))
  {
    var b := ToBranch(n);
    var r := Merged(b, k, v);
    assert Reshaped(n, k) == b;
    assert Merged(n, k, v) == r;
    if n.key != [] {
      assert Used(b, n.key[0]);
      if k == [] {
        assert Used(r, n.key[0]) && Used(r, 16);
      } else {
        assert k[0] != n.key[0];
        assert b.kids[k[0]] == Null;
        assert Merged(Null, k[1..], v) == Leaf(k[1..], v);
        assert r.kids[k[0]] == Leaf(k[1..], v);
        assert Used(r, n.key[0]) && Used(r, k[0]);
      }
    } else {
      assert k != [];
      assert Merged(Null, k[1..], v) == Leaf(k[1..], v);
      assert r.kids[k[0]] == Leaf(k[1..], v);
      assert Used(r, k[0]) && Used(r, 16);
    }
  }

  lemma {:induction false} MergedNormal(n: Node, k: Nibbles, v: Bytes)
    requires Normal(n) && v != []
    ensures Normal(Merged(n, k, v))
    ensures n.Branch? ==> Merged(n, k, v).Branch?
    decreases n
  {
    if !Matches(n, k) {
      var s := Shared(k, n.key);
      SharedIsPrefix(k, n.key);
      if s == 0 {
        MergeForks(n, k, v);
      } else {
        var bottom := WithKey(n, n.key[s..]);
        assert IsPrefix(n.key[..s], k);
        assert Merged(n, k, v) == Ext(n.key[..s], Merged(bottom, k[s..], v));
        TailsDiffer(k, n.key, s);
        MergeForks(bottom, k[s..], v);
      }
    } else {
      match n
      case Ext(p, c) => MergedNormal(c, k[|p|..], v);
      case Branch(kids, w) =>
        var r := Merged(n, k, v);
        var i, j :| 0 <= i < j <= 16 && Used(n, i) && Used(n, j);
        if k != [] {
          MergedNormal(kids[k[0]], k[1..], v);
        }
        assert Used(r, i) && Used(r, j);
      case _ =>
    }
  }

  lemma {:induction false} TailsDiffer(k: Nibbles, p: Nibbles, s: nat)
    requires s == Shared(k, p)
    ensures Shared(k[s..], p[s..]) == 0
    ensures k[s..] == p[s..] <==> k == p
  {
    assert k == k[..s] + k[s..] && p == p[..s] + p[s..];
  }

  // ---- a tree in normal form is determined by its lookups ----

  ghost predicate SameLookups(a: Node, b: Node)
    requires WellFormed(a) && WellFormed(b)
  {
    forall k: Nibbles :: At(a, k) == At(b, k)
  }

  lemma {:induction false} HasKey(n: Node) returns (k: Nibbles)
    requires Normal(n) && n != Null
    ensures At(n, k) != []
    decreases n
  {
    match n
    case Leaf(p, _) => k := p;
    case Ext(p, c) =>
      var rest := HasKey(c);
      PrefixAppend(p, rest);
      k := p + rest;
    case Branch(kids, _) =>
      var i, j :| 0 <= i < j <= 16 && Used(n, i) && Used(n, j);
      k := KeyInSlot(n, i);
  }

  /** A key that a used slot of a branch accounts for. */
  lemma {:induction false} KeyInSlot(b: Node, i: nat) returns (k: Nibbles)
    requires b.Branch? && |b.kids| == 16 && WellFormed(b) && i <= 16 && Used(b, i)
    requires forall s :: 0 <= s < 16 ==> Normal(b.kids[s])
    ensures At(b, k) != []
    ensures if i == 16 then k == [] else k != [] && k[0] == i
    decreases b, 0
  {
    if i == 16 {
      k := [];
    } else {
      var rest := HasKey(b.kids[i]);
      k := [i] + rest;
      assert k[1..] == rest;
    }
  }

  /** A branch in normal form has two keys that part at once. */
  lemma {:induction false} PartingKeys(b: Node) returns (k: Nibbles, l: Nibbles)
    requires b.Branch? && Normal(b)
    ensures At(b, k) != [] && At(b, l) != []
    ensures k == [] || (l != [] && k[0] != l[0])
    ensures k != l
  {
    var i, j :| 0 <= i < j <= 16 && Used(b, i) && Used(b, j);
    l := KeyInSlot(b, i);
    k := KeyInSlot(b, j);
  }

  lemma {:induction false} TwoKeys(n: Node) returns (k: Nibbles, l: Nibbles)
    requires (n.Branch? || n.Ext?) && Normal(n)
    ensures At(n, k) != [] && At(n, l) != [] && k != l
  {
    if n.Branch? {
      k, l := PartingKeys(n);
    } else {
      var x, y := PartingKeys(n.child);
      PrefixAppend(n.key, x);
      PrefixAppend(n.key, y);
      k, l := n.key + x, n.key + y;
    }
  }

  /** The lookups alone tell the kind of the root node. */
  lemma {:induction false} KindsDiffer(a: Node, b: Node)
    requires Normal(a) && Normal(b)
    requires a.Null? || (a.Leaf? && (b.Ext? || b.Branch?)) || (a.Ext? && b.Branch?)
    requires !(a.Null? && b.Null?)
    ensures !SameLookups(a, b)
  {
    if a.Null? {
      var k := HasKey(b);
      assert At(a, k) != At(b, k);
    } else if a.Leaf? {
      var k, l := TwoKeys(b);
      assert At(a, k) != At(b, k) || At(a, l) != At(b, l);
    } else {
      var k, l := PartingKeys(b);
      PrefixHead(a.key, k);
      PrefixHead(a.key, l);
      assert At(a, k) != At(b, k) || At(a, l) != At(b, l);
    }
  }

  /** Every key of an extension whose lookups agree with another's lies under both prefixes. */
  lemma {:induction false} ExtensionsAgree(a: Node, b: Node)
    requires a.Ext? && b.Ext? && Normal(a) && Normal(b)
    requires SameLookups(a, b) && |a.key| <= |b.key|
    ensures a.key == b.key
  {
    var x, y := PartingKeys(a.child);
    var p, q := a.key, b.key;
    PrefixAppend(p, x);
    PrefixAppend(p, y);
    assert At(a, p + x) == At(b, p + x) && At(a, p + y) == At(b, p + y);
    assert IsPrefix(q, p + x) && IsPrefix(q, p + y);
    assert q[..|p|] == (p + x)[..|q|][..|p|] == p;
    assert forall i :: 0 <= i < |q| ==> (p + x)[..|q|][i] == (p + x)[i] && (p + y)[..|q|][i] == (p + y)[i];
  }

  lemma {:induction false} ChildLookups(a: Node, b: Node)
    requires a.Ext? && b.Ext? && a.key == b.key && WellFormed(a) && WellFormed(b)
    requires SameLookups(a, b)
    ensures SameLookups(a.child, b.child)
  {
    forall k: Nibbles
      ensures At(a.child, k) == At(b.child, k)
    {
      PrefixAppend(a.key, k);
      assert At(a, a.key + k) == At(b, a.key + k);
    }
  }

  lemma {:induction false} KidLookups(a: Node, b: Node, i: nat)
    requires a.Branch? && b.Branch? && WellFormed(a) && WellFormed(b) && i < 16
    requires SameLookups(a, b)
    ensures SameLookups(a.kids[i], b.kids[i])
  {
    forall k: Nibbles
      ensures At(a.kids[i], k) == At(b.kids[i], k)
    {
      var full: Nibbles := [i] + k;
      assert full[1..] == k;
      assert At(a, full) == At(b, full);
    }
  }

  /** The normal form is unique. */
  lemma {:induction false} NormalIsUnique(a: Node, b: Node)
    requires Normal(a) && Normal(b)
    requires SameLookups(a, b)
    ensures a == b
    decreases a
  {
    match (a, b)
    case (Null, Null) =>
    case (Leaf(p, _), Leaf(q, _)) =>
      assert At(a, p) == At(b, p);
    case (Ext(_, c), Ext(_, d)) =>
      assert SameLookups(b, a);
      if |a.key| <= |b.key| { ExtensionsAgree(a, b); } else { ExtensionsAgree(b, a); }
      ChildLookups(a, b);
      NormalIsUnique(c, d);
    case (Branch(kids, v), Branch(lids, w)) =>
      assert At(a, []) == At(b, []);
      forall i | 0 <= i < 16
        ensures kids[i] == lids[i]
      {
        KidLookups(a, b, i);
        NormalIsUnique(kids[i], lids[i]);
      }
      assert kids == lids;
    case _ =>
      assert SameLookups(b, a);
      if a.Null? || (a.Leaf? && !b.Null?) || (a.Ext? && b.Branch?) { KindsDiffer(a, b); } else { KindsDiffer(b, a); }
  }
}
