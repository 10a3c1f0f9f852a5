/**
 Removal from the trie.  The code guards none of three reads: it descends into
 a leaf's value when the key goes on past the leaf, it reads past the end of a
 key that stops at a branch without a value, and it takes a lone value left in
 slot 16 for the hash of a node.  `Fault` marks where it goes astray on one of
 these, and `FaultExactly` says on which keys that happens.
 */
module TrieDelete {
  import opened Rlp
  import opened HexPrefix
  import opened Trie
  import opened Options

  const NONE: nat := 255

  /** The scan for the only used slot other than `except`, from slot `i` on. */
  function UniqueFrom(b: Node, except: nat, i: nat, used: nat): (r: nat)
    requires b.Branch? && |b.kids| == 16 && i <= 17
    requires used == NONE || used < i
    ensures r == NONE || r <= 16
    decreases 17 - i
  {
    if i == 17 then used
    else if i != except && Used(b, i) then
      if used == NONE then UniqueFrom(b, except, i + 1, i) else NONE
    else UniqueFrom(b, except, i + 1, used)
  }

  function UniqueInUse(b: Node, except: nat): nat
    requires b.Branch? && |b.kids| == 16
  {
    UniqueFrom(b, except, 0, NONE)
  }

  /** Slot `u` alone is used, apart from `except`. */
  predicate Only(b: Node, except: nat, u: nat)
    requires b.Branch? && |b.kids| == 16
  {
    u <= 16 && u != except && Used(b, u) && forall j :: 0 <= j <= 16 && j != except && j != u ==> !Used(b, j)
  }

  lemma {:induction false} UniqueFromIs(b: Node, except: nat, i: nat, used: nat)
    requires b.Branch? && |b.kids| == 16 && i <= 17
    requires used == NONE || (used < i && used != except && Used(b, used))
    requires forall j :: 0 <= j < i && j != except && j != used ==> !Used(b, j)
    ensures var r := UniqueFrom(b, except, i, used);
      if r != NONE then Only(b, except, r)
      else forall u :: 0 <= u <= 16 ==> !Only(b, except, u)
    decreases 17 - i
  {
    if i < 17 {
      if i != except && Used(b, i) {
        if used == NONE { UniqueFromIs(b, except, i + 1, i); }
      } else {
        UniqueFromIs(b, except, i + 1, used);
      }
    }
  }

  lemma {:induction false} UniqueInUseIs(b: Node, except: nat)
    requires b.Branch? && |b.kids| == 16
    ensures var r := UniqueInUse(b, except);
      if r != NONE then Only(b, except, r)
      else forall u :: 0 <= u <= 16 ==> !Only(b, except, u)
  {
    UniqueFromIs(b, except, 0, NONE);
  }

  predicate TwoItem(n: Node) { n.Leaf? || n.Ext? }

  /** An extension above a two-item node is grafted onto it. */
  function Graft(p: Nibbles, c: Node): Node
    requires TwoItem(c)
  {
    WithKey(c, p + c.key)
  }

  function Extend(p: Nibbles, c: Node): Node {
    if TwoItem(c) then Graft(p, c) else Ext(p, c)
  }

  datatype Deletion = Absent | Removed(node: Node) | Fault

  /**
   `takes(l, v)`: with the leaf `l` gone, the value `v` is taken for the hash of a two-item node.
   Which values are depends on what the store holds.
   */
  type Taker = (Node, Bytes) -> bool

  /** What becomes of a branch of which only slot `u` remains; its value may be taken for a hash. */
  function Collapse(b: Node, u: nat, taken: bool): Deletion
    requires b.Branch? && |b.kids| == 16 && u <= 16
  {
    if u < 16 then Removed(Extend([u], b.kids[u]))
    else if taken then Fault
    else Removed(Leaf([], b.value))
  }

  /** A branch after a change: kept while it forks, collapsed when one slot is left. */
  function Rejigged(b: Node, taken: bool): Deletion
    requires b.Branch? && |b.kids| == 16
  {
    var u := UniqueInUse(b, NONE);
    if u == NONE then Removed(b) else Collapse(b, u, taken)
  }

  function Deleted(takes: Taker, n: Node, k: Nibbles): Deletion
    requires Normal(n)
    decreases n
  {
    match n
    case Null => Absent
    case Leaf(p, _) =>
      if p == k then Removed(Null) else if IsPrefix(p, k) then Fault else Absent
    case Ext(p, c) =>
      if !IsPrefix(p, k) then Absent
      else
        var d := Deleted(takes, c, k[|p|..]);
        if d.Removed? then Removed(Extend(p, d.node)) else d
    case Branch(kids, v) =>
      if k == [] then
        if v == [] then Fault
        else
          var u := UniqueInUse(n, 16);
          if u == NONE then Removed(Branch(kids, [])) else Collapse(n, u, false)
      else
        var d := Deleted(takes, kids[k[0]], k[1..]);
        if d.Removed? then Rejigged(Branch(kids[k[0] := d.node], v), takes(kids[k[0]], v)) else d
  }

  /** The value of the leaf that removal of a longer key would go on into, if it meets one. */
  function Stopped(n: Node, k: Nibbles): (r: Option<Bytes>)
    requires Normal(n)
    decreases n
  {
    match n
    case Null => None
    case Leaf(p, v) => if p != k && IsPrefix(p, k) then Some(v) else None
    case Ext(p, c) => if IsPrefix(p, k) then Stopped(c, k[|p|..]) else None
    case Branch(kids, _) => if k == [] then None else Stopped(kids[k[0]], k[1..])
  }

  lemma {:induction false} StoppedFaults(takes: Taker, n: Node, k: Nibbles)
    requires Normal(n)
    ensures Stopped(n, k).Some? ==> Deleted(takes, n, k).Fault?
    decreases n
  {
    match n
    case Ext(p, c) => if IsPrefix(p, k) { StoppedFaults(takes, c, k[|p|..]); }
    case Branch(kids, _) => if k != [] { StoppedFaults(takes, kids[k[0]], k[1..]); }
    case _ =>
  }

  predicate Never(l: Node, v: Bytes) { false }

  /** Removal when no value is taken for a hash. */
  function Plain(n: Node, k: Nibbles): Deletion
    requires Normal(n)
  {
    Deleted(Never, n, k)
  }

  /** What the store holds decides only whether removal goes astray, never its result. */
  lemma {:induction false} DeletedPlain(takes: Taker, n: Node, k: Nibbles)
    requires Normal(n)
    ensures Deleted(takes, n, k).Fault? || Deleted(takes, n, k) == Plain(n, k)
    decreases n
  {
    match n
    case Ext(p, c) => if IsPrefix(p, k) { DeletedPlain(takes, c, k[|p|..]); }
    case Branch(kids, _) => if k != [] { DeletedPlain(takes, kids[k[0]], k[1..]); }
    case _ =>
  }

  // ---- removal is map deletion, and keeps the normal form ----

  lemma {:induction false} AtExtend(p: Nibbles, c: Node, j: Nibbles)
    requires WellFormed(c) && c != Null && p != []
    ensures WellFormed(Extend(p, c))
    ensures At(Extend(p, c), j) == At(Ext(p, c), j)
  {
    if TwoItem(c) {
      var q := c.key;
      if IsPrefix(p, j) {
        assert j == p + j[|p|..];
        assert IsPrefix(p + q, j) <==> IsPrefix(q, j[|p|..]);
        assert IsPrefix(p + q, j) ==> j[|p|..][|q|..] == j[|p + q|..];
      } else {
        PrefixAppend(p, q);
        PrefixTrans(p, p + q, j);
      }
    }
  }

  lemma {:induction false} AtLoneKid(b: Node, u: nat, j: Nibbles)
    requires b.Branch? && WellFormed(b) && u < 16 && Only(b, NONE, u)
    ensures At(b, j) == At(Ext([u], b.kids[u]), j)
  {
    assert !Used(b, 16);
    if j != [] {
      if j[0] == u {
        assert j[..1] == [u];
      } else {
        assert !Used(b, j[0]);
        PrefixHead([u], j);
      }
    }
  }

  lemma {:induction false} AtCollapse(b: Node, u: nat, taken: bool, j: Nibbles)
    requires b.Branch? && WellFormed(b) && u <= 16 && Only(b, NONE, u) && Collapse(b, u, taken).Removed?
    ensures WellFormed(Collapse(b, u, taken).node)
    ensures At(Collapse(b, u, taken).node, j) == At(b, j)
  {
    if u < 16 {
      AtLoneKid(b, u, j);
      AtExtend([u], b.kids[u], j);
    } else if j != [] {
      assert !Used(b, j[0]);
    }
  }

  lemma CollapseNormal(b: Node, u: nat, taken: bool)
    requires b.Branch? && |b.kids| == 16 && u <= 16 && Only(b, NONE, u) && Collapse(b, u, taken).Removed?
    requires forall i :: 0 <= i < 16 ==> Normal(b.kids[i])
    ensures Normal(Collapse(b, u, taken).node) && Collapse(b, u, taken).node != Null
  {
  }

  /** A branch that lost one slot of a fork either still forks or has one slot left. */
  lemma {:induction false} StillForks(n: Node, b: Node, s: nat)
    requires n.Branch? && |n.kids| == 16 && Forks(n) && b.Branch? && |b.kids| == 16 && s <= 16
    requires forall i :: 0 <= i <= 16 && i != s ==> (Used(n, i) <==> Used(b, i))
    requires forall u :: 0 <= u <= 16 ==> !Only(b, NONE, u)
    ensures Forks(b)
  {
    var i, j :| 0 <= i < j <= 16 && Used(n, i) && Used(n, j);
    var x := if i == s then j else i;
    assert Used(b, x);
    assert !Only(b, NONE, x);
    var y :| 0 <= y <= 16 && y != x && Used(b, y);
    if x < y { assert Used(b, x) && Used(b, y); }
  }

  /** Deleting from a branch, once the slot itself has been dealt with. */
  lemma {:induction false} RejiggedNormal(n: Node, b: Node, s: nat, taken: bool)
    requires Normal(n) && n.Branch? && b.Branch? && WellFormed(b) && s <= 16
    requires forall i :: 0 <= i < 16 ==> Normal(b.kids[i])
    requires forall i :: 0 <= i <= 16 && i != s ==> (Used(n, i) <==> Used(b, i))
    requires Rejigged(b, taken).Removed?
    ensures Normal(Rejigged(b, taken).node) && Rejigged(b, taken).node != Null
    ensures forall j: Nibbles :: At(Rejigged(b, taken).node, j) == At(b, j)
  {
    var d := Rejigged(b, taken);
    UniqueInUseIs(b, NONE);
    var u := UniqueInUse(b, NONE);
    if u == NONE {
      StillForks(n, b, s);
    } else {
      CollapseNormal(b, u, taken);
      forall j: Nibbles ensures At(d.node, j) == At(b, j) { AtCollapse(b, u, taken, j); }
    }
  }

  /** Without slot 16 the scan over all slots finds what the scan past slot 16 finds. */
  lemma {:induction false} ScanWithoutValue(n: Node, b: Node)
    requires n.Branch? && |n.kids| == 16 && b == Branch(n.kids, [])
    ensures UniqueInUse(n, 16) == UniqueInUse(b, NONE)
    ensures UniqueInUse(n, 16) == NONE || UniqueInUse(n, 16) < 16
  {
    UniqueInUseIs(n, 16);
    UniqueInUseIs(b, NONE);
    var u, w := UniqueInUse(n, 16), UniqueInUse(b, NONE);
    assert forall i :: 0 <= i < 16 ==> (Used(n, i) <==> Used(b, i));
    assert !Used(b, 16);
    if u != NONE { assert Only(b, NONE, u); }
    if w != NONE { assert Only(n, 16, w); }
  }

  ghost predicate Deletes(n: Node, k: Nibbles, m: Node)
    requires WellFormed(n)
  {
    && Normal(m)
    && At(n, k) != []
    && forall j: Nibbles :: At(m, j) == if j == k then [] else At(n, j)
  }

  /** Removal deletes exactly its key, or finds it absent; the result is again in normal form. */
  lemma {:induction false} DeletedDeletes(takes: Taker, n: Node, k: Nibbles)
    requires Normal(n)
    ensures Deleted(takes, n, k).Absent? ==> At(n, k) == []
    ensures Deleted(takes, n, k).Removed? ==> Deletes(n, k, Deleted(takes, n, k).node)
    ensures Deleted(takes, n, k).Removed? && (n.Ext? || n.Branch?) ==> Deleted(takes, n, k).node != Null
    decreases n
  {
    match n
    case Ext(p, c) =>
      if IsPrefix(p, k) {
        DeletedDeletes(takes, c, k[|p|..]);
        if Deleted(takes, n, k).Removed? {
          DeleteInExt(n, k, Deleted(takes, c, k[|p|..]).node);
        }
      }
    case Branch(kids, v) =>
      var d := Deleted(takes, n, k);
      if d.Removed? {
        if k == [] {
          var b := Branch(kids, []);
          ScanWithoutValue(n, b);
          RejiggedNormal(n, b, 16, false);
        } else {
          DeletedDeletes(takes, kids[k[0]], k[1..]);
          DeleteInBranch(n, k, takes(kids[k[0]], v), Deleted(takes, kids[k[0]], k[1..]).node);
        }
      } else if d.Absent? {
        DeletedDeletes(takes, kids[k[0]], k[1..]);
      }
    case _ =>
  }

  lemma {:induction false} DeleteInExt(n: Node, k: Nibbles, m: Node)
    requires n.Ext? && Normal(n) && IsPrefix(n.key, k)
    requires m != Null && Deletes(n.child, k[|n.key|..], m)
    ensures Deletes(n, k, Extend(n.key, m))
  {
    var p := n.key;
    forall j: Nibbles
      ensures At(Extend(p, m), j) == if j == k then [] else At(n, j)
    {
      AtExtend(p, m, j);
      if IsPrefix(p, j) {
        assert j == p + j[|p|..] && k == p + k[|p|..];
      }
    }
  }

  lemma {:induction false} DeleteInBranch(n: Node, k: Nibbles, taken: bool, m: Node)
    requires n.Branch? && Normal(n) && k != []
    requires Deletes(n.kids[k[0]], k[1..], m)
    requires Rejigged(Branch(n.kids[k[0] := m], n.value), taken).Removed?
    ensures var r := Rejigged(Branch(n.kids[k[0] := m], n.value), taken).node;
      Deletes(n, k, r) && r != Null
  {
    hide Rejigged, Forks;
    var b := Branch(n.kids[k[0] := m], n.value);
    RejiggedNormal(n, b, k[0], taken);
    forall j: Nibbles
      ensures At(b, j) == if j == k then [] else At(n, j)
    {
      if j != [] && j[0] == k[0] {
        assert j == [k[0]] + j[1..] && k == [k[0]] + k[1..];
      }
    }
  }
}
