/**
 The trie as a map from byte strings to byte strings, and the main result about
 its shape: whatever the history, the tree is the one built from scratch.
 */
module TrieCanon {
  import opened Rlp
  import opened HexPrefix
  import opened Trie
  import opened TrieDelete
  import opened TrieFault
  import opened TrieBuild

  type Contents = map<Bytes, Bytes>

  /** The trie holds exactly the contents, under the nibbles of their keys. */
  ghost predicate Agrees(n: Node, m: Contents)
    requires WellFormed(n)
  {
    && (forall key :: key in m ==> m[key] != [] && At(n, ToNibbles(key)) == m[key])
    && (forall k :: At(n, k) != [] ==> IsKey(m, k))
  }

  ghost predicate IsKey(m: Contents, k: Nibbles) {
    exists key :: key in m && ToNibbles(key) == k
  }

  lemma {:induction false} AgreesNowhere(n: Node, m: Contents, key: Bytes)
    requires WellFormed(n) && Agrees(n, m) && key !in m
    ensures At(n, ToNibbles(key)) == []
  {
    if At(n, ToNibbles(key)) != [] {
      assert IsKey(m, ToNibbles(key));
      var other :| other in m && ToNibbles(other) == ToNibbles(key);
      ToNibblesInjective(other, key);
    }
  }

  lemma {:induction false} AgreesAt(n: Node, m: Contents, key: Bytes)
    requires WellFormed(n) && Agrees(n, m)
    ensures At(n, ToNibbles(key)) == if key in m then m[key] else []
  {
    if key !in m { AgreesNowhere(n, m, key); }
  }

  lemma {:induction false} AgreesMerged(n: Node, m: Contents, key: Bytes, v: Bytes)
    requires WellFormed(n) && Agrees(n, m) && v != []
    ensures Agrees(Merged(n, ToNibbles(key), v), m[key := v])
  {
    var k := ToNibbles(key);
    var r := Merged(n, k, v);
    forall other | other in m[key := v]
      ensures At(r, ToNibbles(other)) == m[key := v][other]
    {
      AtMerged(n, k, v, ToNibbles(other));
      if other != key && ToNibbles(other) == k { ToNibblesInjective(other, key); }
    }
    forall j | At(r, j) != []
      ensures IsKey(m[key := v], j)
    {
      AtMerged(n, k, v, j);
      if j == k {
        assert key in m[key := v];
      } else {
        assert IsKey(m, j);
        var other :| other in m && ToNibbles(other) == j;
        assert other in m[key := v];
      }
    }
  }

  lemma {:induction false} AgreesAbsent(n: Node, m: Contents, key: Bytes)
    requires WellFormed(n) && Agrees(n, m) && At(n, ToNibbles(key)) == []
    ensures key !in m
  {
    AgreesAt(n, m, key);
  }

  lemma {:induction false} AgreesDeleted(n: Node, m: Contents, key: Bytes, r: Node)
    requires WellFormed(n) && Agrees(n, m) && Deletes(n, ToNibbles(key), r)
    ensures Agrees(r, m - {key}) && key in m
  {
    var k := ToNibbles(key);
    if key !in m { AgreesNowhere(n, m, key); }
    forall other | other in m - {key}
      ensures At(r, ToNibbles(other)) == m[other]
    {
      if ToNibbles(other) == k { ToNibblesInjective(other, key); }
    }
    forall j | At(r, j) != []
      ensures IsKey(m - {key}, j)
    {
      assert At(r, j) == At(n, j);
      assert IsKey(m, j);
      var other :| other in m && ToNibbles(other) == j;
      assert other in m - {key};
    }
  }

  // ---- canonical form ----

  /** Two tries in normal form with the same contents are the same tree. */
  lemma {:induction false} HistoryIndependent(a: Node, b: Node, m: Contents)
    requires Normal(a) && Normal(b) && Agrees(a, m) && Agrees(b, m)
    ensures a == b
  {
    forall k: Nibbles
      ensures At(a, k) == At(b, k)
    {
      if IsKey(m, k) {
        var key :| key in m && ToNibbles(key) == k;
      }
    }
    NormalIsUnique(a, b);
  }

  /** A sorted list of exactly the entries of the contents. */
  ghost predicate ListsAll(s: seq<Entry>, m: Contents) {
    && Entries(s, 0)
    && (forall i :: 0 <= i < |s| ==> IsKey(m, s[i].0))
    && (forall i, key :: 0 <= i < |s| && key in m && ToNibbles(key) == s[i].0 ==> s[i].1 == m[key])
    && (forall key :: key in m ==> Mentions(s, ToNibbles(key)))
  }

  ghost predicate Mentions(s: seq<Entry>, k: Nibbles) {
    exists i :: 0 <= i < |s| && s[i].0 == k
  }

  lemma {:induction false} BuildAgrees(s: seq<Entry>, m: Contents)
    requires ListsAll(s, m)
    ensures Normal(Build(s, 0)) && Agrees(Build(s, 0), m)
  {
    BuildRepresents(s, 0);
    var n := Build(s, 0);
    assert forall i :: 0 <= i < |s| ==> s[i].0[0..] == s[i].0;
    forall key | key in m
      ensures m[key] != [] && At(n, ToNibbles(key)) == m[key]
    {
      assert Mentions(s, ToNibbles(key));
      var i :| 0 <= i < |s| && s[i].0 == ToNibbles(key);
      assert At(n, s[i].0[0..]) == s[i].1;
    }
    forall k | At(n, k) != []
      ensures IsKey(m, k)
    {
      assert Lists(s, 0, k);
      var i :| 0 <= i < |s| && s[i].0[0..] == k;
      assert s[i].0 == k;
    }
  }

  /** The tree of a trie in normal form is the one built from scratch out of its contents. */
  lemma {:induction false} Canonical(n: Node, m: Contents, s: seq<Entry>)
    requires Normal(n) && Agrees(n, m) && ListsAll(s, m)
    ensures n == Build(s, 0)
  {
    BuildAgrees(s, m);
    HistoryIndependent(n, Build(s, 0), m);
  }

  /** Where an entry with the key belongs in a sorted list. */
  function Position(s: seq<Entry>, k: Nibbles): (r: nat)
    ensures r <= |s|
    ensures forall i :: 0 <= i < r ==> Less(s[i].0, k)
    ensures r < |s| ==> !Less(s[r].0, k)
  {
    if s == [] || !Less(s[0].0, k) then 0
    else
      var r := Position(s[1..], k);
      assert forall i :: 1 <= i < r + 1 ==> s[i] == s[1..][i - 1];
      r + 1
  }

  lemma {:induction false} SortedWith(s: seq<Entry>, k: Nibbles, v: Bytes, p: nat)
    requires Sorted(s) && !Mentions(s, k) && p == Position(s, k)
    ensures var t := s[..p] + [(k, v)] + s[p..];
      Sorted(t) && forall e :: e in t <==> e in s || e == (k, v)
  {
    var t := s[..p] + [(k, v)] + s[p..];
    forall i, j | 0 <= i < j < |t|
      ensures Less(t[i].0, t[j].0)
    {
      if j > p {
        var b := s[j - 1].0;
        assert k != b;
        if p < |s| { LessTotal(k, s[p].0); assert Mentions(s, s[p].0); }
        assert Less(k, s[p].0);
        if j - 1 > p { LessTrans(k, s[p].0, b); }
      }
    }
  }

  /** Every map with non-empty values has such a list. */
  lemma {:induction false} EveryMapIsListed(m: Contents) returns (s: seq<Entry>)
    requires forall key :: key in m ==> m[key] != []
    ensures ListsAll(s, m)
    decreases |m|
  {
    if m == map[] {
      s := [];
    } else {
      var key :| key in m;
      var rest := m - {key};
      assert m.Keys == rest.Keys + {key};
      var t := EveryMapIsListed(rest);
      if Mentions(t, ToNibbles(key)) {
        var i :| 0 <= i < |t| && t[i].0 == ToNibbles(key);
        assert IsKey(rest, t[i].0);
        var other :| other in rest && ToNibbles(other) == t[i].0;
        ToNibblesInjective(other, key);
      }
      var p := Position(t, ToNibbles(key));
      SortedWith(t, ToNibbles(key), m[key], p);
      s := t[..p] + [(ToNibbles(key), m[key])] + t[p..];
      ListedWith(m, key, t, s);
    }
  }

  lemma {:induction false} ListedWith(m: Contents, key: Bytes, t: seq<Entry>, s: seq<Entry>)
    requires key in m && m[key] != [] && ListsAll(t, m - {key}) && Sorted(s)
    requires forall e :: e in s <==> e in t || e == (ToNibbles(key), m[key])
    ensures ListsAll(s, m)
  {
    forall i | 0 <= i < |s|
      ensures IsKey(m, s[i].0) && s[i].1 != []
      ensures forall other :: other in m && ToNibbles(other) == s[i].0 ==> s[i].1 == m[other]
    {
      assert s[i] in s;
      ListedEntry(m, key, t, s[i]);
    }
    forall other | other in m
      ensures Mentions(s, ToNibbles(other))
    {
      if other == key {
        assert (ToNibbles(key), m[key]) in s;
      } else {
        assert Mentions(t, ToNibbles(other));
        var i :| 0 <= i < |t| && t[i].0 == ToNibbles(other);
        assert t[i] in t && t[i] in s;
      }
    }
  }

  lemma {:induction false} ListedEntry(m: Contents, key: Bytes, t: seq<Entry>, e: Entry)
    requires key in m && m[key] != [] && ListsAll(t, m - {key})
    requires e in t || e == (ToNibbles(key), m[key])
    ensures IsKey(m, e.0) && e.1 != []
    ensures forall other :: other in m && ToNibbles(other) == e.0 ==> e.1 == m[other]
  {
    if e in t {
      var i :| 0 <= i < |t| && t[i] == e;
      assert IsKey(m - {key}, t[i].0);
      var mine :| mine in m - {key} && ToNibbles(mine) == e.0;
      forall other | other in m && ToNibbles(other) == e.0
        ensures e.1 == m[other]
      {
        ToNibblesInjective(other, mine);
      }
    } else {
      forall other | other in m && ToNibbles(other) == e.0
        ensures e.1 == m[other]
      {
        ToNibblesInjective(other, key);
      }
    }
  }

  // ---- whole runs ----

  datatype Op = Insert(key: Bytes, value: Bytes) | Remove(key: Bytes) | Commit

  function ApplyOp(m: Contents, op: Op): Contents {
    match op
    case Insert(key, v) => m[key := v]
    case Remove(key) => m - {key}
    case Commit => m
  }

  function ApplyAll(m: Contents, ops: seq<Op>): Contents
    decreases |ops|
  {
    if ops == [] then m else ApplyAll(ApplyOp(m, ops[0]), ops[1..])
  }

  /** One operation on the tree, when the store makes removal take the values `takes` for hashes. */
  function Step(takes: Taker, n: Node, op: Op): Deletion
    requires Normal(n) && (op.Insert? ==> op.value != [])
  {
    match op
    case Insert(key, v) => Removed(Merged(n, ToNibbles(key), v))
    case Remove(key) =>
      var d := Deleted(takes, n, ToNibbles(key));
      if d.Absent? then Removed(n) else d
    case Commit => Removed(n)
  }

  /** The tree after an operation that goes through. */
  function After(n: Node, op: Op): (r: Node)
    requires Normal(n) && (op.Insert? ==> op.value != [])
    ensures Normal(r)
  {
    match op
    case Insert(key, v) => MergedNormal(n, ToNibbles(key), v); Merged(n, ToNibbles(key), v)
    case Remove(key) =>
      DeletedDeletes(Never, n, ToNibbles(key));
      var d := Plain(n, ToNibbles(key));
      if d.Removed? then d.node else n
    case Commit => n
  }

  predicate Storable(ops: seq<Op>) {
    forall i :: 0 <= i < |ops| && ops[i].Insert? ==> ops[i].value != []
  }

  function AfterAll(n: Node, ops: seq<Op>): (r: Node)
    requires Normal(n) && Storable(ops)
    ensures Normal(r)
    decreases |ops|
  {
    if ops == [] then n else AfterAll(After(n, ops[0]), ops[1..])
  }

  /** No operation of a run goes astray, whatever the store holds by then. */
  ghost predicate GoesThrough(n: Node, ops: seq<Op>)
    requires Normal(n) && Storable(ops)
    decreases |ops|
  {
    ops != [] ==>
      && (forall takes: Taker :: Step(takes, n, ops[0]) == Removed(After(n, ops[0])))
      && GoesThrough(After(n, ops[0]), ops[1..])
  }

  /** No key is a proper prefix of another. */
  ghost predicate PrefixFreeKeys(K: set<Bytes>) {
    forall a, b :: a in K && b in K && a <= b ==> a == b
  }

  ghost predicate Over(K: set<Bytes>, ops: seq<Op>) {
    forall i :: 0 <= i < |ops| && !ops[i].Commit? ==> ops[i].key in K
  }

  lemma {:induction false} NibblePrefix(a: Bytes, b: Bytes)
    requires IsPrefix(ToNibbles(a), ToNibbles(b))
    ensures a <= b
  {
    assert |a| <= |b|;
    assert ToNibbles(b[..|a|]) == ToNibbles(b)[..2 * |a|] by {
      assert forall i :: 0 <= i < 2 * |a| ==> NibbleAt(b[..|a|], i) == NibbleAt(b, i);
    }
    ToNibblesInjective(a, b[..|a|]);
  }

  /** Over a prefix-free set of keys a removal clashes with nothing, whatever the store holds. */
  lemma {:induction false} NoClash(takes: Taker, n: Node, m: Contents, key: Bytes, K: set<Bytes>)
    requires Normal(n) && Agrees(n, m) && PrefixFreeKeys(K) && m.Keys <= K && key in K
    ensures !Clash(takes, n, ToNibbles(key))
    ensures Deleted(takes, n, ToNibbles(key)) == Plain(n, ToNibbles(key))
  {
    var k := ToNibbles(key);
    forall j | Stored(n, j)
      ensures !ProperPrefix(j, k) && !ProperPrefix(k, j)
    {
      assert IsKey(m, j);
      var other :| other in m && ToNibbles(other) == j;
      if IsPrefix(j, k) { NibblePrefix(other, key); }
      if IsPrefix(k, j) { NibblePrefix(key, other); }
    }
    PrefixFreeNeverFaults(takes, n, k);
    FaultExactly(takes, n, k);
    DeletedPlain(takes, n, k);
  }

  lemma {:induction false} StepKeepsAgreement(n: Node, m: Contents, op: Op, K: set<Bytes>)
    requires Normal(n) && Agrees(n, m) && PrefixFreeKeys(K) && m.Keys <= K
    requires Storable([op]) && Over(K, [op])
    ensures op.Insert? ==> op.value != []
    ensures forall takes: Taker :: Step(takes, n, op) == Removed(After(n, op))
    ensures Agrees(After(n, op), ApplyOp(m, op)) && ApplyOp(m, op).Keys <= K
  {
    assert [op][0] == op;
    match op
    case Insert(key, v) => AgreesMerged(n, m, key, v);
    case Remove(key) =>
      hide Agrees, Deleted, Normal;
      RemovalKeepsAgreement(n, m, key, K);
    case Commit =>
  }

  lemma {:induction false} RemovalKeepsAgreement(n: Node, m: Contents, key: Bytes, K: set<Bytes>)
    requires Normal(n) && Agrees(n, m) && PrefixFreeKeys(K) && m.Keys <= K && key in K
    ensures forall takes: Taker :: Deleted(takes, n, ToNibbles(key)) == Plain(n, ToNibbles(key))
    ensures !Plain(n, ToNibbles(key)).Fault?
    ensures Agrees(After(n, Remove(key)), m - {key})
  {
    hide Agrees, Normal, Deleted, PrefixFreeKeys, Clash;
    var k := ToNibbles(key);
    forall takes: Taker
      ensures Deleted(takes, n, k) == Plain(n, k)
    {
      NoClash(takes, n, m, key, K);
    }
    NoClash(Never, n, m, key, K);
    FaultExactly(Never, n, k);
    PlainKeepsAgreement(n, m, key);
  }

  lemma {:induction false} PlainKeepsAgreement(n: Node, m: Contents, key: Bytes)
    requires Normal(n) && Agrees(n, m) && !Plain(n, ToNibbles(key)).Fault?
    ensures Agrees(After(n, Remove(key)), m - {key})
  {
    var k := ToNibbles(key);
    AgreesAt(n, m, key);
    DeletedDeletes(Never, n, k);
    hide Agrees, Deleted, Normal, Deletes;
    if Plain(n, k).Removed? {
      AgreesDeleted(n, m, key, Plain(n, k).node);
    } else {
      assert m - {key} == m;
    }
  }

  /**
   Every run of insertions of non-empty values, removals and commits over a prefix-free set of keys
   goes through, and its last tree is in normal form and holds the contents.
   */
  lemma {:induction false} RunReaches(n: Node, m: Contents, ops: seq<Op>, K: set<Bytes>)
    requires Normal(n) && Agrees(n, m) && m.Keys <= K
    requires PrefixFreeKeys(K) && Storable(ops) && Over(K, ops)
    ensures GoesThrough(n, ops)
    ensures Agrees(AfterAll(n, ops), ApplyAll(m, ops)) && ApplyAll(m, ops).Keys <= K
    decreases |ops|
  {
    hide Agrees, Step, PrefixFreeKeys, Normal, After, ApplyOp;
    if ops != [] {
      StepKeepsAgreement(n, m, ops[0], K);
      RunReaches(After(n, ops[0]), ApplyOp(m, ops[0]), ops[1..], K);
    }
  }

  /** After any such run the tree is the one built from scratch, whatever the order or history. */
  lemma {:induction false} RunIsCanonical(ops: seq<Op>, K: set<Bytes>, s: seq<Entry>)
    requires PrefixFreeKeys(K) && Storable(ops) && Over(K, ops)
    requires ListsAll(s, ApplyAll(map[], ops))
    ensures AfterAll(Null, ops) == Build(s, 0)
  {
    RunReaches(Null, map[], ops, K);
    Canonical(AfterAll(Null, ops), ApplyAll(map[], ops), s);
  }
}
