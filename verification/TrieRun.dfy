/**
 Whole runs of the stored trie: insertions, removals and commits, one after the other, over keys of
 which none is a prefix of another.
 */
module TrieRun {
  import opened Rlp
  import opened HexPrefix
  import opened Trie
  import opened TrieHash
  import opened TrieRefs
  import opened TrieDelete
  import opened TrieDeleteSteps
  import opened TrieFault
  import opened TrieCanon
  import opened MapHash
  import opened TrieDb
  import opened NodeStore
  import opened Options

  /** Keys of the set, and values and keys of a size that a node can hold. */
  ghost predicate Allowed(op: Op, K: set<Bytes>) {
    && (op.Commit? || op.key in K)
    && (op.Insert? ==> op.value != [] && |op.value| <= 0x7fff_ffff_ffff_ffff && 2 * |op.key| <= 0x7fff_ffff)
  }

  ghost predicate AllAllowed(ops: seq<Op>, K: set<Bytes>) {
    forall i :: 0 <= i < |ops| ==> Allowed(ops[i], K)
  }

  /** The byte strings that an operation on a tree brings into play. */
  ghost function InPlay(H: Hasher, n: Node, op: Op): set<Bytes>
    requires Normal(n) && (op.Insert? ==> op.value != [])
  {
    Below(H, n) + {Enc(H, n)} +
    match op
    case Insert(key, v) => Touched(H, n, ToNibbles(key), v) + {Enc(H, Merged(n, ToNibbles(key), v))}
    case Remove(key) => DeleteTouchedRef(H, n, ToNibbles(key))
    case Commit => {}
  }

  /** The byte strings that a whole run brings into play. */
  ghost function AllInPlay(H: Hasher, n: Node, ops: seq<Op>): set<Bytes>
    requires Normal(n) && Storable(ops)
    decreases |ops|
  {
    if ops == [] then {} else InPlay(H, n, ops[0]) + AllInPlay(H, After(n, ops[0]), ops[1..])
  }

  lemma FewerCollisions(H: Hasher, U: set<Bytes>, V: set<Bytes>)
    requires CollisionFree(H, U) && V <= U
    ensures CollisionFree(H, V)
  {
  }

  /** What holds between the operations of a run. */
  ghost predicate Ready(t: TrieDb, U: set<Bytes>, K: set<Bytes>)
    reads t, t.db
  {
    t.Valid() && PrefixFreeKeys(K) && t.contents.Keys <= K && t.db.Held() <= U && CollisionFree(t.H, U)
  }

  /** One operation in a run. */
  method Perform(t: TrieDb, op: Op, ghost U: set<Bytes>, ghost K: set<Bytes>)
    requires Ready(t, U, K) && Normal(t.trie) && Allowed(op, K) && InPlay(t.H, t.trie, op) <= U
    modifies t, t.db`main, t.db`disk
    ensures Ready(t, U, K) && t.contents == ApplyOp(old(t.contents), op)
    ensures t.trie == After(old(t.trie), op) && t.db.disk.Some? == old(t.db.disk).Some?
  {
    hide TrieDb.Valid, Normal, PrefixFreeKeys, Merged, Deleted, Below, Touched, DeleteTouchedRef, CollisionFree, Enc, Clash, Plain;
    Prepared(t, op, U, K);
    match op
    case Commit =>
      t.Commit();
    case Insert(key, v) =>
      t.Insert(key, v);
    case Remove(key) =>
      var end := t.Remove(key);
  }

  /** An operation in a run meets what the stored trie asks for. */
  lemma {:induction false} Prepared(t: TrieDb, op: Op, U: set<Bytes>, K: set<Bytes>)
    requires Ready(t, U, K) && Normal(t.trie) && Allowed(op, K) && InPlay(t.H, t.trie, op) <= U
    ensures op.Commit? ==> var V := t.db.Held() + Below(t.H, t.trie) + {Enc(t.H, t.trie)}; CollisionFree(t.H, V) && V <= U
    ensures op.Insert? ==> var V := t.InsertInPlay(op.key, op.value); CollisionFree(t.H, V) && V <= U
    ensures op.Remove? ==> var V := t.RemoveInPlay(op.key);
      && CollisionFree(t.H, V) && V <= U
      && !Clash(t.Takes(), t.trie, ToNibbles(op.key))
      && (op.key !in t.contents <==> Plain(t.trie, ToNibbles(op.key)).Absent?)
  {
    t.Open();
    hide TrieDb.Valid, Merged, Below, Touched, DeleteTouchedRef, Enc, Refs, NodeStore.Tracks, NodeStore.Sound;
    if op.Commit? {
      FewerCollisions(t.H, U, t.db.Held() + Below(t.H, t.trie) + {Enc(t.H, t.trie)});
    } else if op.Insert? {
      FewerCollisions(t.H, U, t.InsertInPlay(op.key, op.value));
    } else {
      FewerCollisions(t.H, U, t.RemoveInPlay(op.key));
      RemovalPrepared(t.Takes(), t.trie, t.contents, op.key, K);
    }
  }

  lemma {:induction false} RemovalPrepared(takes: Taker, n: Node, m: Contents, key: Bytes, K: set<Bytes>)
    requires Normal(n) && Agrees(n, m) && PrefixFreeKeys(K) && m.Keys <= K && key in K
    ensures !Clash(takes, n, ToNibbles(key))
    ensures key !in m <==> Plain(n, ToNibbles(key)).Absent?
  {
    var k := ToNibbles(key);
    assert key in m ==> m[key] != [];
    hide Agrees, Normal, PrefixFreeKeys, Clash, Deleted;
    NoClash(takes, n, m, key, K);
    NoClash(Never, n, m, key, K);
    FaultExactly(Never, n, k);
    DeletedDeletes(Never, n, k);
    AgreesAt(n, m, key);
  }

  /**
   Any run over keys of which none is a prefix of another goes through, to the contents that the
   operations lead to; and then the root is the hash of the contents.
   */
  method RunAll(t: TrieDb, ops: seq<Op>, ghost K: set<Bytes>)
    requires t.Valid() && Normal(t.trie)
    requires PrefixFreeKeys(K) && t.contents.Keys <= K && AllAllowed(ops, K)
    requires CollisionFree(t.H, t.db.Held() + AllInPlay(t.H, t.trie, ops))
    modifies t, t.db`main, t.db`disk
    ensures t.Valid() && t.contents == ApplyAll(old(t.contents), ops) && t.trie == AfterAll(old(t.trie), ops)
    ensures AllStored(t.contents) && t.root == HashOf(t.H, t.contents)
    ensures t.db.Held() <= old(t.db.Held() + AllInPlay(t.H, t.trie, ops))
    ensures t.db.disk.Some? == old(t.db.disk).Some?
  {
    hide InPlay, After, Normal, TrieDb.Valid, ApplyOp, CollisionFree, PrefixFreeKeys, NodeStore.Held;
    ghost var U := t.db.Held() + AllInPlay(t.H, t.trie, ops);
    for i := 0 to |ops|
      invariant Ready(t, U, K) && Normal(t.trie)
      invariant AllInPlay(t.H, t.trie, ops[i..]) <= U
      invariant ApplyAll(t.contents, ops[i..]) == ApplyAll(old(t.contents), ops)
      invariant AfterAll(t.trie, ops[i..]) == AfterAll(old(t.trie), ops)
      invariant t.db.disk.Some? == old(t.db.disk).Some?
    {
      assert ops[i..][0] == ops[i] && ops[i..][1..] == ops[i + 1..];
      Perform(t, ops[i], U, K);
    }
    t.RootIsHash256();
  }

  /**
   From an empty store, with a disk or without: after any such run every key is looked up as the
   operations leave it, the root is the hash of the contents, and the scan finds the trie sound.
   Without a disk each hash is counted as often as the unfolded tree mentions it, the root once, and
   nothing is left over.
   */
  method RunFromEmpty(H: Hasher, withDisk: bool, enforce: bool, ops: seq<Op>, ghost K: set<Bytes>)
    returns (t: TrieDb, leftOvers: Option<set<Hash>>)
    requires PrefixFreeKeys(K) && AllAllowed(ops, K)
    requires CollisionFree(H, {RLP_NULL} + AllInPlay(H, Null, ops))
    ensures fresh(t) && t.H == H && t.Valid()
    ensures t.contents == ApplyAll(map[], ops) && t.trie == AfterAll(Null, ops)
    ensures forall key :: t.At(key) == if key in t.contents then t.contents[key] else []
    ensures AllStored(t.contents) && t.root == HashOf(H, t.contents)
    ensures leftOvers.Some? && (!withDisk ==> leftOvers.value == {})
    ensures !withDisk ==> forall h :: t.db.Count(h) == (multiset{t.root} + Refs(H, t.trie))[h]
  {
    var store := new NodeStore(if withDisk then Some(map[]) else None, enforce);
    t := new TrieDb(H, store);
    ghost var U := {RLP_NULL} + AllInPlay(H, Null, ops);
    assert store.Held() == {};
    FewerCollisions(H, U, store.Held() + {RLP_NULL});
    t.Init();
    FewerCollisions(H, U, t.db.Held() + AllInPlay(H, Null, ops));
    RunAll(t, ops, K);
    FewerCollisions(H, U, t.db.Held() + {RLP_NULL});
    leftOvers := t.LeftOvers();
  }
}
