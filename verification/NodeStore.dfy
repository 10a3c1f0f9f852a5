/**
 The reference-counted node store.  With a disk behind it this is the overlay
 database; without one it is the plain memory database.
 */
module NodeStore {
  import opened Rlp
  import opened TrieHash
  import opened Options

  /** What a store holds at one moment. */
  datatype Shelf = Shelf(main: map<Hash, (Bytes, nat)>, disk: Option<map<Hash, Bytes>>, enforceRefs: bool) {

    function MemoryLookup(h: Hash): Bytes {
      if h in main && (!enforceRefs || main[h].1 > 0) then main[h].0 else []
    }

    /** The memory first, then the disk; no bytes when neither has the hash. */
    function Lookup(h: Hash): Bytes {
      var r := MemoryLookup(h);
      if r != [] || disk.None? then r
      else if h in disk.value then disk.value[h] else []
    }

    /** One reference fewer, if the memory has one. */
    function Without(h: Hash): Shelf {
      if h in main && main[h].1 > 0 then this.(main := main[h := (main[h].0, main[h].1 - 1)]) else this
    }
  }

  class NodeStore {
    var main: map<Hash, (Bytes, nat)>
    var disk: Option<map<Hash, Bytes>>
    var enforceRefs: bool

    constructor (backing: Option<map<Hash, Bytes>>, enforce: bool)
      ensures main == map[] && disk == backing && enforceRefs == enforce
    {
      main, disk, enforceRefs := map[], backing, enforce;
    }

    function Count(h: Hash): nat
      reads this
    {
      if h in main then main[h].1 else 0
    }

    predicate OnDisk(h: Hash)
      reads this
    {
      disk.Some? && h in disk.value
    }

    function State(): Shelf
      reads this
    {
      Shelf(main, disk, enforceRefs)
    }

    function Lookup(h: Hash): Bytes
      reads this
    {
      State().Lookup(h)
    }

    /** Every byte string held, dead entries included. */
    ghost function Held(): set<Bytes>
      reads this
    {
      (set h | h in main :: main[h].0) + (if disk.Some? then set h | h in disk.value :: disk.value[h] else {})
    }

    /** Everything held is in `U` and stands under its own hash. */
    ghost predicate Sound(H: Hasher, U: set<Bytes>)
      reads this
    {
      && (forall h :: h in main ==> main[h].0 in U && main[h].0 != [] && H(main[h].0) == h)
      && (disk.Some? ==> forall h :: h in disk.value ==> disk.value[h] in U && disk.value[h] != [] && H(disk.value[h]) == h)
    }

    /** The counts of all hashes that the disk does not have are those of `C`. */
    ghost predicate Tracks(C: multiset<Hash>)
      reads this
    {
      forall h :: !OnDisk(h) ==> Count(h) == C[h]
    }

    lemma SoundGrows(H: Hasher, U: set<Bytes>, V: set<Bytes>)
      requires Sound(H, U) && U <= V
      ensures Sound(H, V)
    {
    }

    lemma SoundHeld(H: Hasher, U: set<Bytes>)
      requires Sound(H, U)
      ensures Sound(H, Held())
    {
    }

    lemma HeldInside(H: Hasher, U: set<Bytes>)
      requires Sound(H, U)
      ensures Held() <= U
    {
    }

    /** A tracked hash of a string in play leads to that string. */
    lemma Finds(H: Hasher, U: set<Bytes>, C: multiset<Hash>, x: Bytes)
      requires Sound(H, U) && Tracks(C) && x in U && H(x) in C
      requires forall y :: y in U && H(y) == H(x) ==> y == x
      ensures Lookup(H(x)) == x
    {
    }

    /**
     What a lookup gives: under reference counting a hash without references is not found in memory; any
     other entry comes before the disk.
     */
    lemma LookupIs(h: Hash)
      ensures h in main && main[h].0 != [] && (enforceRefs ==> main[h].1 > 0) ==> Lookup(h) == main[h].0
      ensures h !in main || (enforceRefs && main[h].1 == 0) ==>
        Lookup(h) == if disk.Some? && h in disk.value then disk.value[h] else []
    {
    }

    method Insert(h: Hash, v: Bytes)
      modifies this`main
      ensures h in main && main[h] == (v, old(Count(h)) + 1)
      ensures main == old(main)[h := (v, old(Count(h)) + 1)]
    {
      if h in main {
        main := main[h := (v, main[h].1 + 1)];
      } else {
        main := main[h := (v, 1)];
      }
    }

    /** Takes one reference away if the memory has one. */
    method Kill(h: Hash) returns (killed: bool)
      modifies this`main
      ensures killed == (old(Count(h)) > 0)
      ensures State() == old(State()).Without(h)
      ensures main == if killed then old(main)[h := (old(main)[h].0, old(main)[h].1 - 1)] else old(main)
    {
      if h in main {
        if main[h].1 > 0 {
          main := main[h := (main[h].0, main[h].1 - 1)];
          return true;
        }
      }
      return false;
    }

    /** Inserting a string in play under its hash adds one reference. */
    method InsertTracked(H: Hasher, v: Bytes, ghost U: set<Bytes>, ghost C: multiset<Hash>) returns (h: Hash)
      requires Sound(H, U) && Tracks(C) && v in U && v != []
      modifies this`main
      ensures h == H(v) && Sound(H, U) && Tracks(C + multiset{H(v)})
    {
      h := H(v);
      Insert(h, v);
    }

    /** Killing a hash takes its reference away, if it has any. */
    method KillTracked(h: Hash, ghost H: Hasher, ghost U: set<Bytes>, ghost C: multiset<Hash>)
      requires Sound(H, U) && Tracks(C)
      modifies this`main
      ensures Sound(H, U) && Tracks(C - multiset{h}) && State() == old(State()).Without(h)
    {
      var killed := Kill(h);
    }

    /** The hashes with a positive count. */
    method Keys() returns (r: set<Hash>)
      ensures r == set h | h in main && main[h].1 > 0
    {
      r := {};
      var rest := main.Keys;
      while rest != {}
        invariant rest <= main.Keys
        invariant r == set h | h in main && h !in rest && main[h].1 > 0
        decreases |rest|
      {
        var h :| h in rest;
        if main[h].1 > 0 { r := r + {h}; }
        rest := rest - {h};
      }
    }

    /** Writes every entry with a positive count to the disk and empties the memory. */
    method Commit()
      modifies this`main, this`disk
      ensures old(disk).None? ==> main == old(main) && disk == old(disk)
      ensures old(disk).Some? ==> main == map[] && disk.Some?
      ensures old(disk).Some? ==> disk.value.Keys == old(disk).value.Keys + set h | h in old(main) && old(main)[h].1 > 0
      ensures old(disk).Some? ==> forall h :: h in disk.value ==>
        disk.value[h] == if h in old(main) && old(main)[h].1 > 0 then old(main)[h].0 else old(disk).value[h]
    {
      if disk.Some? {
        var batch := disk.value;
        var rest := main.Keys;
        while rest != {}
          invariant rest <= main.Keys
          invariant batch.Keys == disk.value.Keys + set h | h in main && h !in rest && main[h].1 > 0
          invariant forall h :: h in batch ==>
            batch[h] == if h in main && h !in rest && main[h].1 > 0 then main[h].0 else disk.value[h]
          decreases |rest|
        {
          var h :| h in rest;
          if main[h].1 > 0 { batch := batch[h := main[h].0]; }
          rest := rest - {h};
        }
        disk := Some(batch);
        main := map[];
      }
    }

    /** A commit loses no tracked string: what could be found before is found after. */
    method CommitTracked(H: Hasher, ghost U: set<Bytes>, ghost C: multiset<Hash>)
      requires Sound(H, U) && Tracks(C)
      modifies this`main, this`disk
      ensures Sound(H, U) && Tracks(C) && disk.Some? == old(disk).Some?
      ensures old(disk).Some? ==> main == map[] && forall h :: h in C ==> OnDisk(h)
    {
      Commit();
    }
  }
}
