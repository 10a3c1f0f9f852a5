/**
 The trie's iterator: a trail of frames from the root to the present entry, moved on
 to the next entry or to the first one that is not before a given key.
 */
module TrieIterator {
  import opened Rlp
  import opened HexPrefix
  import opened Trie
  import opened TrieHash
  import opened TrieRefs
  import opened TrieSteps
  import opened TrieBuild
  import opened TrieCanon
  import opened TrieWalk
  import opened TrieDb

  datatype Frame = Frame(item: Item, key: Bytes, child: nat)

  class TrieIterator {
    const trie: TrieDb
    var attached: bool
    var trail: seq<Frame>

    // The spots that the frames stand for, and how many entries lie behind.
    ghost var spots: seq<Spot>
    ghost var passed: nat

    /** At the first entry. */
    constructor Begin(t: TrieDb)
      requires t.Valid()
      ensures trie == t && Valid()
      ensures attached == (Entries() != []) && passed == if attached then 1 else 0
    {
      trie, attached := t, true;
      trail, spots, passed := [], [], 0;
      new;
      hide TrieDb.Valid, Right, Pending, Walk, Normal;
      EnterRoot();
      Next();
    }

    /** At the first entry that is not before the key. */
    constructor LowerBound(t: TrieDb, key: Bytes)
      requires t.Valid()
      ensures trie == t && Valid()
      ensures From(Entries(), ToNibbles(key)) == if attached then Entries()[passed - 1..] else []
    {
      trie, attached := t, true;
      trail, spots, passed := [], [], 0;
      new;
      hide TrieDb.Valid, Right, Pending, Walk, From, ToNibbles, Entries, Ahead, AllInPlace;
      EnterRoot();
      ghost var at := AheadOfRoot(ToNibbles(key));
      Seek(ToNibbles(key), at);
    }

    ghost predicate Right(f: Frame, s: Spot)
      reads trie.db
    {
      && InPlace(s) && Sized(s.node) && trie.Readable(s.node)
      && f == Frame(ItemOf(trie.H, s.node), Encoded(s.path, false), s.child)
    }

    ghost predicate Linked()
      reads this, trie.db
      ensures Linked() ==> AllInPlace(spots)
    {
      |trail| == |spots| && forall i :: 0 <= i < |trail| ==> Right(trail[i], spots[i])
    }

    /** All entries of the trie in ascending order. */
    ghost function Entries(): seq<Entry>
      requires trie.Valid()
      reads trie, trie.db
    {
      Walk(trie.trie, [])
    }

    /** The entries from `passed` on are ahead of the trail. */
    ghost predicate OnTrack()
      reads this, trie, trie.db
    {
      trie.Valid() && Linked() && passed <= |Entries()| && Pending(spots) == Entries()[passed..]
    }

    /** On track, and showing the last entry that was passed. */
    ghost predicate Valid()
      reads this, trie, trie.db
    {
      && OnTrack() && attached == (trail != [])
      && (!attached ==> passed == |Entries()|)
      && (attached ==> passed > 0 && Shows(Top(spots)) && Shown(Top(spots)) == Entries()[passed - 1])
    }

    lemma Place()
      requires Valid()
      ensures trie.Valid() && OnTrack() && passed <= |Entries()|
      ensures if attached then passed > 0 else passed == |Entries()|
    {
    }

    lemma {:induction false} Listed()
      requires trie.Valid()
      ensures ListsAll(Entries(), trie.contents)
    {
      trie.Open();
      WalkListsAll(trie.trie, trie.contents);
    }

    // ---- steps on the trail ----

    method Pop()
      requires Linked() && spots != []
      modifies this`trail, this`spots
      ensures Linked() && spots == Outer(old(spots)) && |trail| == |old(trail)| - 1
    {
      trail := trail[..|trail| - 1];
      spots := spots[..|spots| - 1];
    }

    method Push(f: Frame, ghost s: Spot)
      requires Linked() && Right(f, s)
      modifies this`trail, this`spots
      ensures Linked() && spots == old(spots) + [s] && trail == old(trail) + [f]
    {
      trail := trail + [f];
      spots := spots + [s];
    }

    /** The innermost frame gives way to another one. */
    method Replace(f: Frame, ghost s: Spot)
      requires Linked() && spots != [] && Right(f, s)
      modifies this`trail, this`spots
      ensures Linked() && spots == Outer(old(spots)) + [s] && |trail| == |old(trail)|
      ensures Pending(spots) == Remaining(s) + Pending(Outer(old(spots)))
      ensures Work(spots) == Load(s) + Work(Outer(old(spots)))
    {
      hide Pending, Work, Remaining, Load;
      Pop();
      Push(f, s);
      PendingPush(Outer(old(spots)), s);
    }

    /** The root is about to be entered. */
    method EnterRoot()
      requires trie.Valid() && trail == [] && spots == []
      modifies this`trail, this`spots
      ensures Linked() && spots == [Spot(trie.trie, [], ENTERING)] && trail != []
      ensures Pending(spots) == Entries()
    {
      RootRight();
      hide TrieDb.Valid, Entries, Pending, Work, Walk, From, Right, Normal, Parse, NodeStore.NodeStore.Lookup;
      Push(Frame(Parse(trie.db.Lookup(trie.root)).value, [0], ENTERING), Spot(trie.trie, [], ENTERING));
      assert spots == [Spot(trie.trie, [], ENTERING)];
    }

    lemma {:induction false} RootRight()
      requires trie.Valid()
      ensures Parse(trie.db.Lookup(trie.root)).Ok?
      ensures Right(Frame(Parse(trie.db.Lookup(trie.root)).value, [0], ENTERING), Spot(trie.trie, [], ENTERING))
      ensures AllInPlace([Spot(trie.trie, [], ENTERING)]) && Pending([Spot(trie.trie, [], ENTERING)]) == Entries()
    {
      trie.Open();
      RootReadable();
      BoundedIsSized(trie.trie);
      EmptyPath();
      hide TrieDb.Valid, TrieDb.Readable, ItemOf, Sized, Bounded, Agrees, Parse, Enc, Refs, Pending, Walk, Normal, AllInPlace, Encoded;
      RootPending(trie.trie);
    }

    lemma {:induction false} RootPending(n: Node)
      requires Normal(n)
      ensures var s := Spot(n, [], ENTERING);
        InPlace(s) && AllInPlace([s]) && Pending([s]) == Walk(n, [])
    {
      hide Walk;
      var s := Spot(n, [], ENTERING);
      PendingPush([], s);
      PendingNothing();
      assert [] + [s] == [s];
    }

    lemma RootReadable()
      requires trie.Valid()
      ensures trie.Readable(trie.trie)
    {
    }

    lemma {:induction false} AheadOfRoot(k: Nibbles) returns (at: nat)
      requires trie.Valid() && spots == [Spot(trie.trie, [], ENTERING)] && AllInPlace(spots)
      ensures at <= |Entries()| && Ahead(spots, k) == Entries()[at..] == From(Entries(), k)
    {
      hide TrieDb.Valid, Right, Walk, From;
      AheadEntering(spots, k);
      assert [] + k == k;
      WalkSorted(trie.trie, []);
      FromIs(Entries(), k);
      at := |Entries()| - |From(Entries(), k)|;
    }

    /** The frame of a child, read through the store. */
    method KidFrame(f: Frame, c: Nibble, ghost s: Spot) returns (r: Frame)
      requires Right(f, s) && s.node.Branch? && s.node.kids[c] != Null
      ensures Right(r, Spot(s.node.kids[c], s.path + [c], ENTERING))
    {
      ItemShape(trie.H, s.node);
      KidKept(trie.H, s.node, c);
      EncodedInverts(s.path, false);
      var item := trie.Deref(f.item.items[c], s.node.kids[c]);
      r := Frame(item, Encoded(KeyOf(f.key) + [c], false), ENTERING);
    }

    /** The frame of an extension's node, read through the store. */
    method ChildFrame(f: Frame, ghost s: Spot) returns (r: Frame)
      requires Right(f, s) && s.node.Ext?
      ensures Right(r, Spot(s.node.child, s.path + s.node.key, ENTERING))
    {
      ItemShape(trie.H, s.node);
      ChildKept(trie.H, s.node);
      EncodedInverts(s.path, false);
      var item := trie.Deref(f.item.items[1], s.node.child);
      r := Frame(item, Encoded(KeyOf(f.key) + PairKey(f.item), false), ENTERING);
    }

    /** The frame of a leaf that is shown. */
    method LeafFrame(f: Frame, ghost s: Spot) returns (r: Frame)
      requires Right(f, s) && s.node.Leaf?
      ensures Right(r, Spot(s.node, s.path + s.node.key, 0))
    {
      ItemShape(trie.H, s.node);
      EncodedInverts(s.path, false);
      r := Frame(f.item, Encoded(KeyOf(f.key) + PairKey(f.item), false), 0);
    }

    /** Looks for the next slot in use; stops at a value, enters a child, or leaves the node. */
    method Scan(first: nat) returns (stop: bool, c: nat)
      requires Linked() && spots != [] && first <= FINISHED && Top(spots).node.Branch?
      modifies this`trail, this`spots
      ensures Linked() && (stop ==> spots != [] && Shows(Top(spots)))
      ensures var b := old(Top(spots));
        stop ==> [Shown(Top(spots))] + Pending(spots) == FromSlot(b.node, first, b.path) + Pending(Outer(old(spots)))
      ensures var b := old(Top(spots));
        !stop ==> Pending(spots) == FromSlot(b.node, first, b.path) + Pending(Outer(old(spots)))
      ensures var b := old(Top(spots));
        !stop ==> Work(spots) <= SlotLoad(b.node, first) + Work(Outer(old(spots)))
      ensures var b := old(Top(spots));
        (first < 16 && Used(b.node, first) ==> c == first) && (c < FINISHED ==> Used(b.node, c))
      ensures var b := old(Top(spots));
        c < 16 ==> !stop && spots == Outer(old(spots)) + [Spot(b.node, b.path, c)] + [Spot(b.node.kids[c], b.path + [c], ENTERING)]
    {
      hide FromSlot, Pending, Work, SlotLoad, From, Walk, Remaining, Load, Increment, Normal, ItemOf, RefOf, Encoded, Sized;
      var f := trail[|trail| - 1];
      ghost var s := Top(spots);
      ghost var below := Outer(spots);
      TopRight();
      c := Skip(f, first, s);
      if c == FINISHED {
        Pop();
        NothingLeft(s, below);
        return false, c;
      }
      if c == VALUE {
        ValueShown(s, below);
        MovedTo(f, s, VALUE);
        Replace(Frame(f.item, f.key, VALUE), Spot(s.node, s.path, VALUE));
        return true, c;
      }
      var kid := KidFrame(f, c, s);
      MovedTo(f, s, c);
      KidEntered(s, c, below);
      Replace(Frame(f.item, f.key, c), Spot(s.node, s.path, c));
      PendingPush(spots, Spot(s.node.kids[c], s.path + [c], ENTERING));
      Push(kid, Spot(s.node.kids[c], s.path + [c], ENTERING));
      return false, c;
    }

    lemma TopRight()
      requires Linked() && spots != []
      ensures Right(trail[|trail| - 1], Top(spots)) && (Top(spots).node.Branch? ==> |Top(spots).node.kids| == 16)
    {
    }

    lemma MovedTo(f: Frame, s: Spot, c: nat)
      requires Right(f, s) && s.node.Branch? && c <= VALUE
      ensures Right(Frame(f.item, f.key, c), Spot(s.node, s.path, c))
    {
    }

    /** The first slot in use from `first` on. */
    method Skip(f: Frame, first: nat, ghost s: Spot) returns (c: nat)
      requires Right(f, s) && s.node.Branch? && first <= FINISHED
      ensures c <= FINISHED && (c < FINISHED ==> Used(s.node, c))
      ensures FromSlot(s.node, c, s.path) == FromSlot(s.node, first, s.path)
      ensures SlotLoad(s.node, c) <= SlotLoad(s.node, first)
      ensures first < FINISHED && Used(s.node, first) ==> c == first
    {
      c := first;
      ItemShape(trie.H, s.node);
      hide FromSlot, SlotLoad, ItemOf, RefOf, Encoded, Normal, Sized;
      while c != FINISHED
        invariant c <= FINISHED
        invariant FromSlot(s.node, c, s.path) == FromSlot(s.node, first, s.path)
        invariant SlotLoad(s.node, c) <= SlotLoad(s.node, first)
        invariant first < FINISHED && Used(s.node, first) ==> c == first
        decreases if c == VALUE then 17 else if c == FINISHED then 0 else 16 - c
      {
        SlotInUse(f, s, c);
        if !IsEmptyItem(f.item.items[c]) { return; }
        SlotSkipped(s.node, c, s.path);
        c := Increment(c);
      }
    }

    lemma {:induction false} SlotInUse(f: Frame, s: Spot, c: nat)
      requires Right(f, s) && s.node.Branch? && c <= VALUE
      ensures f.item.List? && |f.item.items| == 17
      ensures IsEmptyItem(f.item.items[c]) <==> !Used(s.node, c)
    {
      ItemShape(trie.H, s.node);
      if c < 16 { RefShape(trie.H, s.node.kids[c]); }
    }

    /** Entering a leaf or an extension on the way to a bound. */
    method EnterPair(k: Nibbles) returns (stop: bool, rest: Nibbles)
      requires Linked() && spots != [] && Top(spots).child == ENTERING && (Top(spots).node.Leaf? || Top(spots).node.Ext?)
      modifies this`trail, this`spots
      ensures Linked() && Turned(old(spots), k, spots, stop, rest)
    {
      hide FromSlot, Pending, Work, SlotLoad, From, Walk, Remaining, Load, Increment, Normal, ItemOf, RefOf, Encoded, Sized;
      var f := trail[|trail| - 1];
      ghost var s := Top(spots);
      TopRight();
      PairOf(f, s);
      AheadEntering(spots, k);
      var key := PairKey(f.item);
      var left := k;
      if !IsPrefix(key, k) {
        FromParted(s.node, s.path, k);
        if !Less(k, key) {
          Pop();
          Skipped(old(spots), k);
          return false, [];
        }
        left := [];
      }
      left := left[if |left| < |key| then |left| else |key|..];
      if PairIsLeaf(f.item) {
        LeafLeft(s, k, left);
        if left == [] {
          f := LeafFrame(f, s);
          Replace(f, Spot(s.node, s.path + s.node.key, 0));
          LeafShown(old(spots), k, spots);
          return true, [];
        }
        Pop();
        Skipped(old(spots), k);
        return false, [];
      }
      ExtLeft(s, k, left);
      f := ChildFrame(f, s);
      Replace(f, Spot(s.node.child, s.path + s.node.key, ENTERING));
      ChildTurned(old(spots), k, spots, left);
      return false, left;
    }

    lemma {:induction false} PairOf(f: Frame, s: Spot)
      requires Right(f, s) && (s.node.Leaf? || s.node.Ext?)
      ensures IsPair(f.item) && PairKey(f.item) == s.node.key && PairIsLeaf(f.item) == s.node.Leaf?
    {
      ItemShape(trie.H, s.node);
    }

    lemma {:induction false} KindOf(f: Frame, s: Spot)
      requires Right(f, s)
      ensures f.child == s.child
      ensures IsEmptyItem(f.item) <==> s.node.Null?
      ensures !s.node.Null? ==> f.item.List? && (|f.item.items| == 2 <==> s.node.Leaf? || s.node.Ext?)
      ensures s.node.Null? || s.node.Ext? ==> s.child == ENTERING
    {
      ItemShape(trie.H, s.node);
    }

    /** Entering a branch on the way to a bound. */
    method EnterBranch(k: Nibbles) returns (stop: bool, rest: Nibbles)
      requires Linked() && spots != [] && Top(spots).child == ENTERING && Top(spots).node.Branch?
      modifies this`trail, this`spots
      ensures Linked() && Turned(old(spots), k, spots, stop, rest)
    {
      hide FromSlot, Pending, Work, SlotLoad, From, Walk, AllInPlace, Increment, Right, Normal;
      ghost var before := spots;
      var c;
      if k != [] {
        TopRight();
        ghost var into := Top(spots).node.kids[k[0]] != Null;
        stop, c := Scan(k[0]);
        rest := if c == k[0] then k[1..] else [];
        if into { KidTurned(before, k, spots); } else { BranchAhead(before, k); }
      } else {
        stop, c := Scan(VALUE);
        rest := [];
        BranchAhead(before, k);
      }
    }

    /** One turn of the search for the next entry that is not before the bound. */
    method Turn(k: Nibbles) returns (stop: bool, rest: Nibbles)
      requires Linked() && spots != [] && Bound(spots, k)
      modifies this`trail, this`spots
      ensures Linked() && Turned(old(spots), k, spots, stop, rest)
    {
      var f := trail[|trail| - 1];
      TopRight();
      KindOf(f, Top(spots));
      hide FromSlot, Pending, Work, SlotLoad, From, Walk, AllInPlace, Increment;
      if f.child == ENTERING {
        if IsEmptyItem(f.item) {
          NullAhead(spots, k);
          Pop();
          Skipped(old(spots), k);
          return false, [];
        }
        if |f.item.items| == 2 {
          stop, rest := EnterPair(k);
        } else {
          stop, rest := EnterBranch(k);
        }
      } else if |f.item.items| != 17 {
        LeafLeftBehind(spots);
        Pop();
        return false, [];
      } else {
        GoingOn(spots);
        var c;
        stop, c := Scan(Increment(f.child));
        rest := [];
      }
    }

    /** Moves on to the first entry ahead that is not before the bound. */
    method Seek(key: Nibbles, ghost at: nat)
      requires trie.Valid() && Linked() && Bound(spots, key)
      requires at <= |Entries()| && Ahead(spots, key) == Entries()[at..]
      modifies this
      ensures Valid() && attached == (at < |Entries()|)
      ensures passed == if attached then at + 1 else at
    {
      hide TrieDb.Valid, Entries, Pending, Work, Walk, From, Right, Normal;
      var k := key;
      while true
        invariant Linked() && Bound(spots, k) && Ahead(spots, k) == Entries()[at..]
        decreases Work(spots)
      {
        if trail == [] {
          PendingNothing();
          attached, passed := false, at;
          return;
        }
        var stop;
        stop, k := Turn(k);
        if stop {
          attached, passed := true, at + 1;
          return;
        }
      }
    }

    /** Moves on to the next entry; past the last one the iterator lets go of the trie. */
    method Next()
      requires OnTrack()
      modifies this
      ensures Valid() && attached == (old(passed) < |Entries()|)
      ensures passed == if attached then old(passed) + 1 else old(passed)
    {
      Seek([], passed);
    }

    /** The key and value of the entry that is shown. */
    method At() returns (key: Bytes, value: Bytes)
      requires Valid() && attached
      ensures key in trie.contents && trie.contents[key] == value
      ensures (ToNibbles(key), value) == Entries()[passed - 1]
    {
      hide TrieDb.Valid, Right, Pending, Walk, Encoded, Normal, ToNibbles, AllInPlace;
      var f := trail[|trail| - 1];
      TopRight();
      ShownItem(f, Top(spots));
      key := f.key[1..];
      value := f.item.items[if |f.item.items| == 2 then 1 else 16].data;
      ShownKey(key);
    }

    lemma ShownItem(f: Frame, s: Spot)
      requires Right(f, s) && Shows(s)
      ensures f.key == Encoded(s.path, false) && f.item.List?
      ensures |f.item.items| == 2 ==> f.item.items[1] == Data(s.node.value)
      ensures |f.item.items| != 2 ==> |f.item.items| == 17 && f.item.items[16] == Data(s.node.value)
    {
    }

    /** The entry shown is one of the contents, so its path is a whole number of bytes. */
    lemma {:induction false} ShownKey(key: Bytes)
      requires Valid() && attached && key == Encoded(Top(spots).path, false)[1..]
      ensures key in trie.contents && trie.contents[key] == Top(spots).node.value
      ensures ToNibbles(key) == Top(spots).path
    {
      var e := Entries()[passed - 1];
      ListedKey(e);
      hide TrieDb.Valid, Right, Pending;
      var known :| known in trie.contents && ToNibbles(known) == e.0 && trie.contents[known] == e.1;
      WholeBytes(known);
    }

    lemma {:induction false} ListedKey(e: Entry)
      requires trie.Valid() && e in Entries()
      ensures exists known :: known in trie.contents && ToNibbles(known) == e.0 && trie.contents[known] == e.1
    {
      Listed();
      var known :| known in trie.contents && ToNibbles(known) == e.0;
    }
  }

  /** Entries under their keys' nibbles. */
  function Nibbled(s: seq<(Bytes, Bytes)>): seq<Entry> {
    seq(|s|, i requires 0 <= i < |s| => (ToNibbles(s[i].0), s[i].1))
  }

  /** Running over the trie from the first entry to the end meets every entry once, in ascending order. */
  method Listing(t: TrieDb) returns (out: seq<(Bytes, Bytes)>)
    requires t.Valid()
    ensures ListsAll(Nibbled(out), t.contents)
  {
    hide TrieDb.Valid, TrieIterator.OnTrack, TrieIterator.Valid, TrieIterator.Entries, ToNibbles, ListsAll, Nibbled;
    var it := new TrieIterator.Begin(t);
    out := [];
    ghost var all := it.Entries();
    it.Place();
    it.Listed();
    NibbledNothing();
    while it.attached
      invariant fresh(it) && it.trie == t && t.Valid() && it.Valid() && it.Entries() == all
      invariant it.passed == |out| + (if it.attached then 1 else 0) <= |all|
      invariant !it.attached ==> it.passed == |all|
      invariant Nibbled(out) == all[..|out|]
      decreases |all| - |out|
    {
      it.Place();
      var key, value := it.At();
      NibbledMore(out, (key, value), all);
      out := out + [(key, value)];
      it.Next();
      it.Place();
    }
    assert all[..|out|] == all;
  }

  lemma NibbledNothing()
    ensures Nibbled([]) == []
  {
  }

  lemma {:induction false} NibbledMore(s: seq<(Bytes, Bytes)>, x: (Bytes, Bytes), all: seq<Entry>)
    requires |s| < |all| && Nibbled(s) == all[..|s|] && all[|s|] == (ToNibbles(x.0), x.1)
    ensures Nibbled(s + [x]) == all[..|s| + 1]
  {
    assert Nibbled(s + [x]) == Nibbled(s) + [all[|s|]];
  }

  lemma EmptyPath()
    ensures Encoded([], false) == [0]
  {
  }

  /** A key that is a whole number of bytes is the encoded path without its first byte. */
  lemma {:induction false} WholeBytes(key: Bytes)
    ensures Encoded(ToNibbles(key), false)[1..] == key
  {
    PackNibbles(key);
  }
}
