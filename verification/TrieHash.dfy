/**
 Nodes as RLP items, nodes of 32 bytes and more referred to by hash, and the
 hash of a whole map computed from scratch.
 */
module TrieHash {
  import opened Rlp
  import opened HexPrefix
  import opened Trie
  import opened TrieBuild

  const ZERO_HASH: Bytes := [
    0, 0, 0, 0, 0, 0, 0, 0, 0, 0, 0, 0, 0, 0, 0, 0,
    0, 0, 0, 0, 0, 0, 0, 0, 0, 0, 0, 0, 0, 0, 0, 0]

  type Hash = h: Bytes | |h| == 32 witness ZERO_HASH

  // The hash function is a parameter throughout.
  type Hasher = Bytes -> Hash

  /** A byte string as the reader turns it into a hash: padded with zeros in front. */
  function Pad(v: Bytes): Hash
    requires |v| <= 32
  {
    ZERO_HASH[..32 - |v|] + v
  }

  /** The padded string is the same number in 32 bytes. */
  lemma {:induction false} PadIsNumber(v: Bytes)
    requires |v| <= 32
    ensures |Pad(v)| == 32 && FromBigEndian(Pad(v)) == FromBigEndian(v)
  {
    PaddedIs(v, 32 - |v|);
  }

  lemma {:induction false} ZeroIsZero(n: nat)
    requires n <= 32
    ensures FromBigEndian(ZERO_HASH[..n]) == 0
  {
    if n > 0 {
      ZeroIsZero(n - 1);
      assert ZERO_HASH[..n][..n - 1] == ZERO_HASH[..n - 1];
    }
  }

  lemma {:induction false} PaddedIs(v: Bytes, n: nat)
    requires n <= 32
    ensures FromBigEndian(ZERO_HASH[..n] + v) == FromBigEndian(v)
    decreases |v|
  {
    if v == [] {
      ZeroIsZero(n);
      assert ZERO_HASH[..n] + v == ZERO_HASH[..n];
    } else {
      PaddedIs(v[..|v| - 1], n);
      assert (ZERO_HASH[..n] + v)[..n + |v| - 1] == ZERO_HASH[..n] + v[..|v| - 1];
    }
  }

  const EMPTY: Item := Data([])

  function ItemOf(H: Hasher, n: Node): Item
    decreases n, 0
  {
    match n
    case Null => EMPTY
    case Leaf(k, v) => List([Data(Encoded(k, true)), Data(v)])
    case Ext(k, c) => List([Data(Encoded(k, false)), RefOf(H, c)])
    case Branch(kids, v) => List(seq(|kids|, i requires 0 <= i < |kids| => RefOf(H, kids[i])) + [Data(v)])
  }

  /** How a parent mentions a node: the node itself when short, else its hash. */
  function RefOf(H: Hasher, n: Node): Item
    decreases n, 1
  {
    Reference(H, ItemOf(H, n))
  }

  function Reference(H: Hasher, item: Item): Item {
    if |Encode(item)| < 32 then item else Data(H(Encode(item)))
  }

  function Enc(H: Hasher, n: Node): Bytes {
    Encode(ItemOf(H, n))
  }

  ghost predicate ShortKeys(s: seq<Entry>) {
    forall i :: 0 <= i < |s| ==> |s[i].0| <= MAX_KEY
  }

  /** The smallest number of nibbles that the first key shares with each other one. */
  method SharedPre(s: seq<Entry>, begin: nat, end: nat, preLen: nat) returns (sharedPre: nat)
    requires begin + 2 <= end <= |s| && ShortKeys(s) && Entries(s[begin..end], preLen)
    ensures sharedPre == Common(s[begin..end])
  {
    hide Shared, Less;
    ghost var part := s[begin..end];
    EntriesAtCommon(part, preLen);
    var first := s[begin].0;
    sharedPre := 0xffff_ffff;
    var i := begin + 1;
    while i != end && sharedPre != 0
      invariant begin < i <= end
      invariant Common(part) <= sharedPre
      invariant forall j :: begin < j < i ==> sharedPre <= Shared(first, s[j].0)
    {
      var other := s[i].0;
      assert part[i - begin] == s[i] && part[0] == s[begin];
      CommonIsShared(part, i - begin);
      var shared := Agreement(first, other, preLen, Min(sharedPre, Min(|first|, |other|)));
      sharedPre := Min(shared, sharedPre);
      i := i + 1;
    }
    assert part[|part| - 1] == s[end - 1];
  }

  function Min(a: int, b: int): int { if a < b then a else b }

  method Agreement(a: Nibbles, b: Nibbles, from: nat, limit: nat) returns (shared: nat)
    requires from <= limit <= |a| && limit <= |b| && a[..from] == b[..from]
    ensures shared == Min(Shared(a, b), limit)
  {
    shared := from;
    while shared < limit && a[shared] == b[shared]
      invariant from <= shared <= limit
      invariant a[..shared] == b[..shared]
    {
      assert a[..shared + 1] == a[..shared] + [a[shared]] && b[..shared + 1] == b[..shared] + [b[shared]];
      shared := shared + 1;
    }
    PrefixShared(a, b, shared);
    if shared < limit {
      SharedIs(a, b, shared);
    }
  }

  ghost function Rank(s: seq<Entry>, pre: nat): nat {
    if s != [] && Common(s) > pre then 1 else 0
  }

  /** The item of the trie over entries `begin` up to `end`, keys cut after `preLen` nibbles. */
  method Hash256Rlp(H: Hasher, s: seq<Entry>, begin: nat, end: nat, preLen: nat) returns (r: Item)
    requires begin <= end <= |s| && ShortKeys(s) && Entries(s[begin..end], preLen)
    ensures r == ItemOf(H, Build(s[begin..end], preLen))
    decreases end - begin, Rank(s[begin..end], preLen), 2
  {
    hide Less, Shared;
    ghost var part := s[begin..end];
    if begin == end {
      r := EMPTY;
    } else if begin + 1 == end {
      var hpe := EncodeVector(s[begin].0, true, preLen, -1);
      assert part == [s[begin]];
      assert s[begin].0[preLen..|s[begin].0|] == s[begin].0[preLen..];
      r := List([Data(hpe), Data(s[begin].1)]);
    } else {
      var sharedPre := SharedPre(s, begin, end, preLen);
      EntriesAtCommon(part, preLen);
      assert part[0] == s[begin];
      if sharedPre > preLen {
        var hpe := EncodeVector(s[begin].0, false, preLen, sharedPre);
        var child := Hash256Aux(H, s, begin, end, sharedPre);
        assert Build(part, sharedPre) == BuildBranch(part, sharedPre);
        assert Build(part, preLen) == Ext(s[begin].0[preLen..sharedPre], BuildBranch(part, sharedPre));
        r := List([Data(hpe), child]);
      } else {
        r := Hash256Branch(H, s, begin, end, preLen);
        assert Build(part, preLen) == BuildBranch(part, preLen);
      }
    }
  }

  method Hash256Aux(H: Hasher, s: seq<Entry>, begin: nat, end: nat, preLen: nat) returns (r: Item)
    requires begin <= end <= |s| && ShortKeys(s) && Entries(s[begin..end], preLen)
    ensures r == RefOf(H, Build(s[begin..end], preLen))
    decreases end - begin, Rank(s[begin..end], preLen), 3
  {
    var item := Hash256Rlp(H, s, begin, end, preLen);
    r := if |Encode(item)| < 32 then item else Data(H(Encode(item)));
  }

  /** The end of the run of entries that continue with nibble `i`, from its start at `b`. */
  method RunEnd(s: seq<Entry>, ghost begin: nat, b: nat, end: nat, preLen: nat, i: nat) returns (n: nat)
    requires begin <= b <= end <= |s| && Entries(s[begin..end], preLen) && i < 16
    requires b - begin == Cut(s[begin..end], preLen, i)
    ensures n <= end && n - begin == Cut(s[begin..end], preLen, i + 1)
  {
    hide Cut, Entries;
    ghost var part := s[begin..end];
    ghost var next := Cut(part, preLen, i + 1);
    RunIs(part, preLen, i);
    n := b;
    if n != end { CutIs(part, preLen, i, n - begin); }
    while n != end && s[n].0[preLen] == i
      invariant b <= n <= end && n - begin <= next
      invariant n != end ==> |s[n].0| > preLen && s[n].0[preLen] >= i
      decreases end - n
    {
      CutIs(part, preLen, i + 1, n - begin);
      n := n + 1;
      if n != end { CutIs(part, preLen, i, n - begin); }
    }
    if n != end { CutIs(part, preLen, i + 1, n - begin); }
  }

  /** One slot of a branch: the reference to the trie over one run of entries. */
  method Hash256Slot(H: Hasher, s: seq<Entry>, begin: nat, b: nat, end: nat, preLen: nat, i: nat)
    returns (slot: Item, n: nat)
    requires begin <= b <= end <= |s| && ShortKeys(s) && Splits(s[begin..end], preLen) && i < 16
    requires b - begin == Cut(s[begin..end], preLen, i)
    ensures n <= end && n - begin == Cut(s[begin..end], preLen, i + 1)
    ensures slot == RefOf(H, BuildBranch(s[begin..end], preLen).kids[i])
    decreases end - begin, 0, 0
  {
    hide Entries, Common, Cut, Build, BuildBranch;
    ghost var part := s[begin..end];
    KidIs(part, preLen, i);
    RunIs(part, preLen, i);
    n := RunEnd(s, begin, b, end, preLen, i);
    SliceOfSlice(s, begin, end, b - begin, n - begin);
    if b == n {
      EmptyIsNull(s[b..n], preLen + 1);
      slot := EMPTY;
    } else {
      slot := Hash256Aux(H, s, b, n, preLen + 1);
    }
  }

  lemma {:induction false} SliceOfSlice(s: seq<Entry>, begin: nat, end: nat, lo: nat, hi: nat)
    requires begin <= end <= |s| && lo <= hi <= end - begin
    ensures s[begin..end][lo..hi] == s[begin + lo..begin + hi]
  {
    assert |s[begin..end][lo..hi]| == hi - lo;
    assert forall i :: 0 <= i < hi - lo ==> s[begin..end][lo..hi][i] == s[begin + lo..begin + hi][i];
  }

  lemma EmptyIsNull(s: seq<Entry>, pre: nat)
    requires s == []
    ensures Entries(s, pre) && Build(s, pre) == Null
  {
  }

  /** All sixteen runs of entries that continue alike, and the value of a key that stops here. */
  method Hash256Branch(H: Hasher, s: seq<Entry>, begin: nat, end: nat, preLen: nat) returns (r: Item)
    requires begin <= end <= |s| && ShortKeys(s) && Splits(s[begin..end], preLen)
    ensures r == ItemOf(H, BuildBranch(s[begin..end], preLen))
    decreases end - begin, 0, 1
  {
    hide Entries, Common, Cut, Build, BuildKid, RefOf;
    ghost var part := s[begin..end];
    ghost var kids := BuildBranch(part, preLen).kids;
    var b := begin;
    if preLen == |s[begin].0| { b := b + 1; }
    var slots: seq<Item> := [];
    FirstCut(part, preLen);
    for i := 0 to 16
      invariant begin <= b <= end && b - begin == Cut(part, preLen, i)
      invariant |slots| == i
      invariant forall j :: 0 <= j < i ==> slots[j] == RefOf(H, kids[j])
    {
      var slot, n := Hash256Slot(H, s, begin, b, end, preLen, i);
      slots := slots + [slot];
      b := n;
    }
    assert slots == seq(16, i requires 0 <= i < 16 => RefOf(H, kids[i]));
    r := List(slots + [Data(if preLen == |s[begin].0| then s[begin].1 else [])]);
  }
}
