/**
 Nibble sequences and the hex-prefix notation of trie keys (Appendix C of the
 Ethereum Yellow Paper).
 */
module HexPrefix {
  import opened Rlp

  // Positions in a key are handed on as signed 32-bit numbers.
  const MAX_KEY: nat := 0x7fff_ffff

  type Nibble = x: int | 0 <= x < 16
  type Nibbles = seq<Nibble>

  /** Nibble `i` of a byte string, high half first. */
  function NibbleAt(data: Bytes, i: nat): Nibble
    requires i < 2 * |data|
  {
    if i % 2 == 1 then data[i / 2] % 16 else data[i / 2] / 16
  }

  function ToNibbles(data: Bytes): (n: Nibbles)
    ensures |n| == 2 * |data|
  {
    seq(2 * |data|, i requires 0 <= i < 2 * |data| => NibbleAt(data, i))
  }

  lemma {:induction false} ToNibblesInjective(a: Bytes, b: Bytes)
    requires ToNibbles(a) == ToNibbles(b)
    ensures a == b
  {
    forall i | 0 <= i < |a|
      ensures a[i] == b[i]
    {
      assert ToNibbles(a)[2 * i] == ToNibbles(b)[2 * i];
      assert ToNibbles(a)[2 * i + 1] == ToNibbles(b)[2 * i + 1];
      assert NibbleAt(a, 2 * i) == NibbleAt(b, 2 * i);
      assert NibbleAt(a, 2 * i + 1) == NibbleAt(b, 2 * i + 1);
    }
  }

  // ---- comparing nibble sequences ----

  /** Length of the longest common prefix. */
  function Shared(a: Nibbles, b: Nibbles): (r: nat)
    ensures r <= |a| && r <= |b|
    ensures a[..r] == b[..r]
    ensures r < |a| && r < |b| ==> a[r] != b[r]
  {
    if a != [] && b != [] && a[0] == b[0] then
      var r := Shared(a[1..], b[1..]);
      assert a[..r + 1] == [a[0]] + a[1..][..r] && b[..r + 1] == [b[0]] + b[1..][..r];
      r + 1
    else 0
  }

  predicate IsPrefix(p: Nibbles, k: Nibbles) {
    |p| <= |k| && k[..|p|] == p
  }

  lemma {:induction false} SharedIsPrefix(k: Nibbles, p: Nibbles)
    ensures Shared(k, p) == |p| <==> IsPrefix(p, k)
  {
    if IsPrefix(p, k) {
      assert forall j :: 0 <= j < |p| ==> k[j] == k[..|p|][j];
    }
  }

  lemma {:induction false} PrefixTrans(p: Nibbles, q: Nibbles, k: Nibbles)
    requires IsPrefix(p, q)
    ensures IsPrefix(q, k) ==> IsPrefix(p, k)
  {
    if IsPrefix(q, k) {
      assert k[..|p|] == k[..|q|][..|p|];
    }
  }

  lemma {:induction false} PrefixHead(p: Nibbles, k: Nibbles)
    requires p != []
    ensures IsPrefix(p, k) ==> k != [] && k[0] == p[0]
  {
    if IsPrefix(p, k) {
      assert k[0] == k[..|p|][0];
    }
  }

  lemma PrefixAppend(p: Nibbles, k: Nibbles)
    ensures IsPrefix(p, p + k) && (p + k)[|p|..] == k
  {
  }

  /** Lexicographic order: a proper prefix comes first. */
  predicate Less(a: Nibbles, b: Nibbles) {
    b != [] && (a == [] || a[0] < b[0] || (a[0] == b[0] && Less(a[1..], b[1..])))
  }

  lemma {:induction false} LessAt(a: Nibbles, b: Nibbles)
    ensures Less(a, b) <==>
      var r := Shared(a, b);
      r < |b| && (r == |a| || a[r] < b[r])
  {
    if a != [] && b != [] && a[0] == b[0] {
      LessAt(a[1..], b[1..]);
    }
  }

  lemma {:induction false} LessTrans(a: Nibbles, b: Nibbles, c: Nibbles)
    requires Less(a, b) && Less(b, c)
    ensures Less(a, c)
  {
    if a != [] && a[0] == b[0] && b[0] == c[0] {
      LessTrans(a[1..], b[1..], c[1..]);
    }
  }

  lemma {:induction false} LessTotal(a: Nibbles, b: Nibbles)
    ensures (Less(a, b) || Less(b, a)) <==> a != b
    ensures !(Less(a, b) && Less(b, a))
  {
    if a != [] && b != [] && a[0] == b[0] {
      LessTotal(a[1..], b[1..]);
      assert a == [a[0]] + a[1..] && b == [b[0]] + b[1..];
    }
  }

  lemma {:induction false} LessAppend(p: Nibbles, a: Nibbles, b: Nibbles)
    ensures Less(p + a, p + b) <==> Less(a, b)
  {
    if p == [] {
      assert p + a == a && p + b == b;
    } else {
      LessAppend(p[1..], a, b);
      assert (p + a)[1..] == p[1..] + a && (p + b)[1..] == p[1..] + b;
    }
  }

  /** A window onto the nibbles of a byte string. */
  datatype NibbleSlice = NibbleSlice(data: Bytes, offset: nat) {
    predicate Valid() { offset <= 2 * |data| }

    function Size(): nat
      requires Valid()
    {
      2 * |data| - offset
    }

    function View(): (v: Nibbles)
      requires Valid()
      ensures |v| == Size()
    {
      ToNibbles(data)[offset..]
    }
  }

  method SharedNibbles(a: NibbleSlice, b: NibbleSlice) returns (r: nat)
    requires a.Valid() && b.Valid()
    ensures r == Shared(a.View(), b.View())
  {
    ghost var x, y := a.View(), b.View();
    r := 0;
    var i, j := a.offset, b.offset;
    while i < 2 * |a.data| && j < 2 * |b.data| && NibbleAt(a.data, i) == NibbleAt(b.data, j)
      invariant r <= |x| && r <= |y| && i == a.offset + r && j == b.offset + r
      invariant x[..r] == y[..r]
    {
      ViewAt(a, r);
      ViewAt(b, r);
      assert x[..r + 1] == x[..r] + [x[r]] && y[..r + 1] == y[..r] + [y[r]];
      i, j, r := i + 1, j + 1, r + 1;
    }
    if r < |x| && r < |y| {
      ViewAt(a, r);
      ViewAt(b, r);
    }
    SharedIs(x, y, r);
  }

  lemma ViewAt(s: NibbleSlice, i: nat)
    requires s.Valid() && i < s.Size()
    ensures s.View()[i] == NibbleAt(s.data, s.offset + i)
  {
  }

  /** A full key is earlier than everything under a prefix exactly when it is less than the prefix. */
  method IsEarlierThan(a: NibbleSlice, k: NibbleSlice) returns (r: bool)
    requires a.Valid() && k.Valid()
    ensures r == Less(a.View(), k.View())
  {
    hide ToNibbles, Less, Shared;
    ghost var x, y := a.View(), k.View();
    LessAt(x, y);
    var i := 0;
    while i < k.Size() && i < a.Size()
      invariant 0 <= i <= |y| && i <= |x|
      invariant x[..i] == y[..i]
    {
      ViewAt(a, i);
      ViewAt(k, i);
      if NibbleAt(a.data, a.offset + i) != NibbleAt(k.data, k.offset + i) {
        SharedIs(x, y, i);
        return NibbleAt(a.data, a.offset + i) < NibbleAt(k.data, k.offset + i);
      }
      assert x[..i + 1] == x[..i] + [x[i]] && y[..i + 1] == y[..i] + [y[i]];
      i := i + 1;
    }
    SharedIs(x, y, i);
    return i < k.Size();
  }

  lemma {:induction false} SharedIs(a: Nibbles, b: Nibbles, i: nat)
    requires i <= |a| && i <= |b| && a[..i] == b[..i]
    requires i < |a| && i < |b| ==> a[i] != b[i]
    ensures Shared(a, b) == i
  {
    var r := Shared(a, b);
    assert forall j :: 0 <= j < i ==> a[j] == a[..i][j] && b[j] == b[..i][j];
    assert forall j :: 0 <= j < r ==> a[j] == a[..r][j] && b[j] == b[..r][j];
  }

  // ---- the notation ----

  function Join(high: Nibble, low: Nibble): Byte {
    16 * (high as int) + low
  }

  lemma {:induction false} ToNibblesCons(x: Byte, b: Bytes)
    ensures ToNibbles([x] + b) == [x / 16, x % 16] + ToNibbles(b)
  {
    var n := ToNibbles([x] + b);
    assert forall i :: 2 <= i < |n| ==> NibbleAt([x] + b, i) == NibbleAt(b, i - 2);
  }

  /** Pairs of nibbles, packed into bytes. */
  function Pack(k: Nibbles): (b: Bytes)
    requires |k| % 2 == 0
    ensures |b| == |k| / 2
  {
    if k == [] then [] else [Join(k[0], k[1])] + Pack(k[2..])
  }

  function Flags(leaf: bool, odd: bool): (f: Byte)
    ensures f % 16 == 0
  {
    (if leaf then 0x20 else 0) + (if odd then 0x10 else 0)
  }

  /** The flag nibble, a padding nibble if the key is even, and the key. */
  function Encoded(k: Nibbles, leaf: bool): (b: Bytes)
    ensures |b| == |k| / 2 + 1
  {
    if |k| % 2 == 1 then [Flags(leaf, true) + k[0]] + Pack(k[1..])
    else [Flags(leaf, false)] + Pack(k)
  }

  function KeySlice(hpe: Bytes): (s: NibbleSlice)
    ensures s.Valid()
  {
    if hpe == [] then NibbleSlice(hpe, 0)
    else if hpe[0] / 16 % 2 == 1 then NibbleSlice(hpe, 1)
    else NibbleSlice(hpe, 2)
  }

  function KeyOf(hpe: Bytes): Nibbles {
    KeySlice(hpe).View()
  }

  predicate IsLeafKey(hpe: Bytes)
    requires hpe != []
  {
    hpe[0] / 32 % 2 == 1
  }

  lemma PackStep(k: Nibbles)
    requires |k| % 2 == 0 && k != []
    ensures Pack(k) == [Join(k[0], k[1])] + Pack(k[2..])
  {
  }

  lemma {:induction false} PackInverts(k: Nibbles)
    requires |k| % 2 == 0
    ensures ToNibbles(Pack(k)) == k
  {
    hide ToNibbles, Pack;
    if k == [] {
      assert Pack([]) == [] && ToNibbles([]) == [];
    } else {
      var rest := k[2..];
      PackStep(k);
      PackInverts(rest);
      ToNibblesCons(Join(k[0], k[1]), Pack(rest));
      assert k == [k[0], k[1]] + rest;
    }
  }

  lemma {:induction false} PackNibbles(b: Bytes)
    ensures Pack(ToNibbles(b)) == b
  {
    hide ToNibbles, Pack;
    if b == [] {
      assert Pack([]) == [];
    } else {
      PackNibbles(b[1..]);
      ToNibblesCons(b[0], b[1..]);
      assert b == [b[0]] + b[1..];
      PackStep(ToNibbles(b));
    }
  }

  /** A byte is its two nibbles, the high one first. */
  lemma {:induction false} NibblesOfByte(data: Bytes, i: nat)
    requires i < |data|
    ensures var high: int, low: int := ToNibbles(data)[2 * i], ToNibbles(data)[2 * i + 1];
      data[i] == 16 * high + low
  {
    assert (2 * i) / 2 == i && (2 * i + 1) / 2 == i;
  }

  /**
   The nibbles of the notation: two for a leaf and one for an odd number of nibbles make the first one; a
   zero follows where the number is even; then comes the key.
   */
  lemma {:induction false} EncodedNibbles(k: Nibbles, leaf: bool)
    ensures var flag: Nibble := (if leaf then 2 else 0) + |k| % 2;
      ToNibbles(Encoded(k, leaf)) == [flag] + (if |k| % 2 == 1 then [] else [0]) + k
  {
    hide ToNibbles, Pack;
    var flag: Nibble := (if leaf then 2 else 0) + |k| % 2;
    if |k| % 2 == 1 {
      PackInverts(k[1..]);
      ToNibblesCons(Flags(leaf, true) + k[0], Pack(k[1..]));
      assert [flag, k[0]] + k[1..] == [flag] + [] + k;
    } else {
      PackInverts(k);
      ToNibblesCons(Flags(leaf, false), Pack(k));
      assert [flag, 0] + k == [flag] + [0] + k;
    }
  }

  /** Decoding the notation gives back the key and the leaf flag. */
  lemma {:induction false} EncodedInverts(k: Nibbles, leaf: bool)
    ensures KeyOf(Encoded(k, leaf)) == k
    ensures IsLeafKey(Encoded(k, leaf)) == leaf
  {
    if |k| % 2 == 1 {
      FlagDecodes(leaf, true, k[0]);
      EncodedIs(Flags(leaf, true) + k[0], k[1..]);
      assert [k[0]] + k[1..] == k;
    } else {
      FlagDecodes(leaf, false, 0);
      EncodedIs(Flags(leaf, false), k);
    }
  }

  lemma FlagDecodes(leaf: bool, odd: bool, n: Nibble)
    ensures var x := Flags(leaf, odd) + n;
      && (x / 16 % 2 == 1 <==> odd)
      && (x / 32 % 2 == 1 <==> leaf)
      && x % 16 == n
  {
  }

  lemma {:induction false} EncodedIs(x: Byte, k: Nibbles)
    requires |k| % 2 == 0
    ensures KeyOf([x] + Pack(k)) == if x / 16 % 2 == 1 then [x % 16] + k else k
  {
    hide ToNibbles, Pack;
    PackInverts(k);
    ToNibblesCons(x, Pack(k));
    var n := ToNibbles([x] + Pack(k));
    assert n[1..] == [x % 16] + k && n[2..] == k;
  }

  /** A canonical notation decodes and encodes to itself. */
  lemma {:induction false} EncodedOnto(b: Bytes)
    requires b != [] && b[0] < 64
    requires b[0] / 16 % 2 == 0 ==> b[0] % 16 == 0
    ensures Encoded(KeyOf(b), IsLeafKey(b)) == b
  {
    hide ToNibbles, Pack;
    var k := KeyOf(b);
    PackNibbles(b[1..]);
    ToNibblesCons(b[0], b[1..]);
    assert b == [b[0]] + b[1..];
    if b[0] / 16 % 2 == 1 {
      assert k[0] == b[0] % 16;
      assert k[1..] == ToNibbles(b[1..]);
    } else {
      assert k == ToNibbles(b[1..]);
    }
  }

  // ---- the three encoders ----

  /** The output so far; when `odd`, the low half of its last byte is still free. */
  datatype Buffer = Buffer(bytes: Bytes, odd: bool) {
    predicate Valid() {
      bytes != [] && (odd ==> bytes[|bytes| - 1] % 16 == 0)
    }

    function Push(n: Nibble): (r: Buffer)
      requires Valid()
      ensures r.Valid()
    {
      if odd then Buffer(bytes[..|bytes| - 1] + [bytes[|bytes| - 1] + n], false)
      else Buffer(bytes + [Join(n, 0)], true)
    }
  }

  function Feed(b: Buffer, k: Nibbles): (r: Buffer)
    requires b.Valid()
    ensures r.Valid()
    decreases |k|
  {
    if k == [] then b else Feed(b.Push(k[0]), k[1..])
  }

  lemma {:induction false} FeedAppend(b: Buffer, x: Nibbles, y: Nibbles)
    requires b.Valid()
    ensures Feed(b, x + y) == Feed(Feed(b, x), y)
    decreases |x|
  {
    if x == [] {
      assert x + y == y;
    } else {
      FeedAppend(b.Push(x[0]), x[1..], y);
      assert (x + y)[1..] == x[1..] + y;
    }
  }

  lemma {:induction false} FeedPairs(ret: Bytes, k: Nibbles)
    requires ret != [] && |k| % 2 == 0
    ensures Feed(Buffer(ret, false), k) == Buffer(ret + Pack(k), false)
    decreases |k|
  {
    if k == [] {
      assert ret + [] == ret;
    } else {
      var two := ret + [Join(k[0], k[1])];
      PushPair(ret, k[0], k[1]);
      assert k[1..][1..] == k[2..];
      FeedPairs(two, k[2..]);
      assert ret + ([Join(k[0], k[1])] + Pack(k[2..])) == two + Pack(k[2..]);
    }
  }

  lemma {:induction false} PushPair(ret: Bytes, x: Nibble, y: Nibble)
    requires ret != []
    ensures Buffer(ret, false).Push(x).Push(y) == Buffer(ret + [Join(x, y)], false)
  {
    var one := ret + [Join(x, 0)];
    assert one[..|ret|] == ret;
  }

  lemma {:induction false} FeedOdd(x: Byte, n: Nibble, k: Nibbles)
    requires x % 16 == 0 && |k| % 2 == 0
    ensures Feed(Buffer([x], true), [n] + k) == Buffer([x + n] + Pack(k), false)
  {
    assert [x][..0] + [x + n] == [x + n];
    assert Buffer([x], true).Push(n) == Buffer([x + n], false);
    FeedPairs([x + n], k);
  }

  lemma OddTail(k: Nibbles)
    requires |k| % 2 == 1
    ensures |k[1..]| % 2 == 0 && k == [k[0]] + k[1..]
  {
  }

  /** Feeding all nibbles behind the flag byte gives the notation. */
  lemma {:induction false} FeedIsEncoded(k: Nibbles, leaf: bool, odd: bool)
    requires odd == (|k| % 2 == 1)
    ensures Feed(Buffer([Flags(leaf, odd)], odd), k).bytes == Encoded(k, leaf)
  {
    hide Feed, Pack;
    if odd {
      OddTail(k);
      FeedOdd(Flags(leaf, true), k[0], k[1..]);
    } else {
      FeedPairs([Flags(leaf, false)], k);
    }
  }

  /** Pushes the nibbles of `data` from `first` up to `last`. */
  method PushAll(b: Buffer, data: Bytes, first: nat, last: nat) returns (r: Buffer)
    requires b.Valid() && first <= last <= 2 * |data|
    ensures r == Feed(b, ToNibbles(data)[first..last])
  {
    ghost var all := ToNibbles(data);
    r := b;
    for i := first to last
      invariant r.Valid()
      invariant Feed(r, all[i..last]) == Feed(b, all[first..last])
    {
      assert all[i..last][1..] == all[i + 1..last];
      r := r.Push(NibbleAt(data, i));
    }
  }

  lemma EncodedBody(k: Nibbles, leaf: bool, odd: bool)
    requires odd == (|k| % 2 == 1)
    ensures var body := if odd then k[1..] else k;
      |body| % 2 == 0 && Encoded(k, leaf) == [Flags(leaf, odd) + if odd then k[0] else 0] + Pack(body)
  {
  }

  /** From a vector of nibbles; a negative `end` counts back from one past the end. */
  method EncodeVector(hex: Nibbles, leaf: bool, begin: nat, end: int) returns (r: Bytes)
    requires begin <= (if end < 0 then |hex| + 1 + end else end) <= |hex|
    ensures r == Encoded(hex[begin..if end < 0 then |hex| + 1 + end else end], leaf)
  {
    hide Pack, Encoded;
    var first, last := begin, if end < 0 then |hex| + 1 + end else end;
    ghost var k := hex[begin..last];
    var odd := (last - first) % 2 == 1;
    r := [Flags(leaf, odd)];
    if odd {
      r := [r[0] + hex[first]];
      first := first + 1;
    }
    assert hex[first..last] == if odd then k[1..] else k;
    EncodedBody(k, leaf, odd);
    var i := first;
    while i < last
      invariant first <= i <= last && (last - i) % 2 == 0
      invariant r + Pack(hex[i..last]) == Encoded(k, leaf)
    {
      PackStep(hex[i..last]);
      assert hex[i..last][2..] == hex[i + 2..last];
      assert r + ([Join(hex[i], hex[i + 1])] + Pack(hex[i + 2..last])) == r + [Join(hex[i], hex[i + 1])] + Pack(hex[i + 2..last]);
      r := r + [Join(hex[i], hex[i + 1])];
      i := i + 2;
    }
  }

  /** From a window onto packed nibbles, part `begin` up to `end` of it. */
  method EncodeSlice(s: NibbleSlice, leaf: bool, begin: nat, end: int) returns (r: Bytes)
    requires s.Valid()
    requires begin <= (if end < 0 then s.Size() + 1 + end else end) <= s.Size()
    ensures r == Encoded(s.View()[begin..if end < 0 then s.Size() + 1 + end else end], leaf)
  {
    hide ToNibbles, Feed, Encoded;
    var first := begin + s.offset;
    var last := (if end < 0 then s.Size() + 1 + end else end) + s.offset;
    ghost var k := s.View()[begin..last - s.offset];
    assert k == ToNibbles(s.data)[first..last];
    var odd := (last - first) % 2 == 1;
    FeedIsEncoded(k, leaf, odd);
    var buf := PushAll(Buffer([Flags(leaf, odd)], odd), s.data, first, last);
    return buf.bytes;
  }

  /** From two windows: the encoding of their concatenation. */
  method EncodeTwo(s1: NibbleSlice, s2: NibbleSlice, leaf: bool) returns (r: Bytes)
    requires s1.Valid() && s2.Valid()
    ensures r == Encoded(s1.View() + s2.View(), leaf)
  {
    hide ToNibbles, Feed, Encoded;
    var odd := (s1.Size() + s2.Size()) % 2 == 1;
    var buf := Buffer([Flags(leaf, odd)], odd);
    FeedIsEncoded(s1.View() + s2.View(), leaf, odd);
    FeedAppend(buf, s1.View(), s2.View());
    assert ToNibbles(s1.data)[s1.offset..2 * |s1.data|] == s1.View();
    assert ToNibbles(s2.data)[s2.offset..2 * |s2.data|] == s2.View();
    buf := PushAll(buf, s1.data, s1.offset, 2 * |s1.data|);
    buf := PushAll(buf, s2.data, s2.offset, 2 * |s2.data|);
    return buf.bytes;
  }
}
