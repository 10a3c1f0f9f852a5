/**
 The contract ABI: arguments in a head of 32-byte words, strings in a tail that the head points
 into, and back.
 */
module Abi {
  import opened Rlp
  import opened Pieces

  datatype Arg =
    | U256(n: nat)
    | U160(n: nat)
    | Octet(b: Byte)
    | String32(s: Bytes)
    | String64(s: Bytes)
    | Text(s: Bytes)

  datatype Kind = KU256 | KU160 | KOctet | KString32 | KString64 | KText

  function KindOf(a: Arg): Kind {
    match a
    case U256(_) => KU256
    case U160(_) => KU160
    case Octet(_) => KOctet
    case String32(_) => KString32
    case String64(_) => KString64
    case Text(_) => KText
  }

  /** Values that the types can hold. */
  predicate Typed(a: Arg) {
    match a
    case U256(n) => n < Pow256(32)
    case U160(n) => n < Pow256(20)
    case Octet(_) => true
    case String32(s) => |s| == 32
    case String64(s) => |s| == 64
    case Text(_) => true
  }

  predicate AllTyped(args: seq<Arg>) {
    forall i :: 0 <= i < |args| ==> Typed(args[i])
  }

  function Zeros(n: nat): (z: Bytes)
    ensures |z| == n
  {
    if n == 0 then [] else Zeros(n - 1) + [0]
  }

  /** The zeros that fill a string up to a whole number of words. */
  function Padding(n: nat): (p: nat)
    ensures p < 32 && (n + p) % 32 == 0
  {
    (n + 31) / 32 * 32 - n
  }

  // ---- the layout ----

  /** The words of an argument in the head; a string has the place of its data there. */
  function Words(a: Arg, place: nat): seq<Bytes> {
    match a
    case U256(n) => [Fixed(n, 32)]
    case U160(n) => [Zeros(12) + Fixed(n, 20)]
    case Octet(b) => [Zeros(31) + [b]]
    case String32(s) => if |s| == 32 then [s] else []
    case String64(s) => if |s| == 64 then [s[..32], s[32..]] else []
    case Text(_) => [Fixed(place, 32)]
  }

  /** The data of an argument in the tail: the length of a string, the string, and zeros up to a whole word. */
  function Tail(a: Arg): Bytes {
    if a.Text? then Fixed(|a.s|, 32) + a.s + Zeros(Padding(|a.s|)) else []
  }

  function Tails(args: seq<Arg>): Bytes {
    if args == [] then [] else Tail(args[0]) + Tails(args[1..])
  }

  /** The head of a list of arguments whose tail begins at `place`. */
  function Head(args: seq<Arg>, place: nat): seq<Bytes> {
    if args == [] then [] else Words(args[0], place) + Head(args[1..], place + |Tail(args[0])|)
  }

  /** The head before the places of the strings are known. */
  function Plain(args: seq<Arg>): seq<Bytes> {
    if args == [] then [] else Words(args[0], 0) + Plain(args[1..])
  }

  /** Head and tail: the strings stand in the tail in order and without gaps. */
  function Layout(args: seq<Arg>): Bytes {
    Concat(Head(args, 32 * |Plain(args)|)) + Tails(args)
  }

  lemma {:induction false} HeadSize(args: seq<Arg>, place: nat)
    ensures |Head(args, place)| == |Plain(args)|
    decreases |args|
  {
    if args != [] { HeadSize(args[1..], place + |Tail(args[0])|); }
  }

  lemma {:induction false} HeadAppend(a: seq<Arg>, b: seq<Arg>, place: nat)
    ensures Head(a + b, place) == Head(a, place) + Head(b, place + |Tails(a)|)
    decreases |a|
  {
    hide Words, Tail;
    if a == [] {
      assert a + b == b;
    } else {
      assert (a + b)[1..] == a[1..] + b;
      HeadAppend(a[1..], b, place + |Tail(a[0])|);
    }
  }

  lemma {:induction false} TailsAppend(a: seq<Arg>, b: seq<Arg>)
    ensures Tails(a + b) == Tails(a) + Tails(b)
    decreases |a|
  {
    hide Tail;
    if a == [] {
      assert a + b == b;
    } else {
      assert (a + b)[1..] == a[1..] + b;
      TailsAppend(a[1..], b);
    }
  }

  lemma {:induction false} ConcatAppend(a: seq<Bytes>, b: seq<Bytes>)
    ensures Concat(a + b) == Concat(a) + Concat(b)
    decreases |a|
  {
    if a == [] {
      assert a + b == b;
    } else {
      assert (a + b)[1..] == a[1..] + b;
      ConcatAppend(a[1..], b);
    }
  }

  lemma {:induction false} ConcatOne(b: Bytes)
    ensures Concat([b]) == b
  {
    assert [b][1..] == [];
  }

  lemma {:induction false} HeadWords(args: seq<Arg>, place: nat)
    requires AllTyped(args)
    ensures |Concat(Head(args, place))| == 32 * |Head(args, place)|
    decreases |args|
  {
    hide Words, Tail, Typed;
    if args != [] {
      var w, rest := Words(args[0], place), Head(args[1..], place + |Tail(args[0])|);
      ConcatAppend(w, rest);
      HeadWords(args[1..], place + |Tail(args[0])|);
      WordsSize(args[0], place);
    }
  }

  lemma {:induction false} WordsSize(a: Arg, place: nat)
    requires Typed(a)
    ensures |Concat(Words(a, place))| == 32 * |Words(a, place)|
  {
    var w := Words(a, place);
    hide Fixed, Zeros;
    if |w| == 1 {
      ConcatOne(w[0]);
      assert w == [w[0]];
    } else {
      ConcatOne(w[0]);
      ConcatOne(w[1]);
      ConcatAppend([w[0]], [w[1]]);
      assert w == [w[0]] + [w[1]];
    }
  }

  // ---- writing ----

  datatype DynamicItem = DynamicItem(data: Bytes, offset: nat)

  /** The places of the strings are written into the head one after the other. */
  function Patched(items: seq<Bytes>, dynamic: seq<DynamicItem>, place: nat): (r: seq<Bytes>)
    ensures |r| == |items|
    decreases |dynamic|
  {
    if dynamic == [] then items
    else Patched(Put(items, dynamic[0].offset, Fixed(place, 32)), dynamic[1..], place + |dynamic[0].data|)
  }

  function Put(items: seq<Bytes>, i: nat, b: Bytes): (r: seq<Bytes>)
    ensures |r| == |items|
  {
    if i < |items| then items[i := b] else items
  }

  /** The string of an argument whose head is at a slot. */
  function Own(a: Arg, slot: nat): seq<DynamicItem> {
    if a.Text? then [DynamicItem(Tail(a), slot)] else []
  }

  /** The strings of a list of arguments whose head begins at a slot. */
  function Dynamic(args: seq<Arg>, slot: nat): seq<DynamicItem>
    decreases |args|
  {
    if args == [] then [] else Own(args[0], slot) + Dynamic(args[1..], slot + |Words(args[0], 0)|)
  }

  lemma {:induction false} DynamicInside(args: seq<Arg>, slot: nat)
    ensures forall i :: 0 <= i < |Dynamic(args, slot)| ==> Dynamic(args, slot)[i].offset < slot + |Plain(args)|
    decreases |args|
  {
    hide Words, Tail;
    if args != [] {
      WordsOf(args[0], 0);
      DynamicInside(args[1..], slot + |Words(args[0], 0)|);
    }
  }

  lemma {:induction false} WordsOf(a: Arg, place: nat)
    ensures |Words(a, place)| == |Words(a, 0)|
    ensures a.Text? ==> Words(a, place) == [Fixed(place, 32)]
    ensures !a.Text? ==> Words(a, place) == Words(a, 0) && Tail(a) == []
  {
  }

  /** Patching turns the plain head into the head. */
  lemma {:induction false} PatchedIsHead(pre: seq<Bytes>, args: seq<Arg>, place: nat)
    ensures Patched(pre + Plain(args), Dynamic(args, |pre|), place) == pre + Head(args, place)
    decreases |args|
  {
    hide Words, Tail, Patched, Dynamic, Plain;
    if args == [] {
      PatchedNothing(pre, place);
    } else {
      var a, rest := args[0], args[1..];
      PatchedIsHead(pre + Words(a, place), rest, place + |Tail(a)|);
      PatchedFirst(pre, args, place);
      assert pre + Words(a, place) + Head(rest, place + |Tail(a)|) == pre + Head(args, place);
    }
  }

  lemma {:induction false} PatchedNothing(pre: seq<Bytes>, place: nat)
    ensures Patched(pre + Plain([]), Dynamic([], |pre|), place) == pre + Head([], place)
  {
  }

  /** The first argument of the list is settled. */
  lemma {:induction false} PatchedFirst(pre: seq<Bytes>, args: seq<Arg>, place: nat)
    requires args != []
    ensures var a, rest := args[0], args[1..];
      var more := pre + Words(a, place);
      Patched(pre + Plain(args), Dynamic(args, |pre|), place) == Patched(more + Plain(rest), Dynamic(rest, |more|), place + |Tail(a)|)
  {
    hide Words, Tail, Fixed, Patched;
    var a, rest := args[0], args[1..];
    WordsOf(a, 0);
    WordsOf(a, place);
    if a.Text? {
      PatchedText(pre, args, place);
    } else {
      assert Dynamic(args, |pre|) == Dynamic(rest, |pre| + |Words(a, 0)|);
      assert pre + Plain(args) == pre + Words(a, 0) + Plain(rest);
    }
  }

  lemma {:induction false} PatchedText(pre: seq<Bytes>, args: seq<Arg>, place: nat)
    requires args != [] && args[0].Text?
    ensures Patched(pre + Plain(args), Dynamic(args, |pre|), place)
      == Patched(pre + [Fixed(place, 32)] + Plain(args[1..]), Dynamic(args[1..], |pre| + 1), place + |Tail(args[0])|)
  {
    hide Words, Tail, Fixed, Plain, Dynamic, Patched, Put;
    var items, dynamic := pre + Plain(args), Dynamic(args, |pre|);
    FirstText(args, |pre|);
    PatchFirst(items, dynamic, place);
    PatchSlot(pre, args, Fixed(place, 32));
  }

  lemma {:induction false} PatchFirst(items: seq<Bytes>, dynamic: seq<DynamicItem>, place: nat)
    requires dynamic != []
    ensures Patched(items, dynamic, place)
      == Patched(Put(items, dynamic[0].offset, Fixed(place, 32)), dynamic[1..], place + |dynamic[0].data|)
  {
  }

  lemma {:induction false} FirstText(args: seq<Arg>, slot: nat)
    requires args != [] && args[0].Text?
    ensures var dynamic := Dynamic(args, slot);
      dynamic != [] && dynamic[0] == DynamicItem(Tail(args[0]), slot) && dynamic[1..] == Dynamic(args[1..], slot + 1)
  {
    hide Fixed, Tail;
    var rest := Dynamic(args[1..], slot + 1);
    assert Dynamic(args, slot) == [DynamicItem(Tail(args[0]), slot)] + rest;
  }

  lemma {:induction false} PatchSlot(pre: seq<Bytes>, args: seq<Arg>, b: Bytes)
    requires args != [] && args[0].Text?
    ensures Put(pre + Plain(args), |pre|, b) == pre + [b] + Plain(args[1..])
  {
    hide Fixed;
    var rest := Plain(args[1..]);
    assert Plain(args) == [Fixed(0, 32)] + rest;
    PatchOne(pre, Fixed(0, 32), b, rest);
  }

  lemma {:induction false} PatchOne(pre: seq<Bytes>, was: Bytes, now: Bytes, rest: seq<Bytes>)
    ensures Put(pre + ([was] + rest), |pre|, now) == pre + [now] + rest
  {
    var x, y := Put(pre + ([was] + rest), |pre|, now), pre + [now] + rest;
    assert |x| == |y|;
    assert forall i :: 0 <= i < |x| ==> x[i] == y[i];
  }

  lemma {:induction false} PlainAppend(a: seq<Arg>, b: seq<Arg>)
    ensures Plain(a + b) == Plain(a) + Plain(b)
    decreases |a|
  {
    hide Words;
    if a == [] {
      assert a + b == b;
    } else {
      assert (a + b)[1..] == a[1..] + b;
      PlainAppend(a[1..], b);
    }
  }

  lemma {:induction false} DynamicAppend(a: seq<Arg>, b: seq<Arg>, slot: nat)
    ensures Dynamic(a + b, slot) == Dynamic(a, slot) + Dynamic(b, slot + |Plain(a)|)
    decreases |a|
  {
    hide Words, Own;
    if a == [] {
      assert a + b == b;
    } else {
      assert (a + b)[1..] == a[1..] + b;
      DynamicAppend(a[1..], b, slot + |Words(a[0], 0)|);
    }
  }

  function DataOf(dynamic: seq<DynamicItem>): Bytes {
    if dynamic == [] then [] else dynamic[0].data + DataOf(dynamic[1..])
  }

  lemma {:induction false} DynamicData(args: seq<Arg>, slot: nat)
    ensures DataOf(Dynamic(args, slot)) == Tails(args)
    decreases |args|
  {
    hide Words, Tail;
    if args != [] {
      var a, more := args[0], Dynamic(args[1..], slot + |Words(args[0], 0)|);
      DynamicData(args[1..], slot + |Words(a, 0)|);
      WordsOf(a, 0);
      assert Dynamic(args, slot) == Own(a, slot) + more && Tails(args) == Tail(a) + Tails(args[1..]);
      hide Dynamic, Tails;
      if a.Text? {
        DataOfFirst(DynamicItem(Tail(a), slot), more);
      } else {
        assert Own(a, slot) + more == more && [] + Tails(args[1..]) == Tails(args[1..]);
      }
    }
  }

  lemma {:induction false} DataOfFirst(item: DynamicItem, more: seq<DynamicItem>)
    ensures DataOf([item] + more) == item.data + DataOf(more)
  {
    assert ([item] + more)[1..] == more;
  }

  /** Writes the places of the strings into the head; places are 32-bit numbers. */
  method PatchPlaces(items: seq<Bytes>, dynamic: seq<DynamicItem>) returns (r: seq<Bytes>)
    requires forall i :: 0 <= i < |dynamic| ==> dynamic[i].offset < |items|
    requires 32 * |items| + |DataOf(dynamic)| < 0x1_0000_0000
    ensures r == Patched(items, dynamic, 32 * |items|)
  {
    hide Fixed, Patched, DataOf;
    r := items;
    var offset := 32 * |items|;
    PatchEnd(r, dynamic, offset);
    for j := 0 to |dynamic|
      invariant |r| == |items| && offset >= 0
      invariant Patched(items, dynamic, 32 * |items|) == Patched(r, dynamic[j..], offset)
      invariant offset + |DataOf(dynamic[j..])| < 0x1_0000_0000
    {
      PatchNext(r, dynamic, j, offset);
      r := r[dynamic[j].offset := Fixed(offset % 0x1_0000_0000, 32)];
      offset := offset + |dynamic[j].data|;
    }
    PatchEnd(r, dynamic, offset);
  }

  class ContractAbi {
    var fixedItems: seq<Bytes>
    var dynamicItems: seq<DynamicItem>
    var data: Bytes
    var decodeOffset: nat

    constructor ()
    {
      fixedItems, dynamicItems, data, decodeOffset := [], [], [], 0;
    }

    /** Adds an argument after others. */
    method Serialise(a: Arg, ghost done: seq<Arg>)
      requires Typed(a) && fixedItems == Plain(done) && dynamicItems == Dynamic(done, 0)
      modifies this`fixedItems, this`dynamicItems
      ensures fixedItems == Plain(done + [a]) && dynamicItems == Dynamic(done + [a], 0)
    {
      hide Plain, Dynamic, Fixed, Zeros, Padding, Pow256;
      OneMoreArg(done, a);
      match a
      case U256(n) => fixedItems := fixedItems + [Fixed(n, 32)];
      case U160(n) => fixedItems := fixedItems + [Zeros(12) + Fixed(n, 20)];
      case Octet(b) => fixedItems := fixedItems + [Zeros(31) + [b]];
      case String32(s) => fixedItems := fixedItems + [s];
      case String64(s) =>
        var ret1, ret2 := s[..32], s[32..];
        fixedItems := fixedItems + [ret1];
        fixedItems := fixedItems + [ret2];
      case Text(s) =>
        var ret := Fixed(|s|, 32) + s + Zeros(Padding(|s|));
        var item := DynamicItem(ret, |fixedItems|);
        fixedItems := fixedItems + [Fixed(0, 32)];
        dynamicItems := dynamicItems + [item];
    }

    method SerialiseAll(args: seq<Arg>)
      requires AllTyped(args)
      modifies this`fixedItems, this`dynamicItems
      ensures fixedItems == Plain(args) && dynamicItems == Dynamic(args, 0)
    {
      hide Plain, Dynamic, Typed, Words, Own;
      fixedItems, dynamicItems := [], [];
      NothingYet();
      for i := 0 to |args|
        invariant fixedItems == Plain(args[..i]) && dynamicItems == Dynamic(args[..i], 0)
      {
        assert args[..i + 1] == args[..i] + [args[i]];
        Serialise(args[i], args[..i]);
      }
      assert args[..|args|] == args;
    }

    /** Encodes the arguments, which take less than 4 GiB; the identifier is empty. */
    method AbiIn(args: seq<Arg>) returns (r: Bytes)
      requires AllTyped(args) && |Layout(args)| < 0x1_0000_0000
      modifies this`fixedItems, this`dynamicItems
      ensures r == Layout(args) && Encodes(r, args)
    {
      hide Plain, Dynamic, Patched, Layout, Concat, DataOf, AllTyped, Encodes;
      AbiPlan(args);
      LayoutEncodes(args);
      SerialiseAll(args);
      fixedItems := PatchPlaces(fixedItems, dynamicItems);
      var fixedPart := Joined(fixedItems);
      var dynamicPart := JoinedData(dynamicItems);
      r := fixedPart + dynamicPart;
    }

    /** Decodes values of the given types one after the other. */
    method AbiOut(d: Bytes, kinds: seq<Kind>) returns (out: seq<Arg>)
      modifies this`data, this`decodeOffset
      ensures out == ReadAll(d, kinds, 0)
    {
      hide ReadArg, ReadAll;
      data, decodeOffset := d, 0;
      out := [];
      assert kinds[0..] == kinds;
      ReadNothing(d);
      assert [] + ReadAll(d, kinds, 0) == ReadAll(d, kinds, 0);
      for i := 0 to |kinds|
        invariant data == d && out + ReadAll(d, kinds[i..], decodeOffset) == ReadAll(d, kinds, 0)
      {
        ReadNext(d, kinds, i, decodeOffset, out);
        var value := ReadArg(data, kinds[i], decodeOffset * 32);
        out := out + [value];
        decodeOffset := decodeOffset + Slots(kinds[i]);
      }
      assert kinds[|kinds|..] == [] && out + [] == out;
    }

    /** Encoding and decoding again gives back the arguments. */
    method InAndOut(args: seq<Arg>) returns (out: seq<Arg>)
      requires AllTyped(args) && |Layout(args)| < 0x1_0000_0000
      modifies this
      ensures out == args
    {
      var d := AbiIn(args);
      RoundTrip(args);
      out := AbiOut(d, Kinds(args));
    }

    method Joined(items: seq<Bytes>) returns (r: Bytes)
      ensures r == Concat(items)
    {
      r := [];
      for i := 0 to |items|
        invariant r + Concat(items[i..]) == Concat(items)
      {
        assert items[i..][0] == items[i] && items[i..][1..] == items[i + 1..];
        r := r + items[i];
      }
    }

    method JoinedData(items: seq<DynamicItem>) returns (r: Bytes)
      ensures r == DataOf(items)
    {
      r := [];
      for i := 0 to |items|
        invariant r + DataOf(items[i..]) == DataOf(items)
      {
        assert items[i..][0] == items[i] && items[i..][1..] == items[i + 1..];
        r := r + items[i].data;
      }
    }
  }

  lemma {:induction false} NothingYet()
    ensures Plain([]) == [] && Dynamic([], 0) == []
  {
  }

  lemma {:induction false} OneMoreArg(done: seq<Arg>, a: Arg)
    ensures Plain(done + [a]) == Plain(done) + Words(a, 0)
    ensures Dynamic(done + [a], 0) == Dynamic(done, 0) + Own(a, |Plain(done)|)
  {
    hide Words, Own;
    var none: seq<Arg> := [a][1..];
    PlainAppend(done, [a]);
    DynamicAppend(done, [a], 0);
    assert Plain(none) == [] && Dynamic(none, |Plain(done)| + |Words(a, 0)|) == [];
  }

  lemma {:induction false} PatchNext(items: seq<Bytes>, dynamic: seq<DynamicItem>, j: nat, place: nat)
    requires j < |dynamic|
    ensures Patched(items, dynamic[j..], place)
      == Patched(Put(items, dynamic[j].offset, Fixed(place, 32)), dynamic[j + 1..], place + |dynamic[j].data|)
    ensures |DataOf(dynamic[j..])| == |dynamic[j].data| + |DataOf(dynamic[j + 1..])|
  {
    hide Fixed;
    assert dynamic[j..][0] == dynamic[j] && dynamic[j..][1..] == dynamic[j + 1..];
  }

  lemma {:induction false} PatchEnd(items: seq<Bytes>, dynamic: seq<DynamicItem>, place: nat)
    ensures Patched(items, dynamic[|dynamic|..], place) == items && dynamic[0..] == dynamic
  {
  }

  /** What the two parts of the encoding come to. */
  lemma {:induction false} AbiPlan(args: seq<Arg>)
    requires AllTyped(args)
    ensures var items, dynamic := Plain(args), Dynamic(args, 0);
      && (forall i :: 0 <= i < |dynamic| ==> dynamic[i].offset < |items|)
      && Concat(Patched(items, dynamic, 32 * |items|)) + DataOf(dynamic) == Layout(args)
      && 32 * |items| + |DataOf(dynamic)| == |Layout(args)|
  {
    var place := 32 * |Plain(args)|;
    PatchedIsHead([], args, place);
    assert [] + Plain(args) == Plain(args) && [] + Head(args, place) == Head(args, place);
    DynamicData(args, 0);
    DynamicInside(args, 0);
    HeadWords(args, place);
    HeadSize(args, place);
    hide Plain, Dynamic, Patched, Head, Concat, Tails, DataOf, AllTyped;
  }

  // ---- reading ----

  /** A part of the data; nothing where it would go past the end. */
  function Cropped(d: Bytes, begin: nat, count: nat): Bytes {
    if begin + count <= |d| then d[begin..begin + count] else []
  }

  /** A buffer of a fixed size filled from some bytes, the rest zero. */
  function Filled(src: Bytes, n: nat): (r: Bytes)
    ensures |r| == n
  {
    if |src| >= n then src[..n] else src + Zeros(n - |src|)
  }

  function Slots(k: Kind): nat { if k.KString64? then 2 else 1 }

  function ReadText(d: Bytes, offset: nat): Bytes {
    var place := FromBigEndian(Cropped(d, offset, 32));
    var len := FromBigEndian(Cropped(d, place, 32));
    Cropped(d, place + 32, len)
  }

  /** The value of a type at a place of the head. */
  function ReadArg(d: Bytes, k: Kind, offset: nat): Arg {
    match k
    case KU256 => U256(FromBigEndian(Cropped(d, offset, 32)))
    case KU160 => U160(FromBigEndian(Cropped(d, offset + 12, 20)))
    case KOctet => Octet(FromBigEndian(Cropped(d, offset + 31, 1)) % 256)
    case KString32 => String32(Filled(Cropped(d, offset, 32), 32))
    case KString64 => String64(Filled(Cropped(d, offset, 64), 64))
    case KText => Text(ReadText(d, offset))
  }

  function ReadAll(d: Bytes, kinds: seq<Kind>, slot: nat): seq<Arg>
    decreases |kinds|
  {
    if kinds == [] then [] else [ReadArg(d, kinds[0], slot * 32)] + ReadAll(d, kinds[1..], slot + Slots(kinds[0]))
  }

  function Kinds(args: seq<Arg>): seq<Kind> {
    if args == [] then [] else [KindOf(args[0])] + Kinds(args[1..])
  }

  lemma {:induction false} Middle(x: Bytes, y: Bytes, z: Bytes)
    ensures Cropped(x + y + z, |x|, |y|) == y && |x| + |y| <= |x + y + z|
  {
  }

  /** Where the parts of an argument lie in the layout of a list. */
  lemma {:induction false} LayoutAt(pre: seq<Arg>, a: Arg, post: seq<Arg>)
    requires AllTyped(pre + ([a] + post)) && AllTyped(pre)
    ensures var args := pre + ([a] + post);
      var d, offset, place := Layout(args), 32 * |Plain(pre)|, 32 * |Plain(args)| + |Tails(pre)|;
      && Cropped(d, offset, |Concat(Words(a, place))|) == Concat(Words(a, place))
      && Cropped(d, place, |Tail(a)|) == Tail(a) && place + |Tail(a)| <= |d|
  {
    hide Words, Tail, Plain, Head, Concat, Tails, Typed, Cropped, AllTyped;
    var args := pre + ([a] + post);
    var base := 32 * |Plain(args)|;
    var place := base + |Tails(pre)|;
    HeadSize(pre, base);
    HeadSize(args, base);
    HeadWords(pre, base);
    HeadWords(args, base);
    HeadParts(pre, a, post, base);
    TailParts(pre, a, post);
    var x, w, r := Concat(Head(pre, base)), Concat(Words(a, place)), Concat(Head(post, place + |Tail(a)|));
    var c, t := Concat(Head(args, base)), Tails(args);
    assert c + t == x + w + (r + t);
    Middle(x, w, r + t);
    assert c + t == (c + Tails(pre)) + Tail(a) + Tails(post);
    Middle(c + Tails(pre), Tail(a), Tails(post));
  }

  lemma {:induction false} HeadParts(pre: seq<Arg>, a: Arg, post: seq<Arg>, base: nat)
    ensures var place := base + |Tails(pre)|;
      Concat(Head(pre + ([a] + post), base))
      == Concat(Head(pre, base)) + Concat(Words(a, place)) + Concat(Head(post, place + |Tail(a)|))
  {
    hide Words, Tail, Concat;
    var place := base + |Tails(pre)|;
    HeadAppend(pre, [a] + post, base);
    assert ([a] + post)[1..] == post;
    ConcatAppend(Head(pre, base), Head([a] + post, place));
    ConcatAppend(Words(a, place), Head(post, place + |Tail(a)|));
  }

  lemma {:induction false} TailParts(pre: seq<Arg>, a: Arg, post: seq<Arg>)
    ensures Tails(pre + ([a] + post)) == Tails(pre) + (Tail(a) + Tails(post))
  {
    hide Tail;
    TailsAppend(pre, [a] + post);
    assert ([a] + post)[1..] == post;
  }

  /** An argument is read back from the layout. */
  lemma {:induction false} ReadWritten(pre: seq<Arg>, a: Arg, post: seq<Arg>)
    requires AllTyped(pre + ([a] + post)) && AllTyped(pre) && Typed(a)
    requires |Layout(pre + ([a] + post))| < 0x1_0000_0000
    ensures ReadArg(Layout(pre + ([a] + post)), KindOf(a), 32 * |Plain(pre)|) == a
  {
    hide Layout, Plain, Tails, AllTyped, Typed, Concat, Words, Tail, Cropped, ReadArg;
    var args := pre + ([a] + post);
    LayoutAt(pre, a, post);
    ReadWords(Layout(args), a, 32 * |Plain(pre)|, 32 * |Plain(args)| + |Tails(pre)|);
  }

  lemma {:induction false} ReadWords(d: Bytes, a: Arg, offset: nat, place: nat)
    requires Typed(a) && Cropped(d, offset, |Concat(Words(a, place))|) == Concat(Words(a, place))
    requires Cropped(d, place, |Tail(a)|) == Tail(a) && place + |Tail(a)| <= |d| < 0x1_0000_0000
    ensures ReadArg(d, KindOf(a), offset) == a
  {
    hide Fixed, Zeros, Pow256, FromBigEndian, Padding;
    match a
    case U256(n) =>
      ConcatOne(Fixed(n, 32));
      FixedInverts(n, 32);
    case U160(n) =>
      ConcatOne(Zeros(12) + Fixed(n, 20));
      SubCrop(d, offset, Zeros(12) + Fixed(n, 20), 12, 20);
      assert (Zeros(12) + Fixed(n, 20))[12..32] == Fixed(n, 20);
      FixedInverts(n, 20);
    case Octet(b) =>
      ConcatOne(Zeros(31) + [b]);
      SubCrop(d, offset, Zeros(31) + [b], 31, 1);
      assert (Zeros(31) + [b])[31..32] == [b];
      OneByte(b);
    case String32(s) =>
      ConcatOne(s);
    case String64(s) =>
      ConcatOne(s[..32]);
      ConcatOne(s[32..]);
      ConcatAppend([s[..32]], [s[32..]]);
      assert [s[..32], s[32..]] == [s[..32]] + [s[32..]] && s[..32] + s[32..] == s;
    case Text(s) =>
      ConcatOne(Fixed(place, 32));
      ReadBack(d, s, offset, place);
  }

  lemma {:induction false} SubCrop(d: Bytes, offset: nat, w: Bytes, i: nat, n: nat)
    requires w != [] && Cropped(d, offset, |w|) == w && i + n <= |w|
    ensures Cropped(d, offset + i, n) == w[i..i + n]
  {
    var x, y := d[offset + i..offset + i + n], w[i..i + n];
    forall j | 0 <= j < n
      ensures x[j] == y[j]
    {
      assert w[i + j] == d[offset..offset + |w|][i + j];
    }
  }

  lemma {:induction false} OneByte(b: Byte)
    ensures FromBigEndian([b]) == b
  {
    assert [b][..0] == [];
    assert FromBigEndian([]) == 0;
  }

  lemma {:induction false} Below2To32(n: nat)
    requires n < 0x1_0000_0000
    ensures FromBigEndian(Fixed(n, 32)) == n
  {
    PowersOf256();
    PowerGrows(4, 32);
    FixedInverts(n, 32);
  }

  lemma {:induction false} PowerGrows(a: nat, b: nat)
    requires a <= b
    ensures Pow256(a) <= Pow256(b)
    decreases b
  {
    if a < b { PowerGrows(a, b - 1); }
  }

  /** A string is read back through its place in the tail. */
  lemma {:induction false} ReadBack(d: Bytes, s: Bytes, offset: nat, place: nat)
    requires Cropped(d, offset, 32) == Fixed(place, 32) && place < 0x1_0000_0000 && |s| < 0x1_0000_0000
    requires Cropped(d, place, |Tail(Text(s))|) == Tail(Text(s))
    ensures ReadText(d, offset) == s
  {
    var t := Tail(Text(s));
    Below2To32(place);
    Below2To32(|s|);
    hide Fixed, Zeros, FromBigEndian, Padding;
    SubCrop(d, place, t, 0, 32);
    assert t[0..32] == Fixed(|s|, 32);
    SubCrop(d, place, t, 32, |s|);
    assert t[32..32 + |s|] == s;
  }

  // ---- what the bytes mean ----

  /** The number in the 32-byte word at a place. */
  function NumberAt(d: Bytes, at: nat): nat
    requires at + 32 <= |d|
  {
    FromBigEndian(d[at..at + 32])
  }

  /** How many words the head has for some arguments: two for a string of 64 bytes, else one. */
  function HeadWordsOf(args: seq<Arg>): nat {
    if args == [] then 0 else (if args[0].String64? then 2 else 1) + HeadWordsOf(args[1..])
  }

  /** The bytes that the strings among some arguments take in the tail: a word for the length, and whole words. */
  function TailBytesOf(args: seq<Arg>): nat {
    if args == [] then 0 else (if args[0].Text? then 32 + WholeWords(|args[0].s|) else 0) + TailBytesOf(args[1..])
  }

  /** The next multiple of 32. */
  function WholeWords(n: nat): (r: nat)
    ensures r % 32 == 0 && n <= r < n + 32
  {
    (n + 31) / 32 * 32
  }

  /**
   Every byte of an argument is as the ABI has it: a number fills its word, a string of fixed length
   stands in the head, and any other string stands in the tail at the place that the head gives, behind
   its length and before zeros up to a whole word.
   */
  ghost predicate Means(d: Bytes, a: Arg, at: nat, place: nat) {
    && at + 32 <= |d|
    && match a
       case U256(n) => NumberAt(d, at) == n
       case U160(n) => NumberAt(d, at) == n
       case Octet(b) => NumberAt(d, at) == b
       case String32(s) => d[at..at + 32] == s
       case String64(s) => at + 64 <= |d| && d[at..at + 64] == s
       case Text(s) =>
         && NumberAt(d, at) == place && place + 32 + WholeWords(|s|) <= |d|
         && NumberAt(d, place) == |s| && d[place + 32..place + 32 + |s|] == s
         && forall j :: place + 32 + |s| <= j < place + 32 + WholeWords(|s|) ==> d[j] == 0
  }

  /** The encoding of arguments, as the ABI describes it. */
  ghost predicate Encodes(d: Bytes, args: seq<Arg>) {
    && |d| == 32 * HeadWordsOf(args) + TailBytesOf(args)
    && forall i :: 0 <= i < |args| ==>
         Means(d, args[i], 32 * HeadWordsOf(args[..i]), 32 * HeadWordsOf(args) + TailBytesOf(args[..i]))
  }

  lemma {:induction false} ZerosAre(n: nat)
    ensures forall i :: 0 <= i < n ==> Zeros(n)[i] == 0
    ensures FromBigEndian(Zeros(n)) == 0
  {
    if n > 0 {
      ZerosAre(n - 1);
      var z := Zeros(n);
      assert z == Zeros(n - 1) + [0];
      hide Zeros;
      assert z[..n - 1] == Zeros(n - 1) && z[n - 1] == 0;
    }
  }

  /** Zeros in front leave a number as it is. */
  lemma {:induction false} ZerosInFront(n: nat, b: Bytes)
    ensures FromBigEndian(Zeros(n) + b) == FromBigEndian(b)
    decreases |b|
  {
    if b == [] {
      ZerosAre(n);
      assert Zeros(n) + b == Zeros(n);
    } else {
      ZerosInFront(n, b[..|b| - 1]);
      assert (Zeros(n) + b)[..n + |b| - 1] == Zeros(n) + b[..|b| - 1];
    }
  }

  lemma {:induction false} HeadWordsAre(args: seq<Arg>)
    requires AllTyped(args)
    ensures |Plain(args)| == HeadWordsOf(args) && |Tails(args)| == TailBytesOf(args)
  {
    hide Fixed, Zeros, Pow256;
    if args != [] { HeadWordsAre(args[1..]); }
  }

  /** The words of an argument, and its data in the tail, mean the argument. */
  lemma {:induction false} WordsMean(d: Bytes, a: Arg, offset: nat, place: nat)
    requires Typed(a) && Cropped(d, offset, |Concat(Words(a, place))|) == Concat(Words(a, place))
    requires Cropped(d, place, |Tail(a)|) == Tail(a) && place + |Tail(a)| <= |d| < 0x1_0000_0000
    ensures Means(d, a, offset, place)
  {
    hide Fixed, Zeros, Pow256, FromBigEndian, Padding;
    match a
    case U256(n) =>
      ConcatOne(Fixed(n, 32));
      FixedInverts(n, 32);
    case U160(n) =>
      ConcatOne(Zeros(12) + Fixed(n, 20));
      ZerosInFront(12, Fixed(n, 20));
      FixedInverts(n, 20);
    case Octet(b) =>
      ConcatOne(Zeros(31) + [b]);
      ZerosInFront(31, [b]);
      OneByte(b);
    case String32(s) =>
      ConcatOne(s);
    case String64(s) =>
      ConcatOne(s[..32]);
      ConcatOne(s[32..]);
      ConcatAppend([s[..32]], [s[32..]]);
      assert [s[..32], s[32..]] == [s[..32]] + [s[32..]] && s[..32] + s[32..] == s;
    case Text(s) =>
      ConcatOne(Fixed(place, 32));
      TextMeans(d, s, offset, place);
  }

  lemma {:induction false} TextMeans(d: Bytes, s: Bytes, offset: nat, place: nat)
    requires Cropped(d, offset, 32) == Fixed(place, 32) && place < 0x1_0000_0000 && |d| < 0x1_0000_0000
    requires Cropped(d, place, |Tail(Text(s))|) == Tail(Text(s)) && place + |Tail(Text(s))| <= |d|
    ensures Means(d, Text(s), offset, place)
  {
    hide Padding, WholeWords, Tail, Fixed, Zeros, FromBigEndian;
    var n := WholeWords(|s|);
    TailIs(s);
    Below2To32(place);
    TailParted(d, place, Fixed(|s|, 32), s, Zeros(n - |s|));
    ZerosAre(n - |s|);
    AllZero(d, place + 32 + |s|, Zeros(n - |s|));
    Below2To32(|s|);
  }

  lemma {:induction false} TailIs(s: Bytes)
    ensures Tail(Text(s)) == Fixed(|s|, 32) + s + Zeros(WholeWords(|s|) - |s|)
  {
    hide Fixed, Zeros;
    assert Padding(|s|) == WholeWords(|s|) - |s|;
  }

  lemma {:induction false} TailParted(d: Bytes, place: nat, x: Bytes, y: Bytes, z: Bytes)
    requires |x| == 32 && Cropped(d, place, |x + y + z|) == x + y + z
    ensures place + 32 + |y| + |z| <= |d|
    ensures d[place..place + 32] == x && d[place + 32..place + 32 + |y|] == y
    ensures d[place + 32 + |y|..place + 32 + |y| + |z|] == z
  {
    var t := x + y + z;
    SubCrop(d, place, t, 0, 32);
    SubCrop(d, place, t, 32, |y|);
    SubCrop(d, place, t, 32 + |y|, |z|);
    assert t[0..32] == x && t[32..32 + |y|] == y && t[32 + |y|..32 + |y| + |z|] == z;
  }

  lemma {:induction false} AllZero(d: Bytes, at: nat, z: Bytes)
    requires at + |z| <= |d| && d[at..at + |z|] == z && forall i :: 0 <= i < |z| ==> z[i] == 0
    ensures forall j :: at <= j < at + |z| ==> d[j] == 0
  {
    forall j | at <= j < at + |z|
      ensures d[j] == 0
    {
      assert d[at..at + |z|][j - at] == d[j];
    }
  }

  lemma {:induction false} NumberSplits(x: Bytes, y: Bytes)
    ensures FromBigEndian(x + y) == FromBigEndian(x) * Pow256(|y|) + FromBigEndian(y)
    decreases |y|
  {
    if y == [] {
      assert x + y == x;
    } else {
      var init := y[..|y| - 1];
      NumberSplits(x, init);
      assert (x + y)[..|x + y| - 1] == x + init && (x + y)[|x + y| - 1] == y[|y| - 1];
      Scaled(FromBigEndian(x), Pow256(|init|), FromBigEndian(init), y[|y| - 1]);
    }
  }

  lemma Scaled(a: nat, p: nat, b: nat, c: nat)
    ensures (a * p + b) * 256 + c == a * (256 * p) + (b * 256 + c)
  {
    assert a * (256 * p) == a * p * 256;
  }

  /** A small number stands in the last bytes of its word. */
  lemma {:induction false} LowBytes(x: Bytes, y: Bytes)
    requires FromBigEndian(x + y) < Pow256(|y|)
    ensures FromBigEndian(x + y) == FromBigEndian(y)
  {
    hide FromBigEndian, Pow256;
    NumberSplits(x, y);
    NoMultiple(FromBigEndian(x), Pow256(|y|));
  }

  lemma NoMultiple(a: nat, p: nat)
    ensures a * p < p ==> a == 0
  {
    if a >= 1 { assert a * p == (a - 1) * p + p; }
  }

  /** Any bytes that mean an argument are read as the argument. */
  lemma {:induction false} MeaningIsRead(d: Bytes, a: Arg, at: nat, place: nat)
    requires Typed(a) && Means(d, a, at, place)
    ensures ReadArg(d, KindOf(a), at) == a
  {
    hide Pow256, FromBigEndian, WholeWords;
    match a
    case U256(n) =>
    case U160(n) =>
      assert d[at..at + 32] == d[at..at + 12] + d[at + 12..at + 32];
      LowBytes(d[at..at + 12], d[at + 12..at + 32]);
    case Octet(b) =>
      assert d[at..at + 32] == d[at..at + 31] + d[at + 31..at + 32];
      PowerOfOne();
      LowBytes(d[at..at + 31], d[at + 31..at + 32]);
    case String32(s) =>
    case String64(s) =>
    case Text(s) =>
  }

  lemma PowerOfOne()
    ensures Pow256(1) == 256
  {
    assert Pow256(0) == 1;
  }

  /** Where a word would go past the end, a number is zero and a string of fixed length is zeros. */
  lemma {:induction false} PastTheEnd(d: Bytes, at: nat)
    requires at + 32 > |d|
    ensures ReadArg(d, KU256, at) == U256(0) && ReadArg(d, KU160, at) == U160(0) && ReadArg(d, KOctet, at) == Octet(0)
    ensures forall i :: 0 <= i < 32 ==> ReadArg(d, KString32, at).s[i] == 0
    ensures forall i :: 0 <= i < 64 ==> ReadArg(d, KString64, at).s[i] == 0
  {
    ZerosAre(32);
    ZerosAre(64);
    assert [] + Zeros(32) == Zeros(32) && [] + Zeros(64) == Zeros(64);
    hide Zeros;
  }

  /** The layout is the encoding that the ABI describes. */
  lemma {:induction false} LayoutEncodes(args: seq<Arg>)
    requires AllTyped(args) && |Layout(args)| < 0x1_0000_0000
    ensures Encodes(Layout(args), args)
  {
    hide Words, Tail, Plain, Tails, Head, Typed, Concat, Cropped, Means, HeadWordsOf, TailBytesOf;
    var base := 32 * |Plain(args)|;
    HeadSize(args, base);
    HeadWords(args, base);
    HeadWordsAre(args);
    forall i | 0 <= i < |args|
      ensures Means(Layout(args), args[i], 32 * HeadWordsOf(args[..i]), 32 * HeadWordsOf(args) + TailBytesOf(args[..i]))
    {
      var pre, a, post := args[..i], args[i], args[i + 1..];
      assert args == pre + ([a] + post);
      HeadWordsAre(pre);
      hide Layout;
      LayoutAt(pre, a, post);
      WordsMean(Layout(args), a, 32 * |Plain(pre)|, base + |Tails(pre)|);
    }
  }

  /** Reading the layout of a list with the types of its arguments gives back the arguments. */
  lemma {:induction false} RoundTrip(args: seq<Arg>)
    requires AllTyped(args) && |Layout(args)| < 0x1_0000_0000
    ensures ReadAll(Layout(args), Kinds(args), 0) == args
  {
    assert [] + args == args;
    ReadRest([], args);
  }

  lemma {:induction false} ReadRest(pre: seq<Arg>, post: seq<Arg>)
    requires AllTyped(pre + post) && |Layout(pre + post)| < 0x1_0000_0000
    ensures ReadAll(Layout(pre + post), Kinds(post), |Plain(pre)|) == post
    decreases |post|
  {
    hide Layout, Plain, Typed, AllTyped;
    if post == [] {
      assert Kinds(post) == [];
    } else {
      var a, rest := post[0], post[1..];
      var args := pre + post;
      assert post == [a] + rest && args == (pre + [a]) + rest;
      TypedPrefix(pre, post);
      ReadWritten(pre, a, rest);
      ReadRest(pre + [a], rest);
      SlotsOf(pre, a);
      ReadStep(Layout(args), post, |Plain(pre)|);
    }
  }

  lemma {:induction false} ReadStep(d: Bytes, post: seq<Arg>, slot: nat)
    requires post != []
    ensures ReadAll(d, Kinds(post), slot)
      == [ReadArg(d, KindOf(post[0]), slot * 32)] + ReadAll(d, Kinds(post[1..]), slot + Slots(KindOf(post[0])))
  {
    hide ReadArg, Kinds;
    KindsFirst(post);
  }

  lemma {:induction false} ReadNothing(d: Bytes)
    ensures forall slot :: ReadAll(d, [], slot) == []
  {
  }

  lemma {:induction false} ReadNext(d: Bytes, kinds: seq<Kind>, i: nat, slot: nat, out: seq<Arg>)
    requires i < |kinds|
    ensures out + ReadAll(d, kinds[i..], slot)
      == out + [ReadArg(d, kinds[i], slot * 32)] + ReadAll(d, kinds[i + 1..], slot + Slots(kinds[i]))
  {
    hide ReadArg;
    assert kinds[i..][0] == kinds[i] && kinds[i..][1..] == kinds[i + 1..];
  }

  lemma {:induction false} KindsFirst(post: seq<Arg>)
    requires post != []
    ensures Kinds(post) != [] && Kinds(post)[0] == KindOf(post[0]) && Kinds(post)[1..] == Kinds(post[1..])
  {
  }

  lemma {:induction false} TypedPrefix(pre: seq<Arg>, post: seq<Arg>)
    requires AllTyped(pre + post)
    ensures AllTyped(pre) && (post != [] ==> Typed(post[0]))
  {
    assert forall i :: 0 <= i < |pre| ==> (pre + post)[i] == pre[i];
    assert post != [] ==> (pre + post)[|pre|] == post[0];
  }

  lemma {:induction false} SlotsOf(pre: seq<Arg>, a: Arg)
    requires Typed(a)
    ensures |Plain(pre + [a])| == |Plain(pre)| + Slots(KindOf(a))
  {
    OneMoreArg(pre, a);
  }
}
