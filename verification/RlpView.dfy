/**
 Reading the items of an RLP list by index, with the reader's remembered position.
 */
module RlpView {
  import opened Rlp

  /** The payload of a list divides into items. */
  predicate Splits(p: Bytes)
    decreases |p|
  {
    p == [] || (SizeAsEncoded(p).Ok? && Splits(p[SizeAsEncoded(p).value..]))
  }

  /** Item `i` found by a fresh scan from the left; no bytes past the end. */
  function ItemAt(p: Bytes, i: nat): (r: Bytes)
    requires Splits(p)
    ensures |r| <= |p|
    decreases |p|
  {
    if p == [] then []
    else
      var n := SizeAsEncoded(p).value;
      if i == 0 then p[..n] else ItemAt(p[n..], i - 1)
  }

  /** The position just after item `i`. */
  function EndOf(p: Bytes, i: nat): (r: nat)
    requires Splits(p)
    ensures r <= |p|
    decreases |p|
  {
    if p == [] then 0
    else
      var n := SizeAsEncoded(p).value;
      if i == 0 then n else n + EndOf(p[n..], i - 1)
  }

  function Count(p: Bytes): nat
    requires Splits(p)
    decreases |p|
  {
    if p == [] then 0 else 1 + Count(p[SizeAsEncoded(p).value..])
  }

  /** The items of a payload, as they stand there. */
  function Cut(p: Bytes): (r: seq<Bytes>)
    requires Splits(p)
    ensures |r| == Count(p)
    decreases |p|
  {
    if p == [] then []
    else
      var n := SizeAsEncoded(p).value;
      [p[..n]] + Cut(p[n..])
  }

  /** Cutting and indexing agree. */
  lemma {:induction false} CutAt(p: Bytes, i: nat)
    requires Splits(p) && i < Count(p)
    ensures Cut(p)[i] == ItemAt(p, i) != []
    decreases |p|
  {
    if i > 0 { CutAt(p[SizeAsEncoded(p).value..], i - 1); }
  }

  function Encodings(items: seq<Item>): seq<Bytes> {
    seq(|items|, i requires 0 <= i < |items| => Encode(items[i]))
  }

  /** The payload of an encoded list is cut into the encodings of its items. */
  lemma {:induction false} CutEncodeAll(items: seq<Item>)
    requires FitsAll(items)
    ensures Splits(EncodeAll(items)) && Cut(EncodeAll(items)) == Encodings(items)
  {
    var p := EncodeAll(items);
    ItemAtEncodeAll(items, 0);
    forall i | 0 <= i < |items|
      ensures Cut(p)[i] == Encodings(items)[i]
    {
      ItemAtEncodeAll(items, i);
      CutAt(p, i);
    }
  }

  /** An item cut off by its size has that size. */
  lemma {:induction false} SizeOfFront(d: Bytes)
    requires SizeAsEncoded(d).Ok?
    ensures SizeAsEncoded(d[..SizeAsEncoded(d).value]) == SizeAsEncoded(d)
  {
    var n := SizeAsEncoded(d).value;
    var f := d[..n];
    if d != [] {
      assert f[0] == d[0];
      if DATA_IND_ZERO < d[0] < LIST_START {
        SameLength(d, f, d[0] - DATA_IND_ZERO);
      } else if LIST_IND_ZERO < d[0] {
        SameLength(d, f, d[0] - LIST_IND_ZERO);
      } else if |f| >= 2 {
        assert f[1] == d[1];
      }
    }
  }

  lemma {:induction false} SameLength(d: Bytes, f: Bytes, size: nat)
    requires 1 <= size <= 8 && size < |f| && f <= d
    ensures IndirectLength(f, size) == IndirectLength(d, size)
  {
    assert f[1] == d[1] && f[1..1 + size] == d[1..1 + size];
  }

  // ---- reading an encoded list in an encoded list, item by item ----

  /** Item `i` of a payload, read without looking at what follows it; no bytes when there is none. */
  function Nth(p: Bytes, i: nat): (r: Result<Bytes>)
    decreases |p|
  {
    var n :- SizeAsEncoded(p);
    if i == 0 || p == [] then Ok(p[..n]) else Nth(p[n..], i - 1)
  }

  /** What is read is the size it claims. */
  lemma {:induction false} NthIsWhole(p: Bytes, i: nat)
    requires Nth(p, i).Ok?
    ensures SizeAsEncoded(Nth(p, i).value) == Ok(|Nth(p, i).value|)
    decreases |p|
  {
    var n := SizeAsEncoded(p).value;
    if i == 0 || p == [] {
      SizeOfFront(p);
    } else {
      NthIsWhole(p[n..], i - 1);
    }
  }

  /** Where the whole payload divides into items, this is the item that a scan finds. */
  lemma {:induction false} NthIs(p: Bytes, i: nat)
    requires Splits(p)
    ensures Nth(p, i) == Ok(ItemAt(p, i))
    decreases |p|
  {
    if p != [] && i > 0 { NthIs(p[SizeAsEncoded(p).value..], i - 1); }
  }

  /** Whatever stands behind an item does not matter to reading it, and is read on its own. */
  lemma {:induction false} NthBehind(item: Item, rest: Bytes, i: nat)
    requires Fits(item)
    ensures Nth(Encode(item) + rest, 0) == Ok(Encode(item))
    ensures Nth(Encode(item) + rest, i + 1) == Nth(rest, i)
  {
    SizeOfEncoding(item, rest);
    hide Encode, ActualSize;
    var first := Encode(item);
    assert (first + rest)[..|first|] == first && (first + rest)[|first|..] == rest;
  }

  /** Item `i` of an encoded list. */
  lemma {:induction false} NthEncoded(items: seq<Item>, i: nat)
    requires Fits(List(items)) && i < |items|
    ensures var b := Encode(List(items));
      SizeAsEncoded(b) == Ok(|b|) && Nth(Payload(b), i) == Ok(Encode(items[i]))
  {
    PayloadOfList(items);
    ItemAtEncodeAll(items, i);
    NthIs(EncodeAll(items), i);
  }

  /** The items of an item that is a list, and none of any other. */
  function ItemsOf(d: Bytes): (r: Result<seq<Bytes>>)
    requires SizeAsEncoded(d) == Ok(|d|)
    ensures r.Ok? ==> forall i :: 0 <= i < |r.value| ==> r.value[i] != []
  {
    if d == [] || d[0] < LIST_START then Ok([])
    else if !Splits(Payload(d)) then Err(BadRlp)
    else
      assert forall i :: 0 <= i < |Cut(Payload(d))| ==> Cut(Payload(d))[i] != [] by {
        forall i | 0 <= i < |Cut(Payload(d))| ensures Cut(Payload(d))[i] != [] { CutAt(Payload(d), i); }
      }
      Ok(Cut(Payload(d)))
  }

  lemma {:induction false} ViewOfPayload(p: Bytes)
    requires |p| < MAX_LENGTH
    ensures var d := EncodeData(p); SizeAsEncoded(d) == Ok(|d|) && d[0] < LIST_START
    ensures var d := EncodeList(p); SizeAsEncoded(d) == Ok(|d|) && d[0] >= LIST_START && Payload(d) == p
  {
    SizeOfData(p, []);
    SizeOfList(p, []);
    hide Header;
    assert EncodeData(p) + [] == EncodeData(p) && EncodeList(p) + [] == EncodeList(p);
    assert EncodeList(p)[PayloadOffset(EncodeList(p))..] == p;
  }

  lemma {:induction false} PayloadOfList(items: seq<Item>)
    requires Fits(List(items))
    ensures var b := Encode(List(items));
      b[0] >= LIST_START && SizeAsEncoded(b) == Ok(|b|) && Payload(b) == EncodeAll(items)
  {
    var p := EncodeAll(items);
    SizeOfList(p, []);
    hide Header, EncodeAll;
    assert EncodeList(p) + [] == EncodeList(p);
    assert EncodeList(p)[PayloadOffset(EncodeList(p))..] == p;
  }

  /** One step of the scan. */
  lemma {:induction false} ScanStep(p: Bytes, i: nat)
    requires Splits(p)
    ensures Splits(p[EndOf(p, i)..])
    ensures ItemAt(p, i) != [] <==> i < Count(p)
    ensures var rest := p[EndOf(p, i)..];
      && ItemAt(p, i + 1) == ItemAt(rest, 0)
      && EndOf(p, i + 1) == EndOf(p, i) + |ItemAt(p, i + 1)|
    decreases |p|
  {
    if p != [] {
      var n := SizeAsEncoded(p).value;
      if i == 0 {
        assert ItemAt(p, 1) == ItemAt(p[n..], 0);
      } else {
        ScanStep(p[n..], i - 1);
        assert p[n..][EndOf(p[n..], i - 1)..] == p[EndOf(p, i)..];
      }
    }
  }

  lemma {:induction false} NothingPastTheEnd(p: Bytes, i: nat, j: nat)
    requires Splits(p) && i <= j && ItemAt(p, i) == []
    ensures ItemAt(p, j) == []
  {
    ScanStep(p, i);
    ScanStep(p, j);
  }

  /** On an encoded list the scan finds the encodings of the items, in order. */
  lemma {:induction false} ItemAtEncodeAll(items: seq<Item>, i: nat)
    requires FitsAll(items)
    ensures Splits(EncodeAll(items)) && Count(EncodeAll(items)) == |items|
    ensures ItemAt(EncodeAll(items), i) == if i < |items| then Encode(items[i]) else []
  {
    if items != [] {
      var first, rest := Encode(items[0]), EncodeAll(items[1..]);
      SizeOfEncoding(items[0], rest);
      assert (first + rest)[|first|..] == rest;
      assert (first + rest)[..|first|] == first;
      ItemAtEncodeAll(items[1..], if i == 0 then 0 else i - 1);
    }
  }

  // The value of the remembered index before any request.
  const NO_INDEX: nat := 0xffff_ffff_ffff_ffff

  class ListView {
    const payload: Bytes
    var lastIndex: nat
    var lastEnd: nat
    var lastItem: Bytes

    ghost predicate Valid()
      reads this
    {
      && Splits(payload)
      && (lastIndex != NO_INDEX ==> lastEnd == EndOf(payload, lastIndex) && lastItem == ItemAt(payload, lastIndex))
    }

    constructor (p: Bytes)
      requires Splits(p)
      ensures Valid() && payload == p
    {
      payload, lastIndex, lastEnd, lastItem := p, NO_INDEX, 0, [];
    }

    /** Whatever was asked before, the answer is that of a fresh scan. */
    method At(i: nat) returns (r: Bytes)
      requires Valid() && i < NO_INDEX
      modifies this
      ensures Valid()
      ensures r == ItemAt(payload, i)
    {
      if i < lastIndex {
        lastEnd := SizeAsEncoded(payload).value;
        lastItem := payload[..lastEnd];
        lastIndex := 0;
      }
      while lastIndex < i && lastItem != []
        invariant Valid() && lastIndex <= i
        decreases i - lastIndex
      {
        ScanStep(payload, lastIndex);
        lastItem := payload[lastEnd..];
        lastItem := lastItem[..SizeAsEncoded(lastItem).value];
        lastEnd := lastEnd + |lastItem|;
        lastIndex := lastIndex + 1;
      }
      if lastItem == [] {
        NothingPastTheEnd(payload, lastIndex, i);
      }
      return lastItem;
    }

    /** The number of items, by cutting one item off at a time. */
    method Items() returns (c: nat)
      requires Valid()
      ensures c == Count(payload)
    {
      c := 0;
      var d := payload;
      while d != []
        invariant Splits(d) && c + Count(d) == Count(payload)
        decreases |d|
      {
        d := d[SizeAsEncoded(d).value..];
        c := c + 1;
      }
    }
  }
}
