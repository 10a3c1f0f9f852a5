/**
 The Recursive Length Prefix format (Appendix B of the Ethereum Yellow Paper):
 the encoding of item trees, the strict reader, and the proof that the two are
 inverse to each other.
 */
module Rlp {

  type Byte = x: int | 0 <= x < 256
  type Bytes = seq<Byte>

  datatype Item = Data(data: Bytes) | List(items: seq<Item>)

  datatype Error = BadRlp | UndersizeRlp | OversizeRlp

  datatype Result<+T> = Ok(value: T) | Err(error: Error) {
    predicate IsFailure() { Err? }
    function PropagateFailure<U>(): Result<U>
      requires Err?
    {
      Err(error)
    }
    function Extract(): T
      requires Ok?
    {
      value
    }
  }

  const DATA_IMM_START: int := 0x80
  const LIST_START: int := 0xc0
  const IMM_LEN_COUNT: int := 56
  const DATA_IND_ZERO: int := 0xb7
  const LIST_IND_ZERO: int := 0xf7
  // The reader refuses lengths to which a header offset cannot be added in a 64-bit size.
  const MAX_LENGTH: int := 0xffff_ffff_ffff_ffff - 0x100

  const RLP_NULL: Bytes := [0x80]

  // ---- big-endian integers ----

  /** The shortest big-endian byte string of `n`; empty for zero. */
  function BigEndian(n: nat): (b: Bytes)
    ensures n == 0 <==> b == []
    ensures b != [] ==> b[0] != 0
  {
    if n == 0 then []
    else
      var high := BigEndian(n / 256);
      high + [n % 256]
  }

  function FromBigEndian(b: Bytes): nat {
    if b == [] then 0 else FromBigEndian(b[..|b| - 1]) * 256 + b[|b| - 1]
  }

  lemma {:induction false} FromBigEndianInverts(n: nat)
    ensures FromBigEndian(BigEndian(n)) == n
  {
    if n != 0 {
      FromBigEndianInverts(n / 256);
      var b := BigEndian(n);
      assert b[..|b| - 1] == BigEndian(n / 256);
    }
  }

  lemma {:induction false} BigEndianInverts(b: Bytes)
    requires b == [] || b[0] != 0
    ensures BigEndian(FromBigEndian(b)) == b
  {
    if b != [] {
      var high := b[..|b| - 1];
      BigEndianInverts(high);
      var n := FromBigEndian(b);
      assert n / 256 == FromBigEndian(high) && n % 256 == b[|b| - 1];
      if high == [] {
        assert n == b[0];
      } else {
        assert BigEndian(FromBigEndian(high)) == high;
        assert n != 0;
      }
      assert high + [b[|b| - 1]] == b;
    }
  }

  function Pow256(k: nat): (p: nat)
    ensures p >= 1
  {
    if k == 0 then 1 else 256 * Pow256(k - 1)
  }

  lemma {:induction false} BigEndianLength(n: nat, k: nat)
    ensures |BigEndian(n)| <= k <==> n < Pow256(k)
  {
    if n != 0 && k != 0 {
      BigEndianLength(n / 256, k - 1);
    }
  }

  lemma {:induction false} BigEndianFitsEight(n: nat)
    ensures |BigEndian(n)| <= 8 <==> n <= 0xffff_ffff_ffff_ffff
  {
    BigEndianLength(n, 8);
    assert Pow256(2) == 0x1_0000;
    assert Pow256(4) == 0x1_0000_0000;
    assert Pow256(6) == 0x1_0000_0000_0000;
    assert Pow256(8) == 0x1_0000_0000_0000_0000;
  }

  // ---- numbers in a fixed number of bytes ----

  function Fixed(n: nat, width: nat): (b: Bytes)
    ensures |b| == width
  {
    if width == 0 then [] else Fixed(n / 256, width - 1) + [n % 256]
  }

  lemma {:induction false} FixedInverts(n: nat, width: nat)
    requires n < Pow256(width)
    ensures FromBigEndian(Fixed(n, width)) == n
    decreases width
  {
    if width > 0 {
      FixedInverts(n / 256, width - 1);
      assert Fixed(n, width)[..width - 1] == Fixed(n / 256, width - 1);
    }
  }

  lemma {:induction false} FixedBound(b: Bytes)
    ensures FromBigEndian(b) < Pow256(|b|)
  {
    if b != [] { FixedBound(b[..|b| - 1]); }
  }

  lemma {:induction false} PowersOf256()
    ensures Pow256(4) == 0x1_0000_0000 && Pow256(2) == 0x1_0000
  {
    assert Pow256(0) == 1 && Pow256(1) == 256 && Pow256(2) == 256 * 256 && Pow256(3) == 256 * 256 * 256;
  }

  // ---- encoding ----

  /** The header of a payload of `len` bytes; the leading byte is cast to a byte as the writer casts it. */
  function Header(len: nat, start: int, indZero: int): (h: Bytes)
    requires start + IMM_LEN_COUNT <= 256 && 0 <= start && 0 <= indZero
    ensures |h| >= 1
  {
    if len < IMM_LEN_COUNT then [start + len]
    else [(indZero + |BigEndian(len)|) % 256] + BigEndian(len)
  }

  function EncodeData(d: Bytes): (b: Bytes)
    ensures |b| >= 1
  {
    if |d| == 1 && d[0] < DATA_IMM_START then d
    else Header(|d|, DATA_IMM_START, DATA_IND_ZERO) + d
  }

  function EncodeList(payload: Bytes): (b: Bytes)
    ensures |b| >= 1
  {
    Header(|payload|, LIST_START, LIST_IND_ZERO) + payload
  }

  function Encode(item: Item): (b: Bytes)
    ensures |b| >= 1
    decreases item, 1
  {
    match item
    case Data(d) => EncodeData(d)
    case List(items) => EncodeList(EncodeAll(items))
  }

  function EncodeAll(items: seq<Item>): Bytes
    decreases items, 0
  {
    if items == [] then [] else Encode(items[0]) + EncodeAll(items[1..])
  }

  /** Every payload length is one that the 64-bit reader accepts. */
  predicate Fits(item: Item)
    decreases item, 1
  {
    match item
    case Data(d) => |d| < MAX_LENGTH
    case List(items) => FitsAll(items) && |EncodeAll(items)| < MAX_LENGTH
  }

  predicate FitsAll(items: seq<Item>)
    decreases items, 0
  {
    items == [] || (Fits(items[0]) && FitsAll(items[1..]))
  }

  lemma {:induction false} EncodeAllAppend(xs: seq<Item>, ys: seq<Item>)
    ensures EncodeAll(xs + ys) == EncodeAll(xs) + EncodeAll(ys)
  {
    if xs == [] {
      assert xs + ys == ys;
    } else {
      hide Encode, EncodeAll;
      assert (xs + ys)[0] == xs[0] && (xs + ys)[1..] == xs[1..] + ys;
      EncodeAllAppend(xs[1..], ys);
      EncodeAllStep(xs);
      EncodeAllStep(xs + ys);
      Regroup(Encode(xs[0]), EncodeAll(xs[1..]), EncodeAll(ys));
    }
  }

  lemma EncodeAllStep(items: seq<Item>)
    requires items != []
    ensures EncodeAll(items) == Encode(items[0]) + EncodeAll(items[1..])
  {
  }

  lemma Regroup(a: Bytes, b: Bytes, c: Bytes)
    ensures a + (b + c) == a + b + c
  {
  }

  /**
   The bytes of the format: a byte below 128 stands for itself; up to 55 bytes follow 128 and their number,
   or 192 and their number for a list; more follow 183, or 247 for a list, and the number of digits of
   their number, and then these digits.
   */
  lemma {:induction false} Format(p: Bytes) returns (ds: Bytes)
    requires |p| < MAX_LENGTH
    ensures FromBigEndian(ds) == |p| && (|p| > 0 ==> ds != [] && ds[0] != 0)
    ensures |ds| <= 8
    ensures EncodeData(p) ==
      if |p| == 1 && p[0] < 128 then p else if |p| <= 55 then [128 + |p|] + p else [183 + |ds|] + ds + p
    ensures EncodeList(p) == if |p| <= 55 then [192 + |p|] + p else [247 + |ds|] + ds + p
  {
    ds := BigEndian(|p|);
    FromBigEndianInverts(|p|);
    BigEndianFitsEight(|p|);
    hide BigEndian, FromBigEndian;
    assert (183 + |ds|) % 256 == 183 + |ds| && (247 + |ds|) % 256 == 247 + |ds|;
  }

  // ---- the strict reader ----

  predicate Good(d: Bytes)
    requires d != []
  {
    d[0] == DATA_IMM_START + 1 ==> |d| >= 2 && d[1] >= DATA_IMM_START
  }

  /** A length that follows the leading byte in `size` bytes. */
  function IndirectLength(d: Bytes, size: nat): Result<nat>
    requires d != [] && 1 <= size <= 8
  {
    if |d| <= size || d[1] == 0 then Err(BadRlp)
    else
      var n := FromBigEndian(d[1..1 + size]);
      if n < IMM_LEN_COUNT then Err(BadRlp)
      else if n >= MAX_LENGTH then Err(UndersizeRlp)
      else Ok(n)
  }

  /** Bytes of header in front of the payload. */
  function PayloadOffset(d: Bytes): nat {
    if d == [] then 1
    else if d[0] < DATA_IMM_START then 0
    else if d[0] <= DATA_IND_ZERO then 1
    else if d[0] < LIST_START then 1 + d[0] - DATA_IND_ZERO
    else if d[0] <= LIST_IND_ZERO then 1
    else 1 + d[0] - LIST_IND_ZERO
  }

  function Length(d: Bytes): Result<nat> {
    if d == [] then Ok(0)
    else if !Good(d) then Err(BadRlp)
    else if d[0] < DATA_IMM_START then Ok(1)
    else if d[0] <= DATA_IND_ZERO then Ok(d[0] - DATA_IMM_START)
    else if d[0] < LIST_START then IndirectLength(d, d[0] - DATA_IND_ZERO)
    else if d[0] <= LIST_IND_ZERO then Ok(d[0] - LIST_START)
    else IndirectLength(d, d[0] - LIST_IND_ZERO)
  }

  /** The size an item claims for itself, header included. */
  function ActualSize(d: Bytes): Result<nat> {
    if d == [] then Ok(0)
    else if d[0] < DATA_IMM_START then Ok(1)
    else
      var n :- Length(d);
      Ok(PayloadOffset(d) + n)
  }

  /** The claimed size, refused when the bytes are too few. */
  function SizeAsEncoded(d: Bytes): (r: Result<nat>)
    ensures r.Ok? ==> r.value <= |d| && (d != [] ==> r.value > 0)
  {
    var n :- ActualSize(d);
    if n > |d| then Err(UndersizeRlp) else Ok(n)
  }

  /** The payload of a view whose claimed size is its own size. */
  function Payload(d: Bytes): (p: Bytes)
    requires d != [] && SizeAsEncoded(d) == Ok(|d|)
    ensures d[0] >= DATA_IMM_START ==> |p| < |d|
  {
    d[PayloadOffset(d)..]
  }

  /** Reading with VeryStrict at this level and at every level below. */
  function Parse(d: Bytes): (r: Result<Item>)
    decreases |d|, 0
  {
    if d == [] then Err(BadRlp)
    else
      var n :- SizeAsEncoded(d);
      if n < |d| then Err(OversizeRlp)
      else if d[0] < LIST_START then Ok(Data(Payload(d)))
      else
        var items :- ParseAll(Payload(d));
        Ok(List(items))
  }

  function ParseAll(p: Bytes): (r: Result<seq<Item>>)
    decreases |p|, 1
  {
    if p == [] then Ok([])
    else
      var n :- SizeAsEncoded(p);
      var first :- Parse(p[..n]);
      var rest :- ParseAll(p[n..]);
      Ok([first] + rest)
  }

  // ---- the reader undoes the encoder ----

  lemma {:induction false} SizeOfEncoding(item: Item, rest: Bytes)
    requires Fits(item)
    ensures ActualSize(Encode(item) + rest) == Ok(|Encode(item)|)
  {
    match item
    case Data(d) => SizeOfData(d, rest);
    case List(items) => SizeOfList(EncodeAll(items), rest);
  }

  lemma {:induction false} SizeOfData(d: Bytes, rest: Bytes)
    requires |d| < MAX_LENGTH
    ensures ActualSize(EncodeData(d) + rest) == Ok(|EncodeData(d)|)
    ensures !(|d| == 1 && d[0] < DATA_IMM_START) ==> PayloadOffset(EncodeData(d)) == |EncodeData(d)| - |d|
    ensures EncodeData(d)[0] < LIST_START
  {
    if |d| == 1 && d[0] < DATA_IMM_START {
    } else if |d| < IMM_LEN_COUNT {
      SizeOfShortData(d, rest);
    } else {
      SizeOfLongData(d, rest);
    }
  }

  lemma {:induction false} SizeOfShortData(d: Bytes, rest: Bytes)
    requires |d| < IMM_LEN_COUNT && !(|d| == 1 && d[0] < DATA_IMM_START)
    ensures EncodeData(d) == [DATA_IMM_START + |d|] + d
    ensures ActualSize(EncodeData(d) + rest) == Ok(1 + |d|)
  {
    var b := [DATA_IMM_START + |d|] + d + rest;
    assert |d| == 1 ==> b[1] == d[0];
  }

  lemma {:induction false} SizeOfLongData(d: Bytes, rest: Bytes)
    requires IMM_LEN_COUNT <= |d| < MAX_LENGTH
    ensures ActualSize(EncodeData(d) + rest) == Ok(|EncodeData(d)|)
    ensures PayloadOffset(EncodeData(d)) == |EncodeData(d)| - |d|
    ensures EncodeData(d)[0] < LIST_START
  {
    SizeOfIndirect(|d|, DATA_IMM_START, DATA_IND_ZERO, d + rest);
    SizeBehind(Header(|d|, DATA_IMM_START, DATA_IND_ZERO), d, rest);
  }

  /** A header of `h[0]`'s kind in front of a payload of the length it names. */
  lemma {:induction false} SizeBehind(h: Bytes, d: Bytes, rest: Bytes)
    requires 2 <= |h| <= 9
    requires h[0] == DATA_IND_ZERO + |h| - 1 || h[0] == LIST_IND_ZERO + |h| - 1
    requires IndirectLength(h + (d + rest), |h| - 1) == Ok(|d|)
    ensures ActualSize(h + d + rest) == Ok(|h + d|)
    ensures PayloadOffset(h + d) == |h|
  {
    assert h + d + rest == h + (d + rest);
  }

  lemma {:induction false} SizeOfList(p: Bytes, rest: Bytes)
    requires |p| < MAX_LENGTH
    ensures ActualSize(EncodeList(p) + rest) == Ok(|EncodeList(p)|)
    ensures PayloadOffset(EncodeList(p)) == |EncodeList(p)| - |p|
    ensures EncodeList(p)[0] >= LIST_START
  {
    if |p| < IMM_LEN_COUNT {
      assert (EncodeList(p) + rest)[0] == LIST_START + |p|;
    } else {
      SizeOfIndirect(|p|, LIST_START, LIST_IND_ZERO, p + rest);
      SizeBehind(Header(|p|, LIST_START, LIST_IND_ZERO), p, rest);
    }
  }

  lemma {:induction false} SizeOfIndirect(len: nat, start: int, indZero: int, rest: Bytes)
    requires IMM_LEN_COUNT <= len < MAX_LENGTH
    requires (start == DATA_IMM_START && indZero == DATA_IND_ZERO) || (start == LIST_START && indZero == LIST_IND_ZERO)
    ensures var h := Header(len, start, indZero);
      && 1 <= |BigEndian(len)| <= 8
      && h[0] == indZero + |BigEndian(len)|
      && |h| == 1 + |BigEndian(len)|
      && IndirectLength(h + rest, |BigEndian(len)|) == Ok(len)
  {
    var digits := HeaderDigits(len, start, indZero);
    IndirectLengthOf(len, Header(len, start, indZero) + rest, digits);
  }

  lemma {:induction false} HeaderDigits(len: nat, start: int, indZero: int) returns (digits: Bytes)
    requires IMM_LEN_COUNT <= len <= 0xffff_ffff_ffff_ffff
    requires (start == DATA_IMM_START && indZero == DATA_IND_ZERO) || (start == LIST_START && indZero == LIST_IND_ZERO)
    ensures digits == BigEndian(len) && 1 <= |digits| <= 8
    ensures Header(len, start, indZero) == [indZero + |digits|] + digits
  {
    digits := BigEndian(len);
    BigEndianFitsEight(len);
    assert (indZero + |digits|) % 256 == indZero + |digits|;
  }

  lemma {:induction false} IndirectLengthOf(len: nat, d: Bytes, digits: Bytes)
    requires IMM_LEN_COUNT <= len < MAX_LENGTH
    requires digits == BigEndian(len) && 1 <= |digits| <= 8
    requires |d| > |digits| && d[1..1 + |digits|] == digits
    ensures IndirectLength(d, |digits|) == Ok(len)
  {
    FromBigEndianInverts(len);
    assert d[1] == digits[0];
  }

  /** Strict decoding of an encoding gives back the item. */
  lemma {:induction false} ParseEncode(item: Item)
    requires Fits(item)
    ensures Parse(Encode(item)) == Ok(item)
    decreases item, 1
  {
    var b := Encode(item);
    SizeOfEncoding(item, []);
    assert b + [] == b;
    match item
    case Data(d) =>
      SizeOfData(d, []);
    case List(items) =>
      var p := EncodeAll(items);
      SizeOfList(p, []);
      assert Payload(b) == p;
      ParseEncodeAll(items);
  }

  lemma {:induction false} ParseEncodeAll(items: seq<Item>)
    requires FitsAll(items)
    ensures ParseAll(EncodeAll(items)) == Ok(items)
    decreases items, 0
  {
    if items != [] {
      var first, rest := Encode(items[0]), EncodeAll(items[1..]);
      SizeOfEncoding(items[0], rest);
      ParseEncode(items[0]);
      ParseEncodeAll(items[1..]);
      assert (first + rest)[..|first|] == first;
      assert (first + rest)[|first|..] == rest;
      assert [items[0]] + items[1..] == items;
    }
  }

  // ---- the encoder undoes the reader ----

  lemma {:induction false} IndirectHeaderIsCanonical(d: Bytes, size: nat, start: int, indZero: int)
    requires d != [] && 1 <= size <= 8 && IndirectLength(d, size).Ok?
    requires (start == DATA_IMM_START && indZero == DATA_IND_ZERO) || (start == LIST_START && indZero == LIST_IND_ZERO)
    requires d[0] == indZero + size
    ensures Header(IndirectLength(d, size).value, start, indZero) == d[..1 + size]
  {
    hide BigEndian, FromBigEndian;
    var digits := d[1..1 + size];
    assert digits[0] == d[1];
    BigEndianInverts(digits);
    assert d[..1 + size] == [d[0]] + digits;
    assert (indZero + size) % 256 == d[0];
  }

  /** A view whose claimed size is its own carries the shortest header for its payload. */
  lemma {:induction false} HeaderIsCanonical(d: Bytes)
    requires d != [] && d[0] >= DATA_IMM_START && SizeAsEncoded(d) == Ok(|d|)
    ensures var p := Payload(d);
      && |p| < MAX_LENGTH
      && d[..PayloadOffset(d)] ==
         (if d[0] < LIST_START then Header(|p|, DATA_IMM_START, DATA_IND_ZERO) else Header(|p|, LIST_START, LIST_IND_ZERO))
  {
    assert |Payload(d)| == Length(d).value;
    if DATA_IND_ZERO < d[0] < LIST_START {
      IndirectHeaderIsCanonical(d, d[0] - DATA_IND_ZERO, DATA_IMM_START, DATA_IND_ZERO);
    } else if LIST_IND_ZERO < d[0] {
      IndirectHeaderIsCanonical(d, d[0] - LIST_IND_ZERO, LIST_START, LIST_IND_ZERO);
    }
  }

  lemma {:induction false} PayloadReencodes(d: Bytes)
    requires d != [] && SizeAsEncoded(d) == Ok(|d|)
    ensures |Payload(d)| < MAX_LENGTH
    ensures d[0] < LIST_START ==> EncodeData(Payload(d)) == d
    ensures d[0] >= LIST_START ==> EncodeList(Payload(d)) == d
  {
    var p := Payload(d);
    assert d == d[..PayloadOffset(d)] + p;
    if d[0] >= DATA_IMM_START {
      HeaderIsCanonical(d);
      if |p| == 1 && d[0] < LIST_START {
        assert p[0] == d[1] >= DATA_IMM_START;
      }
    }
  }

  /** Views of the claimed size are exactly the encoded strings and the encoded payloads. */
  ghost predicate IsEncoding(d: Bytes) {
    exists p: Bytes :: |p| < MAX_LENGTH && (d == EncodeData(p) || d == EncodeList(p))
  }

  lemma {:induction false} ViewIs(d: Bytes)
    ensures d != [] && SizeAsEncoded(d) == Ok(|d|) <==> IsEncoding(d)
  {
    hide EncodeData, EncodeList, ActualSize;
    if d != [] && SizeAsEncoded(d) == Ok(|d|) {
      PayloadReencodes(d);
    }
    if IsEncoding(d) {
      var p: Bytes :| |p| < MAX_LENGTH && (d == EncodeData(p) || d == EncodeList(p));
      SizeOfData(p, []);
      SizeOfList(p, []);
      assert d + [] == d;
    }
  }

  /** Bytes accepted at every level re-encode to themselves, and fit. */
  lemma {:induction false} EncodeParse(d: Bytes)
    requires Parse(d).Ok?
    ensures Encode(Parse(d).value) == d
    ensures Fits(Parse(d).value)
    decreases |d|, 0
  {
    PayloadReencodes(d);
    if d[0] >= LIST_START {
      EncodeParseAll(Payload(d));
    }
  }

  lemma {:induction false} EncodeParseAll(p: Bytes)
    requires ParseAll(p).Ok?
    ensures EncodeAll(ParseAll(p).value) == p
    ensures FitsAll(ParseAll(p).value)
    decreases |p|, 1
  {
    hide Encode, EncodeAll, Fits, FitsAll, SizeAsEncoded, Parse, ParseAll;
    if p == [] {
      NothingParses();
    } else {
      var first, rest := ParseAllSplits(p);
      var n := SizeAsEncoded(p).value;
      EncodeParse(p[..n]);
      EncodeParseAll(p[n..]);
      EncodeCons(first, rest);
      assert p == p[..n] + p[n..];
    }
  }

  lemma NothingParses()
    ensures ParseAll([]) == Ok([]) && EncodeAll([]) == [] && FitsAll([])
  {
  }

  lemma {:induction false} ParseAllSplits(p: Bytes) returns (first: Item, rest: seq<Item>)
    requires p != [] && ParseAll(p).Ok?
    ensures SizeAsEncoded(p).Ok?
    ensures Parse(p[..SizeAsEncoded(p).value]) == Ok(first)
    ensures ParseAll(p[SizeAsEncoded(p).value..]) == Ok(rest)
    ensures ParseAll(p).value == [first] + rest
  {
    var n := SizeAsEncoded(p).value;
    first, rest := Parse(p[..n]).value, ParseAll(p[n..]).value;
  }

  lemma {:induction false} EncodeCons(first: Item, rest: seq<Item>)
    ensures EncodeAll([first] + rest) == Encode(first) + EncodeAll(rest)
    ensures FitsAll([first] + rest) <==> Fits(first) && FitsAll(rest)
  {
    assert ([first] + rest)[1..] == rest;
  }

  /** No encoding is a proper prefix of another: a stream of encodings splits in one way only. */
  lemma {:induction false} PrefixFree(x: Item, y: Item, s: Bytes, t: Bytes)
    requires Fits(x) && Fits(y)
    requires Encode(x) + s == Encode(y) + t
    ensures x == y && s == t
  {
    SizeOfEncoding(x, s);
    SizeOfEncoding(y, t);
    var whole := Encode(x) + s;
    assert Encode(x) == whole[..|Encode(x)|] == whole[..|Encode(y)|] == Encode(y);
    ParseEncode(x);
    ParseEncode(y);
    assert s == whole[|Encode(x)|..] == t;
  }

  lemma {:induction false} EncodeInjective(x: Item, y: Item)
    requires Fits(x) && Fits(y) && Encode(x) == Encode(y)
    ensures x == y
  {
    ParseEncode(x);
    ParseEncode(y);
  }

  // ---- integers ----

  /** The writer's encoding of a non-negative integer of any size. */
  function EncodeInt(i: nat): Bytes {
    if i == 0 then [DATA_IMM_START]
    else if i < DATA_IMM_START then [i]
    else
      var br := |BigEndian(i)|;
      if br < IMM_LEN_COUNT then [br + DATA_IMM_START] + BigEndian(i)
      else [(DATA_IND_ZERO + |BigEndian(br)|) % 256] + BigEndian(br) + BigEndian(i)
  }

  /** A canonical integer: data without a leading zero byte. */
  predicate IsInt(d: Bytes)
    requires d != [] && SizeAsEncoded(d) == Ok(|d|)
  {
    if d[0] < DATA_IMM_START then d[0] != 0
    else if d[0] == DATA_IMM_START then true
    else if d[0] < LIST_START then d[PayloadOffset(d)] != 0
    else false
  }

  function ToInt(d: Bytes): Result<nat> {
    if d == [] then Err(BadRlp)
    else
      var n :- SizeAsEncoded(d);
      if n < |d| then Err(OversizeRlp)
      else if IsInt(d) then Ok(FromBigEndian(Payload(d))) else Err(BadRlp)
  }

  lemma {:induction false} EncodeIntIsData(i: nat)
    ensures EncodeInt(i) == Encode(Data(BigEndian(i)))
  {
    if i != 0 {
      if i < 256 {
        assert BigEndian(i / 256) == [];
        assert BigEndian(i) == [i];
      } else {
        assert |BigEndian(i / 256)| >= 1;
      }
    }
  }

  /** Integers round-trip, and only canonical encodings are accepted. */
  lemma {:induction false} IntRoundTrip(i: nat)
    requires |BigEndian(i)| < MAX_LENGTH
    ensures ToInt(EncodeInt(i)) == Ok(i)
  {
    var b := BigEndian(i);
    EncodeIntIsData(i);
    SizeOfData(b, []);
    assert EncodeData(b) + [] == EncodeData(b);
    FromBigEndianInverts(i);
    assert Payload(EncodeData(b)) == b;
  }

  lemma {:induction false} IntCanonical(d: Bytes)
    requires ToInt(d).Ok?
    ensures EncodeInt(ToInt(d).value) == d
  {
    var p := Payload(d);
    BigEndianInverts(p);
    EncodeIntIsData(FromBigEndian(p));
    assert Parse(d) == Ok(Data(p));
    EncodeParse(d);
  }
}
