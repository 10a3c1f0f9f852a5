/**
 The body framing of the HTTP parser: bodies of a declared length, bodies up to the end of
 the connection, and chunked bodies (sections 3.6.1 and 4.4 of RFC 2616).
 */
module HttpBody {
  import opened Rlp
  import opened Options
  import opened Pieces
  import opened Numerals

  const ULLONG_MAX := 0xffff_ffff_ffff_ffff
  const MAX_HEADER_SIZE := 80 * 1024

  const CR: Byte := 13
  const LF: Byte := 10
  const SEMICOLON: Byte := 59
  const SPACE: Byte := 32

  datatype State =
    | ChunkSizeStart
    | ChunkSize
    | ChunkParameters
    | ChunkSizeAlmostDone
    | ChunkData
    | ChunkDataAlmostDone
    | ChunkDataDone
    | Identity
    | IdentityEof
    | Trailers
    | Complete

  datatype Fault = InvalidChunkSize | InvalidContentLength | Strict | HeaderOverflow | InvalidEofState

  /** States whose bytes count towards the header limit. */
  predicate ParsingHeader(s: State) {
    s.ChunkSizeStart? || s.ChunkSize? || s.ChunkParameters? || s.ChunkSizeAlmostDone?
  }

  /** The value of a hexadecimal digit. */
  function Unhex(ch: Byte): (v: Option<nat>)
    ensures v.Some? ==> v.value < 16
  {
    if 48 <= ch <= 57 then Some(ch - 48)
    else if 65 <= ch <= 70 then Some(ch - 55)
    else if 97 <= ch <= 102 then Some(ch - 87)
    else None
  }

  /** The overflow guard in front of another digit to a base. */
  predicate RoomFor(length: nat, base: nat)
    requires base > 0 && base < ULLONG_MAX
  {
    length <= (ULLONG_MAX - base) / base
  }

  lemma RoomIs(length: nat)
    ensures RoomFor(length, 16) <==> length <= (ULLONG_MAX - 16) / 16
  {
  }

  /** One more digit, in 64-bit arithmetic. */
  function MoreDigits(length: nat, base: nat, digit: nat): nat {
    (length * base + digit) % (ULLONG_MAX + 1)
  }

  /** Behind the guard nothing wraps, and the value that stands for no length is never reached. */
  lemma {:induction false} GuardedDigit(length: nat, base: nat, digit: nat)
    requires 0 < base < ULLONG_MAX && digit < base && RoomFor(length, base)
    ensures MoreDigits(length, base, digit) == length * base + digit < ULLONG_MAX
  {
    var limit := (ULLONG_MAX - base) / base;
    assert limit * base <= ULLONG_MAX - base;
    assert length * base <= limit * base;
  }

  // ---- the framing one byte at a time ----

  /** The parser in a body, with all of the body seen so far; or the fault it stopped with. */
  datatype Machine =
    | At(state: State, length: nat, nread: nat, body: Bytes)
    | Failed(fault: Fault)

  /** In a state of the body: neither failed nor past its end. */
  predicate Live(m: Machine) {
    m.At? && !m.state.Trailers? && !m.state.Complete?
  }

  function Step(m: Machine, ch: Byte): Machine
    requires Live(m)
  {
    if ParsingHeader(m.state) && m.nread + 1 > MAX_HEADER_SIZE then Failed(HeaderOverflow)
    else
      match m.state
      case ChunkSizeStart =>
        if Unhex(ch).None? then Failed(InvalidChunkSize)
        else At(ChunkSize, Unhex(ch).value, m.nread + 1, m.body)
      case ChunkSize =>
        if ch == CR then At(ChunkSizeAlmostDone, m.length, m.nread + 1, m.body)
        else if Unhex(ch).Some? then
          if RoomFor(m.length, 16) then At(ChunkSize, m.length * 16 + Unhex(ch).value, m.nread + 1, m.body)
          else Failed(InvalidContentLength)
        else if ch == SEMICOLON || ch == SPACE then At(ChunkParameters, m.length, m.nread + 1, m.body)
        else Failed(InvalidChunkSize)
      case ChunkParameters =>
        At(if ch == CR then ChunkSizeAlmostDone else ChunkParameters, m.length, m.nread + 1, m.body)
      case ChunkSizeAlmostDone =>
        if ch != LF then Failed(Strict)
        else At(if m.length == 0 then Trailers else ChunkData, m.length, 0, m.body)
      case ChunkData =>
        At(if m.length <= 1 then ChunkDataAlmostDone else ChunkData, Less1(m.length), m.nread, m.body + [ch])
      case ChunkDataAlmostDone =>
        if ch != CR then Failed(Strict) else At(ChunkDataDone, m.length, m.nread, m.body)
      case ChunkDataDone =>
        if ch != LF then Failed(Strict) else At(ChunkSizeStart, m.length, 0, m.body)
      case Identity =>
        At(if m.length <= 1 then Complete else Identity, Less1(m.length), m.nread, m.body + [ch])
      case IdentityEof =>
        At(IdentityEof, m.length, m.nread, m.body + [ch])
  }

  function Less1(n: nat): nat { if n == 0 then 0 else n - 1 }

  /** The bytes are taken one after the other until the body is left or a fault stops the parser. */
  function Run(m: Machine, s: Bytes): Machine
    decreases |s|
  {
    if s == [] || !Live(m) then m else Run(Step(m, s[0]), s[1..])
  }

  /** How many bytes are taken; the one that causes a fault is not. */
  function Taken(m: Machine, s: Bytes): (n: nat)
    ensures n <= |s|
    decreases |s|
  {
    if s == [] || !Live(m) || Step(m, s[0]).Failed? then 0 else 1 + Taken(Step(m, s[0]), s[1..])
  }

  /** The parser's own assertions: what holds in each state of the body. */
  predicate Sane(m: Machine) {
    m.At? ==>
      && m.length <= ULLONG_MAX
      && (m.length == ULLONG_MAX ==> m.state.ChunkSizeStart? || m.state.IdentityEof? || m.state.Complete?)
      && (m.state.ChunkSizeStart? ==> m.nread == 0)
      && (m.state.ChunkData? || m.state.Identity? ==> m.length != 0)
      && (m.state.ChunkDataAlmostDone? || m.state.Trailers? ==> m.length == 0)
      && (ParsingHeader(m.state) ==> m.nread <= MAX_HEADER_SIZE)
  }

  lemma {:induction false} StepIsSane(m: Machine, ch: Byte)
    requires Live(m) && Sane(m)
    ensures Sane(Step(m, ch))
  {
    if m.state.ChunkSize? && Unhex(ch).Some? && RoomFor(m.length, 16) {
      GuardedDigit(m.length, 16, Unhex(ch).value);
    }
  }

  lemma {:induction false} RunIsSane(m: Machine, s: Bytes)
    requires Sane(m)
    ensures Sane(Run(m, s))
    decreases |s|
  {
    if s != [] && Live(m) {
      StepIsSane(m, s[0]);
      RunIsSane(Step(m, s[0]), s[1..]);
    }
  }

  /** Where the input is cut does not matter. */
  lemma {:induction false} RunAppend(m: Machine, a: Bytes, b: Bytes)
    ensures Run(m, a + b) == Run(Run(m, a), b)
    decreases |a|
  {
    if a == [] {
      assert a + b == b;
    } else if Live(m) {
      assert (a + b)[1..] == a[1..] + b;
      RunAppend(Step(m, a[0]), a[1..], b);
    }
  }

  lemma {:induction false} TakenAppend(m: Machine, a: Bytes, b: Bytes)
    requires Run(m, a).At? && Taken(m, a) == |a|
    ensures Taken(m, a + b) == |a| + Taken(Run(m, a), b)
    decreases |a|
  {
    if a == [] {
      assert a + b == b;
    } else {
      assert (a + b)[1..] == a[1..] + b;
      TakenAppend(Step(m, a[0]), a[1..], b);
    }
  }

  function RunPieces(m: Machine, pieces: seq<Bytes>): Machine
    decreases |pieces|
  {
    if pieces == [] then m else RunPieces(Run(m, pieces[0]), pieces[1..])
  }

  lemma {:induction false} CutsDoNotMatter(m: Machine, pieces: seq<Bytes>)
    ensures RunPieces(m, pieces) == Run(m, Concat(pieces))
    decreases |pieces|
  {
    if pieces != [] {
      RunAppend(m, pieces[0], Concat(pieces[1..]));
      CutsDoNotMatter(Run(m, pieces[0]), pieces[1..]);
    }
  }

  /** Data is taken in bulk as far as the length goes. */
  lemma {:induction false} RunData(m: Machine, s: Bytes)
    requires m.At? && (m.state.ChunkData? || m.state.Identity?) && |s| <= m.length && m.length > 0
    ensures Taken(m, s) == |s|
    ensures Run(m, s) == At(
      if |s| < m.length then m.state else if m.state.ChunkData? then ChunkDataAlmostDone else Complete,
      m.length - |s|, m.nread, m.body + s)
    decreases |s|
  {
    if s == [] {
      assert m.body + s == m.body;
    } else {
      assert m.body + [s[0]] + s[1..] == m.body + s;
      if m.length > 1 { RunData(Step(m, s[0]), s[1..]); }
    }
  }

  lemma {:induction false} RunEof(m: Machine, s: Bytes)
    requires m.At? && m.state.IdentityEof?
    ensures Taken(m, s) == |s| && Run(m, s) == m.(body := m.body + s)
    decreases |s|
  {
    if s == [] {
      assert m.body + s == m.body;
    } else {
      assert m.body + [s[0]] + s[1..] == m.body + s;
      RunEof(Step(m, s[0]), s[1..]);
    }
  }

  /** A body of a declared length is exactly the next so many bytes. */
  lemma {:induction false} IdentityBody(m: Machine, x: Bytes)
    requires m.At? && m.state.Identity? && 0 < m.length <= |x|
    ensures Taken(m, x) == m.length
    ensures Run(m, x) == At(Complete, 0, m.nread, m.body + x[..m.length])
  {
    var n := m.length;
    assert x == x[..n] + x[n..];
    RunData(m, x[..n]);
    RunAppend(m, x[..n], x[n..]);
    TakenAppend(m, x[..n], x[n..]);
  }

  // ---- the declared length ----

  predicate IsDigit(ch: Byte) { 48 <= ch <= 57 }

  predicate Decimal(ds: Bytes) {
    forall i :: 0 <= i < |ds| ==> IsDigit(ds[i])
  }

  function Value(ds: Bytes): nat
    requires Decimal(ds)
  {
    if ds == [] then 0 else Value(ds[..|ds| - 1]) * 10 + (ds[|ds| - 1] - 48)
  }

  lemma {:induction false} ValueGrows(ds: Bytes, i: nat)
    requires Decimal(ds) && i <= |ds|
    ensures Value(ds[..i]) <= Value(ds)
    decreases |ds|
  {
    if i == |ds| {
      assert ds[..i] == ds;
    } else {
      assert ds[..|ds| - 1][..i] == ds[..i];
      ValueGrows(ds[..|ds| - 1], i);
    }
  }

  /** Digits have the value that they spell. */
  lemma {:induction false} ValueSpelled(ds: Bytes, n: nat)
    ensures Spells(ds, 10, n) <==> Decimal(ds) && Value(ds) == n
    decreases |ds|
  {
    if ds != [] {
      var init, last := ds[..|ds| - 1], ds[|ds| - 1];
      ValueSpelled(init, n / 10);
      GlyphIs(last, n % 10);
      hide Glyph;
      assert Decimal(ds) <==> Decimal(init) && IsDigit(last);
    }
  }

  /**
   A length that the parser takes: a decimal numeral of `k` digits and then spaces.  The number is less
   than 2^64 - 6, where the guard in front of the last digit is.
   */
  predicate IsLength(value: Bytes, k: nat, n: nat) {
    && 1 <= k <= |value| && Spells(value[..k], 10, n) && n <= 18446744073709551609
    && forall i :: k <= i < |value| ==> value[i] == ' ' as int
  }

  /** The same in terms of what the parser has read before the last digit. */
  predicate Reads(value: Bytes, k: nat) {
    && 1 <= k <= |value| && Decimal(value[..k]) && RoomFor(Value(value[..k - 1]), 10)
    && forall i :: k <= i < |value| ==> value[i] == SPACE
  }

  lemma {:induction false} ReadsLength(value: Bytes, k: nat, n: nat)
    ensures IsLength(value, k, n) <==> Reads(value, k) && Value(value[..k]) == n
  {
    if 1 <= k <= |value| {
      ValueSpelled(value[..k], n);
      hide Spells;
      assert value[..k][..k - 1] == value[..k - 1];
    }
  }

  /** The value of a Content-Length header from its first character that is no blank. */
  method ReadContentLength(value: Bytes) returns (r: Option<nat>, ghost k: nat)
    requires value != []
    ensures r.Some? ==> IsLength(value, k, r.value)
    ensures r.None? ==> forall j, n :: !IsLength(value, j, n)
  {
    r, k := ReadDigits(value);
    hide Reads, IsLength;
    if r.Some? {
      ReadsLength(value, k, r.value);
    } else {
      forall j, n ensures !IsLength(value, j, n) { ReadsLength(value, j, n); }
    }
  }

  method ReadDigits(value: Bytes) returns (r: Option<nat>, ghost k: nat)
    requires value != []
    ensures r.Some? ==> Reads(value, k) && r.value == Value(value[..k]) < ULLONG_MAX
    ensures r.None? ==> forall j :: !Reads(value, j)
  {
    hide RoomFor, MoreDigits;
    k := 0;
    RoomForNothing();
    if !IsDigit(value[0]) {
      assert forall j :: 1 <= j <= |value| ==> value[..j][0] == value[0];
      return None, k;
    }
    var length := value[0] - 48;
    var spaces := false;
    var i := 1;
    k := 1;
    assert value[..1][..0] == [] && value[..0] == [];
    while i < |value|
      invariant 1 <= k <= i <= |value| && (if spaces then k < i && value[k] == SPACE else k == i)
      invariant Decimal(value[..k]) && RoomFor(Value(value[..k - 1]), 10) && length == Value(value[..k]) < ULLONG_MAX
      invariant forall j :: k <= j < i ==> value[j] == SPACE
    {
      var ch := value[i];
      if spaces {
        if ch != SPACE {
          forall j ensures !Reads(value, j) { NoLength(value, k, i, j); }
          return None, k;
        }
      } else if ch == SPACE {
        spaces := true;
      } else {
        if !IsDigit(ch) {
          forall j ensures !Reads(value, j) { NoLength(value, i, i, j); }
          return None, k;
        }
        var t := MoreDigits(length, 10, ch - 48);
        RoomForTen(length);
        if (ULLONG_MAX - 10) / 10 < length {
          forall j ensures !Reads(value, j) { TooLong(value, i, j); }
          return None, k;
        }
        GuardedDigit(length, 10, ch - 48);
        assert value[..i + 1] == value[..i] + [ch];
        length := t;
        k := i + 1;
      }
      i := i + 1;
    }
    return Some(length), k;
  }

  lemma RoomForNothing()
    ensures RoomFor(0, 10)
  {
  }

  lemma RoomForTen(length: nat)
    ensures RoomFor(length, 10) <==> length <= (ULLONG_MAX - 10) / 10
  {
  }

  /** No digits to the left of something that is no digit, no spaces to the right of something that is no space. */
  lemma {:induction false} NoLength(value: Bytes, a: nat, b: nat, k: nat)
    requires a <= b < |value| && !IsDigit(value[a]) && value[b] != SPACE
    ensures !Reads(value, k)
  {
    if a < k <= |value| { assert value[..k][a] == value[a]; }
  }

  lemma {:induction false} TooLong(value: Bytes, i: nat, k: nat)
    requires i < |value| && Decimal(value[..i]) && value[i] != SPACE && !RoomFor(Value(value[..i]), 10)
    ensures !Reads(value, k)
  {
    if i < k <= |value| && Decimal(value[..k]) {
      var ds := value[..k - 1];
      assert forall j :: 0 <= j < k - 1 ==> ds[j] == value[..k][j];
      assert ds[..i] == value[..i];
      ValueGrows(ds, i);
    }
  }

  // ---- the chunked form ----

  /** A chunk as written: the digits of its size, what follows them on the line, and its data. */
  datatype Chunk = Chunk(digits: Bytes, params: Bytes, data: Bytes)

  predicate AllHex(ds: Bytes) {
    forall i :: 0 <= i < |ds| ==> Unhex(ds[i]).Some?
  }

  /** The number that digits continue from a number already read. */
  function HexFrom(length: nat, ds: Bytes): nat
    requires AllHex(ds)
    decreases |ds|
  {
    if ds == [] then length else HexFrom(length * 16 + Unhex(ds[0]).value, ds[1..])
  }

  /** Nothing, or a semicolon or a space and then anything up to the end of the line. */
  predicate Params(ps: Bytes) {
    ps == [] || ((ps[0] == ';' as int || ps[0] == ' ' as int) && forall i :: 0 <= i < |ps| ==> ps[i] != '\r' as int)
  }

  /**
   A chunk whose size line is a hexadecimal numeral of the size of its data.  The size is less than
   2^64 - 16, where the guard in front of the last digit is, and the line has at most 80 KiB.
   */
  predicate WellSized(c: Chunk) {
    && c.digits != [] && Spells(c.digits, 16, |c.data|) && |c.data| <= 0xffff_ffff_ffff_ffef
    && Params(c.params) && |c.digits| + |c.params| + 2 <= 81920
  }

  /** The same in terms of what the parser has read before the last digit. */
  predicate Measured(c: Chunk) {
    && c.digits != [] && AllHex(c.digits) && Params(c.params)
    && HexFrom(0, c.digits) == |c.data|
    && RoomFor(HexFrom(0, c.digits[..|c.digits| - 1]), 16)
    && |c.digits| + |c.params| + 2 <= MAX_HEADER_SIZE
  }

  lemma {:induction false} UnhexIs(b: Byte, v: nat)
    ensures Unhex(b) == Some(v) <==> Glyph(b, v)
  {
    GlyphIs(b, v);
  }

  lemma {:induction false} HexLast(length: nat, ds: Bytes)
    requires AllHex(ds) && ds != []
    ensures HexFrom(length, ds) == HexFrom(length, ds[..|ds| - 1]) * 16 + Unhex(ds[|ds| - 1]).value
    decreases |ds|
  {
    hide Unhex;
    if |ds| > 1 {
      assert ds[..|ds| - 1][1..] == ds[1..][..|ds| - 2];
      HexLast(length * 16 + Unhex(ds[0]).value, ds[1..]);
    } else {
      assert ds[..0] == [] && ds[1..] == [];
    }
  }

  /** Hexadecimal digits have the value that they spell. */
  lemma {:induction false} HexSpelled(ds: Bytes, n: nat)
    ensures Spells(ds, 16, n) <==> AllHex(ds) && HexFrom(0, ds) == n
    decreases |ds|
  {
    if ds != [] {
      var init, last := ds[..|ds| - 1], ds[|ds| - 1];
      HexSpelled(init, n / 16);
      UnhexIs(last, n % 16);
      assert Unhex(last).Some? ==> Unhex(last).value < 16;
      hide Glyph, Unhex, HexFrom;
      assert AllHex(ds) <==> AllHex(init) && Unhex(last).Some?;
      if AllHex(ds) { HexLast(0, ds); }
    }
  }

  /** The numeral of any number is read as the number, with a leading zero too. */
  lemma {:induction false} NumeralIsRead(n: nat)
    ensures var ds := Numeral(n, 16); AllHex(ds) && HexFrom(0, ds) == n
    ensures var ds := ['0' as int] + Numeral(n, 16); AllHex(ds) && HexFrom(0, ds) == n
  {
    hide Numeral;
    LeadingZero(Numeral(n, 16), 16, n);
    HexSpelled(Numeral(n, 16), n);
    HexSpelled(['0' as int] + Numeral(n, 16), n);
  }

  lemma {:induction false} MeasuredIs(c: Chunk)
    ensures WellSized(c) <==> Measured(c)
  {
    var ds := c.digits;
    HexSpelled(ds, |c.data|);
    hide Spells, Params, HexFrom;
    if ds != [] && AllHex(ds) { HexLast(0, ds); }
  }

  const LINE_END: Bytes := ['\r' as int, '\n' as int]

  function Head(c: Chunk): Bytes { c.digits + c.params + LINE_END }

  /** A chunk on the wire; the last one has no data and no line end after it. */
  function Wire(c: Chunk): Bytes {
    Head(c) + if c.data == [] then [] else c.data + LINE_END
  }

  function WireAll(cs: seq<Chunk>): Bytes {
    if cs == [] then [] else Wire(cs[0]) + WireAll(cs[1..])
  }

  function Bodies(cs: seq<Chunk>): Bytes {
    if cs == [] then [] else cs[0].data + Bodies(cs[1..])
  }

  /** Chunks with data and then the last chunk. */
  predicate ChunkedBody(cs: seq<Chunk>, last: Chunk) {
    && (forall i :: 0 <= i < |cs| ==> WellSized(cs[i]) && cs[i].data != [])
    && WellSized(last) && last.data == []
  }

  /** The guard holds before every digit. */
  predicate DigitsFit(length: nat, ds: Bytes)
    requires AllHex(ds)
    decreases |ds|
  {
    ds == [] || (RoomFor(length, 16) && DigitsFit(length * 16 + Unhex(ds[0]).value, ds[1..]))
  }

  lemma {:induction false} HexGrows(length: nat, ds: Bytes)
    requires AllHex(ds)
    ensures HexFrom(length, ds) >= length
    decreases |ds|
  {
    if ds != [] { HexGrows(length * 16 + Unhex(ds[0]).value, ds[1..]); }
  }

  /** It is enough that the guard holds before the last digit. */
  lemma {:induction false} DigitsFitIs(length: nat, ds: Bytes)
    requires AllHex(ds) && ds != []
    ensures DigitsFit(length, ds) <==> RoomFor(HexFrom(length, ds[..|ds| - 1]), 16)
    decreases |ds|
  {
    var init := ds[..|ds| - 1];
    if |ds| > 1 {
      assert init[1..] == ds[1..][..|ds| - 2];
      DigitsFitIs(length * 16 + Unhex(ds[0]).value, ds[1..]);
      HexGrows(length, init);
    }
  }

  lemma {:induction false} RunDigits(m: Machine, ds: Bytes)
    requires m.At? && m.state.ChunkSize? && AllHex(ds) && DigitsFit(m.length, ds) && m.nread + |ds| <= MAX_HEADER_SIZE
    ensures Run(m, ds) == At(ChunkSize, HexFrom(m.length, ds), m.nread + |ds|, m.body)
    decreases |ds|
  {
    if ds != [] { RunDigits(Step(m, ds[0]), ds[1..]); }
  }

  lemma {:induction false} RunParams(m: Machine, ps: Bytes)
    requires m.At? && m.state.ChunkParameters? && CR !in ps && m.nread + |ps| <= MAX_HEADER_SIZE
    ensures Run(m, ps) == m.(nread := m.nread + |ps|)
    decreases |ps|
  {
    if ps != [] { RunParams(Step(m, ps[0]), ps[1..]); }
  }

  /** A machine at the start of a size line. */
  predicate AtStart(m: Machine) {
    m.At? && m.state.ChunkSizeStart? && m.nread == 0
  }

  /** After a size line: at the data, or past the last chunk. */
  function AfterHead(length: nat, body: Bytes): Machine {
    At(if length == 0 then Trailers else ChunkData, length, 0, body)
  }

  lemma {:induction false} RunLineEnd(m: Machine)
    requires m.At? && (m.state.ChunkSize? || m.state.ChunkParameters?) && m.nread + 2 <= MAX_HEADER_SIZE
    ensures Run(m, [CR, LF]) == AfterHead(m.length, m.body)
  {
    var q := Step(m, CR);
    assert [CR, LF][1..] == [LF] && [LF][1..] == [];
    assert Run(m, [CR, LF]) == Run(q, [LF]) == Run(Step(q, LF), []);
  }

  lemma {:induction false} RunHead(m: Machine, c: Chunk)
    requires AtStart(m) && WellSized(c)
    ensures Run(m, Head(c)) == AfterHead(|c.data|, m.body)
  {
    MeasuredIs(c);
    var first, more := c.digits[0], c.digits[1..];
    DigitsFitIs(0, c.digits);
    var q := Step(m, first);
    assert c.digits == [first] + more;
    RunDigits(q, more);
    var r := Run(q, more);
    assert Run(m, c.digits) == r;
    RunTail(r, c.params);
    RunAppend(m, c.digits, c.params);
    RunAppend(m, c.digits + c.params, [CR, LF]);
  }

  lemma {:induction false} RunTail(m: Machine, ps: Bytes)
    requires m.At? && m.state.ChunkSize? && Params(ps) && m.nread + |ps| + 2 <= MAX_HEADER_SIZE
    ensures Run(Run(m, ps), [CR, LF]) == AfterHead(m.length, m.body)
  {
    if ps != [] {
      RunParams(Step(m, ps[0]), ps[1..]);
    }
    RunLineEnd(Run(m, ps));
  }

  lemma {:induction false} RunDataEnd(m: Machine)
    requires m.At? && m.state.ChunkDataAlmostDone?
    ensures Run(m, [CR, LF]) == At(ChunkSizeStart, m.length, 0, m.body)
  {
    var q := Step(m, CR);
    assert [CR, LF][1..] == [LF] && [LF][1..] == [];
    assert Run(m, [CR, LF]) == Run(q, [LF]) == Run(Step(q, LF), []);
  }

  /** A chunk adds its data to the body. */
  lemma {:induction false} RunChunk(m: Machine, c: Chunk)
    requires AtStart(m) && WellSized(c)
    ensures Run(m, Wire(c)) == At(if c.data == [] then Trailers else ChunkSizeStart, 0, 0, m.body + c.data)
  {
    RunHead(m, c);
    var q := AfterHead(|c.data|, m.body);
    if c.data == [] {
      assert Wire(c) == Head(c) && m.body + c.data == m.body;
    } else {
      RunData(q, c.data);
      RunDataEnd(Run(q, c.data));
      RunAppend(q, c.data, [CR, LF]);
      RunAppend(m, Head(c), c.data + [CR, LF]);
    }
  }

  /** Every chunked body is taken, and what is delivered is the data of its chunks. */
  lemma {:induction false} ChunkedIsTaken(m: Machine, cs: seq<Chunk>, last: Chunk)
    requires AtStart(m) && ChunkedBody(cs, last)
    ensures Run(m, WireAll(cs) + Wire(last)) == At(Trailers, 0, 0, m.body + Bodies(cs))
    decreases |cs|
  {
    hide Run, Wire, WellSized;
    if cs == [] {
      assert WireAll(cs) + Wire(last) == Wire(last) && m.body + [] == m.body;
      RunChunk(m, last);
    } else {
      var rest := WireAll(cs[1..]) + Wire(last);
      RunChunk(m, cs[0]);
      ChunkedIsTaken(Run(m, Wire(cs[0])), cs[1..], last);
      RunAppend(m, Wire(cs[0]), rest);
      assert WireAll(cs) + Wire(last) == Wire(cs[0]) + rest;
      assert m.body + cs[0].data + Bodies(cs[1..]) == m.body + Bodies(cs);
    }
  }

  // ---- and nothing else is taken ----

  /** From this state the input leads past the last chunk. */
  predicate Ends(m: Machine, x: Bytes) {
    Run(m, x).At? && Run(m, x).state.Trailers?
  }

  lemma {:induction false} EndsStep(m: Machine, x: Bytes)
    requires Live(m) && Ends(m, x)
    ensures x != [] && Step(m, x[0]).At? && Ends(Step(m, x[0]), x[1..])
    ensures Run(Step(m, x[0]), x[1..]) == Run(m, x)
  {
    assert x != [];
    LeftForGood(Step(m, x[0]), x[1..]);
  }

  lemma LeftForGood(m: Machine, x: Bytes)
    ensures !Live(m) ==> Run(m, x) == m
  {
  }

  /** The rest of a size line, and what the parser makes of it. */
  predicate Line(m: Machine, x: Bytes, ps: Bytes, rest: Bytes) {
    && m.At? && x == ps + [CR, LF] + rest && m.nread + |ps| + 2 <= MAX_HEADER_SIZE
    && Run(m, x) == Run(AfterHead(m.length, m.body), rest)
  }

  lemma {:induction false} LineEndIsFound(m: Machine, x: Bytes)
    requires m.At? && (m.state.ChunkSize? || m.state.ChunkParameters?) && Ends(m, x) && x != [] && x[0] == CR
    ensures |x| >= 2 && Line(m, x, [], x[2..])
  {
    EndsStep(m, x);
    EndsStep(Step(m, x[0]), x[1..]);
    assert x == [] + [CR, LF] + x[2..] && x[1..][1..] == x[2..];
  }

  lemma {:induction false} ParamsAreFound(m: Machine, x: Bytes) returns (ps: Bytes, rest: Bytes)
    requires m.At? && m.state.ChunkParameters? && Ends(m, x)
    ensures CR !in ps && Line(m, x, ps, rest)
    decreases |x|
  {
    EndsStep(m, x);
    if x[0] == CR {
      LineEndIsFound(m, x);
      return [], x[2..];
    }
    var more;
    more, rest := ParamsAreFound(Step(m, x[0]), x[1..]);
    ps := [x[0]] + more;
    assert x == ps + [CR, LF] + rest;
  }

  /** More digits, and then the rest of the line. */
  predicate SizeLine(m: Machine, x: Bytes, ds: Bytes, ps: Bytes, rest: Bytes) {
    && m.At? && AllHex(ds) && Params(ps) && x == ds + ps + [CR, LF] + rest
    && DigitsFit(m.length, ds) && m.nread + |ds| + |ps| + 2 <= MAX_HEADER_SIZE
    && Run(m, x) == Run(AfterHead(HexFrom(m.length, ds), m.body), rest)
  }

  lemma {:induction false} TailIsFound(m: Machine, x: Bytes) returns (ps: Bytes, rest: Bytes)
    requires m.At? && m.state.ChunkSize? && Ends(m, x) && x != [] && Unhex(x[0]).None?
    ensures SizeLine(m, x, [], ps, rest)
  {
    EndsStep(m, x);
    if x[0] == CR {
      LineEndIsFound(m, x);
      ps, rest := [], x[2..];
    } else {
      var more;
      more, rest := ParamsAreFound(Step(m, x[0]), x[1..]);
      ps := [x[0]] + more;
    }
    assert x == [] + ps + [CR, LF] + rest;
  }

  lemma {:induction false} DigitsAreFound(m: Machine, x: Bytes) returns (ds: Bytes, ps: Bytes, rest: Bytes)
    requires m.At? && m.state.ChunkSize? && Ends(m, x)
    ensures SizeLine(m, x, ds, ps, rest)
    decreases |x|
  {
    EndsStep(m, x);
    if Unhex(x[0]).None? {
      ds := [];
      ps, rest := TailIsFound(m, x);
    } else {
      var more;
      more, ps, rest := DigitsAreFound(Step(m, x[0]), x[1..]);
      ds := [x[0]] + more;
      assert ds[1..] == more;
      assert x == ds + ps + [CR, LF] + rest;
    }
  }

  lemma {:induction false} HeadIsFound(m: Machine, x: Bytes) returns (ds: Bytes, ps: Bytes, rest: Bytes)
    requires AtStart(m) && Ends(m, x)
    ensures ds != [] && AllHex(ds) && Params(ps) && x == ds + ps + [CR, LF] + rest
    ensures RoomFor(HexFrom(0, ds[..|ds| - 1]), 16) && |ds| + |ps| + 2 <= MAX_HEADER_SIZE
    ensures Run(m, x) == Run(AfterHead(HexFrom(0, ds), m.body), rest)
  {
    EndsStep(m, x);
    var more;
    more, ps, rest := DigitsAreFound(Step(m, x[0]), x[1..]);
    ds := [x[0]] + more;
    assert ds[1..] == more;
    assert x == ds + ps + [CR, LF] + rest;
    DigitsFitIs(0, ds);
  }

  lemma {:induction false} DataEndIsFound(m: Machine, x: Bytes)
    requires m.At? && m.state.ChunkDataAlmostDone? && Ends(m, x)
    ensures |x| >= 2 && x[..2] == [CR, LF]
    ensures Run(m, x) == Run(At(ChunkSizeStart, m.length, 0, m.body), x[2..])
  {
    EndsStep(m, x);
    EndsStep(Step(m, x[0]), x[1..]);
    assert x[1..][1..] == x[2..] && x[..2] == [x[0], x[1]];
  }

  lemma {:induction false} DataIsFound(m: Machine, x: Bytes)
    requires m.At? && m.state.ChunkData? && m.length > 0 && Ends(m, x)
    ensures |x| >= m.length + 2 && x[m.length..m.length + 2] == [CR, LF]
    ensures Run(m, x) == Run(At(ChunkSizeStart, 0, 0, m.body + x[..m.length]), x[m.length + 2..])
  {
    var n := m.length;
    if |x| < n { RunData(m, x); }
    var data, rest := x[..n], x[n..];
    assert x == data + rest;
    RunAppend(m, data, rest);
    RunData(m, data);
    DataEndIsFound(Run(m, data), rest);
    assert rest[..2] == x[n..n + 2] && rest[2..] == x[n + 2..];
  }

  /** An input that leads past the last chunk begins with a chunked body, and its data is delivered. */
  lemma {:induction false} ChunkedIsAllThatIsTaken(m: Machine, x: Bytes)
    returns (cs: seq<Chunk>, last: Chunk, rest: Bytes)
    requires AtStart(m) && Ends(m, x)
    ensures ChunkedBody(cs, last) && x == WireAll(cs) + Wire(last) + rest
    ensures Run(m, x) == At(Trailers, 0, 0, m.body + Bodies(cs))
    decreases |x|
  {
    hide Run, Params, RoomFor, WellSized;
    var ds, ps, tail := HeadIsFound(m, x);
    var n := HexFrom(0, ds);
    LeftForGood(AfterHead(n, m.body), tail);
    if n == 0 {
      cs, last, rest := [], Chunk(ds, ps, []), tail;
      MeasuredIs(last);
      assert Wire(last) == ds + ps + [CR, LF];
      assert x == [] + Wire(last) + rest && m.body + [] == m.body;
    } else {
      DataIsFound(AfterHead(n, m.body), tail);
      hide HexFrom, Wire;
      var c := Chunk(ds, ps, tail[..n]);
      MeasuredIs(c);
      var more;
      more, last, rest := ChunkedIsAllThatIsTaken(At(ChunkSizeStart, 0, 0, m.body + c.data), tail[n + 2..]);
      ChunkJoins(ds, ps, tail, n);
      cs := [c] + more;
      OneMore(c, more, last, rest, m.body);
    }
  }

  lemma {:induction false} OneMore(c: Chunk, more: seq<Chunk>, last: Chunk, rest: Bytes, body: Bytes)
    requires ChunkedBody(more, last) && WellSized(c) && c.data != []
    ensures ChunkedBody([c] + more, last)
    ensures Wire(c) + (WireAll(more) + Wire(last) + rest) == WireAll([c] + more) + Wire(last) + rest
    ensures body + c.data + Bodies(more) == body + Bodies([c] + more)
  {
    hide Wire, WellSized;
    assert ([c] + more)[1..] == more;
    assert body + c.data + Bodies(more) == body + (c.data + Bodies(more));
  }

  lemma {:induction false} ChunkJoins(ds: Bytes, ps: Bytes, tail: Bytes, n: nat)
    requires 0 < n <= |tail| - 2 && tail[n..n + 2] == [CR, LF]
    ensures ds + ps + [CR, LF] + tail == Wire(Chunk(ds, ps, tail[..n])) + tail[n + 2..]
  {
    assert tail == tail[..n] + tail[n..n + 2] + tail[n + 2..];
  }

  /** Once a cut point is reached with the body still open, the rest decides. */
  lemma {:induction false} RunFrom(m: Machine, s: Bytes, p: nat)
    requires p <= |s| && Run(m, s[..p]).At? && Taken(m, s[..p]) == p
    ensures Run(m, s) == Run(Run(m, s[..p]), s[p..])
    ensures Taken(m, s) == p + Taken(Run(m, s[..p]), s[p..])
  {
    assert s == s[..p] + s[p..];
    RunAppend(m, s[..p], s[p..]);
    TakenAppend(m, s[..p], s[p..]);
  }

  /** The next stretch of the input after a cut point. */
  lemma {:induction false} Onward(m: Machine, s: Bytes, p: nat, k: nat)
    requires p + k <= |s| && Run(m, s[..p]).At? && Taken(m, s[..p]) == p
    requires var q := Run(m, s[..p]); Run(q, s[p..p + k]).At? && Taken(q, s[p..p + k]) == k
    ensures var r := Run(Run(m, s[..p]), s[p..p + k]);
      && Run(m, s[..p + k]) == r && Taken(m, s[..p + k]) == p + k
      && (!Live(r) ==> Run(m, s) == r && Taken(m, s) == p + k)
  {
    var t := s[..p + k];
    assert t[..p] == s[..p] && t[p..] == s[p..p + k];
    RunFrom(m, t, p);
    RunFrom(m, s, p + k);
  }

  lemma {:induction false} OneStep(m: Machine, s: Bytes, p: nat)
    requires p < |s| && Live(Run(m, s[..p])) && Taken(m, s[..p]) == p
    ensures var r := Step(Run(m, s[..p]), s[p]);
      if r.Failed? then Run(m, s) == r && Taken(m, s) == p
      else
        && Run(m, s[..p + 1]) == r && Taken(m, s[..p + 1]) == p + 1
        && (!Live(r) ==> Run(m, s) == r && Taken(m, s) == p + 1)
  {
    var q := Run(m, s[..p]);
    var r := Step(q, s[p]);
    assert s[p..p + 1] == [s[p]] && [s[p]][1..] == [];
    if r.Failed? {
      RunFrom(m, s, p);
      assert s[p..][0] == s[p];
      LeftForGood(r, s[p..][1..]);
    } else {
      assert Run(q, [s[p]]) == r && Taken(q, [s[p]]) == 1;
      Onward(m, s, p, 1);
    }
  }

  // ---- the parser ----

  class HttpParser {
    // What the header said.
    var chunked: bool
    var skipBody: bool
    var upgrade: bool
    var connect: bool
    var request: bool
    var status: nat
    // Where the parser is; `contentLength` is a 64-bit number.
    var state: State
    var contentLength: nat
    var nread: nat
    var errno: Option<Fault>
    // What the body callback has been given.
    var delivered: Bytes

    constructor ()
      ensures errno.None? && delivered == [] && state.Complete? && contentLength == ULLONG_MAX
    {
      chunked, skipBody, upgrade, connect, request, status := false, false, false, false, true, 0;
      state, contentLength, nread, errno, delivered := Complete, ULLONG_MAX, 0, None, [];
    }

    ghost function Machine(pending: Bytes): Machine
      reads this
    {
      if errno.Some? then Failed(errno.value) else At(state, contentLength, nread, delivered + pending)
    }

    /** The assertions that the parser makes in the states of a body. */
    ghost predicate Valid()
      reads this
    {
      errno.None? ==>
        && Sane(At(state, contentLength, nread, delivered))
        && (ParsingHeader(state) || state.ChunkData? || state.ChunkDataAlmostDone? || state.ChunkDataDone? ==> chunked)
    }

    /** The statuses of responses that have no body: 1xx, 204 and 304. */
    static const BODILESS: set<nat> := (set n | 100 <= n <= 199) + {204, 304}

    /** Whether only the end of the connection ends the message. */
    predicate NeedsEof()
      reads this
    {
      && !request && status / 100 != 1 && status != 204 && status != 304 && !skipBody
      && !chunked && contentLength == ULLONG_MAX
    }

    /** The header is complete: which body there is. */
    method HeadersDone()
      requires errno.None? && contentLength <= ULLONG_MAX
      modifies this`state, this`nread
      ensures Valid() && nread == 0
      ensures skipBody || (upgrade && connect) ==> state.Complete?
      ensures !skipBody && !(upgrade && connect) ==>
        && (chunked ==> state.ChunkSizeStart?)
        && (!chunked && contentLength == 0 ==> state.Complete?)
        && (!chunked && 0 < contentLength < ULLONG_MAX ==> state.Identity?)
        && (!chunked && contentLength == ULLONG_MAX && (upgrade || request || status in BODILESS) ==> state.Complete?)
        && (!chunked && contentLength == ULLONG_MAX && !upgrade && !request && status !in BODILESS ==> state.IdentityEof?)
    {
      nread := 0;
      var hasBody := chunked || (contentLength > 0 && contentLength != ULLONG_MAX);
      if upgrade && (connect || skipBody || !hasBody) {
        state := Complete;
      } else if skipBody {
        state := Complete;
      } else if chunked {
        state := ChunkSizeStart;
      } else if contentLength == 0 {
        state := Complete;
      } else if contentLength != ULLONG_MAX {
        state := Identity;
      } else if !NeedsEof() {
        state := Complete;
      } else {
        state := IdentityEof;
      }
    }

    /** The states that look at one byte at a time and take no data. */
    method OneByte(ch: Byte, ghost pending: Bytes)
      requires Valid() && errno.None? && Live(Machine([]))
      requires !state.ChunkData? && !state.Identity? && !state.IdentityEof?
      modifies this`state, this`contentLength, this`nread, this`errno
      ensures Valid() && Machine(pending) == Step(old(Machine(pending)), ch)
    {
      StepIsSane(Machine([]), ch);
      hide Unhex, RoomFor, MoreDigits;
      if ParsingHeader(state) {
        nread := nread + 1;
        if nread > MAX_HEADER_SIZE {
          errno := Some(HeaderOverflow);
          return;
        }
      }
      match state
      case ChunkSizeStart =>
        assert nread == 1 && chunked;
        var unhexVal := Unhex(ch);
        if unhexVal.None? {
          errno := Some(InvalidChunkSize);
        } else {
          contentLength := unhexVal.value;
          state := ChunkSize;
        }
      case ChunkSize =>
        assert chunked;
        if ch == CR {
          state := ChunkSizeAlmostDone;
        } else {
          var unhexVal := Unhex(ch);
          if unhexVal.None? {
            if ch == SEMICOLON || ch == SPACE {
              state := ChunkParameters;
            } else {
              errno := Some(InvalidChunkSize);
            }
          } else {
            var t := MoreDigits(contentLength, 16, unhexVal.value);
            assert RoomFor(contentLength, 16) <==> contentLength <= (ULLONG_MAX - 16) / 16 by { RoomIs(contentLength); }
            if (ULLONG_MAX - 16) / 16 < contentLength {
              errno := Some(InvalidContentLength);
            } else {
              GuardedDigit(contentLength, 16, unhexVal.value);
              contentLength := t;
            }
          }
        }
      case ChunkParameters =>
        assert chunked;
        if ch == CR { state := ChunkSizeAlmostDone; }
      case ChunkSizeAlmostDone =>
        assert chunked;
        if ch != LF {
          errno := Some(Strict);
        } else {
          nread := 0;
          state := if contentLength == 0 then Trailers else ChunkData;
        }
      case ChunkDataAlmostDone =>
        assert chunked && contentLength == 0;
        if ch != CR {
          errno := Some(Strict);
        } else {
          state := ChunkDataDone;
        }
      case ChunkDataDone =>
        assert chunked;
        if ch != LF {
          errno := Some(Strict);
        } else {
          nread := 0;
          state := ChunkSizeStart;
        }
      case _ =>
    }

    /** In the middle of a call: `p` bytes are taken, and the data from the mark on is not yet delivered. */
    ghost predicate Following(m: Machine, data: Bytes, mark: Option<nat>, p: nat)
      reads this
    {
      && p <= |data| && Valid() && errno.None?
      && (mark.Some? ==> mark.value <= p)
      && (mark.Some? ==> state.ChunkData? || state.ChunkDataAlmostDone? || state.Identity? || state.IdentityEof?)
      && Live(At(state, contentLength, nread, []))
      && At(state, contentLength, nread, delivered + Marked(data, mark, p)) == Run(m, data[..p])
      && Taken(m, data[..p]) == p
    }

    /** The call is over, with everything delivered; after a fault, with nothing delivered that is not of the body. */
    ghost predicate Finished(m: Machine, data: Bytes, n: nat)
      reads this
    {
      && Valid() && Machine([]) == Run(m, data) && n == Taken(m, data)
      && (errno.Some? ==> n <= |data| && Run(m, data[..n]).At? && delivered <= Run(m, data[..n]).body)
    }

    /** Takes data in bulk: up to the end of the chunk or body, or of the call's input. */
    method TakeData(data: Bytes, at: nat, from: Option<nat>, ghost m: Machine)
      returns (p: nat, mark: Option<nat>, over: bool)
      requires at < |data| && (state.ChunkData? || state.Identity?) && Following(m, data, from, at)
      modifies this`state, this`contentLength, this`delivered
      ensures over ==> Finished(m, data, p)
      ensures !over ==> p > at && Following(m, data, mark, p)
      ensures old(delivered) <= delivered
    {
      hide Run, Taken, Step;
      p, mark, over := at, from, false;
      var toRead := if contentLength < |data| - p then contentLength else |data| - p;
      assert contentLength != 0 && contentLength != ULLONG_MAX;
      DataTaken(data, p, mark, m, toRead);
      if mark.None? { mark := Some(p); }
      contentLength := contentLength - toRead;
      p := p + toRead;
      if contentLength == 0 {
        if state.Identity? {
          delivered := delivered + data[mark.value..p];
          state := Complete;
          over := true;
        } else {
          state := ChunkDataAlmostDone;
        }
      }
    }

    /** The machine after a stretch of data. */
    ghost function AfterData(toRead: nat, body: Bytes): Machine
      requires toRead <= contentLength
      reads this
    {
      At(if toRead < contentLength then state else if state.ChunkData? then ChunkDataAlmostDone else Complete,
        contentLength - toRead, nread, body)
    }

    lemma {:induction false} DataTaken(data: Bytes, p: nat, mark: Option<nat>, m: Machine, toRead: nat)
      requires p < |data| && (state.ChunkData? || state.Identity?) && Following(m, data, mark, p)
      requires toRead <= contentLength && p + toRead <= |data|
      ensures var from := if mark.Some? then mark.value else p;
        var r := AfterData(toRead, delivered + data[from..p + toRead]);
        && Run(m, data[..p + toRead]) == r && Taken(m, data[..p + toRead]) == p + toRead
        && (!Live(r) ==> Run(m, data) == r && Taken(m, data) == p + toRead)
    {
      hide Run, Taken, Step;
      RunData(Run(m, data[..p]), data[p..p + toRead]);
      Onward(m, data, p, toRead);
      MarkedMore(delivered, data, mark, p, p + toRead);
    }

    /** Takes all that is left of the call's input. */
    method TakeRest(data: Bytes, at: nat, from: Option<nat>, ghost m: Machine) returns (p: nat, mark: Option<nat>)
      requires at < |data| && state.IdentityEof? && Following(m, data, from, at)
      ensures p > at && Following(m, data, mark, p)
    {
      p, mark := at, from;
      RunEof(Run(m, data[..p]), data[p..|data|]);
      Onward(m, data, p, |data| - p);
      MarkedMore(delivered, data, mark, p, |data|);
      hide Run, Taken;
      if mark.None? { mark := Some(p); }
      p := |data|;
    }

    /** Takes one byte that is not data; the line end after a chunk delivers what is marked. */
    method TakeByte(data: Bytes, at: nat, from: Option<nat>, ghost m: Machine)
      returns (p: nat, mark: Option<nat>, over: bool)
      requires at < |data| && Following(m, data, from, at)
      requires !state.ChunkData? && !state.Identity? && !state.IdentityEof?
      modifies this`state, this`contentLength, this`nread, this`errno, this`delivered
      ensures over ==> Finished(m, data, p)
      ensures !over ==> p > at && Following(m, data, mark, p)
      ensures old(delivered) <= delivered
    {
      hide Run, Taken, Unhex, RoomFor;
      p, mark, over := at, from, false;
      OneStep(m, data, p);
      OneByte(data[p], Marked(data, mark, p));
      if errno.Some? {
        over := true;
      } else {
        if mark.Some? {
          delivered := delivered + data[mark.value..p];
          mark := None;
        }
        p := p + 1;
        over := state.Trailers?;
      }
    }

    /**
     One call of the parser inside a body.  It does what the bytes one at a time would do, and what the
     callback has been given is then all of the body; if the call fails, it is a beginning of it.
     */
    method Execute(data: Bytes) returns (n: nat)
      requires Valid() && (errno.None? ==> Live(Machine([])))
      modifies this`state, this`contentLength, this`nread, this`errno, this`delivered
      ensures Valid()
      ensures old(errno).Some? ==> n == 0 && errno == old(errno)
      ensures old(errno).None? && data == [] && old(state).IdentityEof? ==> n == 0 && Machine([]) == old(Machine([]))
      ensures old(errno).None? && data == [] && !old(state).IdentityEof? ==> n == 1 && errno == Some(InvalidEofState)
      ensures old(errno).None? && data != [] ==> Finished(old(Machine([])), data, n)
      ensures old(delivered) <= delivered
    {
      if errno.Some? { return 0; }
      if data == [] {
        if state.IdentityEof? { return 0; }
        errno := Some(InvalidEofState);
        return 1;
      }
      ghost var m := Machine([]);
      assert data[..0] == [] && Run(m, []) == m && Taken(m, []) == 0;
      hide Run, Taken, Valid;
      n := 0;
      var mark: Option<nat> := None;
      var over := false;
      while n < |data|
        invariant old(delivered) <= delivered
        invariant Following(m, data, mark, n)
        decreases |data| - n
      {
        if state.ChunkData? || state.Identity? {
          n, mark, over := TakeData(data, n, mark, m);
        } else if state.IdentityEof? {
          n, mark := TakeRest(data, n, mark, m);
        } else {
          n, mark, over := TakeByte(data, n, mark, m);
        }
        if over { return; }
      }
      AllDelivered(m, data, mark, n);
      if mark.Some? {
        delivered := delivered + data[mark.value..n];
      }
    }

    /** Any number of calls, however the input is cut: the outcome depends on the whole input only. */
    method Feed(pieces: seq<Bytes>)
      requires Valid() && errno.None? && Live(Machine([])) && forall i :: 0 <= i < |pieces| ==> pieces[i] != []
      modifies this`state, this`contentLength, this`nread, this`errno, this`delivered
      ensures Valid() && Machine([]) == Run(old(Machine([])), Concat(pieces))
    {
      ghost var m := Machine([]);
      var i := 0;
      while i < |pieces| && errno.None? && !state.Trailers? && !state.Complete?
        invariant 0 <= i <= |pieces| && Valid()
        invariant Run(m, Concat(pieces)) == Run(Machine([]), Concat(pieces[i..]))
      {
        assert pieces[i..][0] == pieces[i] && pieces[i..][1..] == pieces[i + 1..];
        RunAppend(Machine([]), pieces[i], Concat(pieces[i + 1..]));
        var taken := Execute(pieces[i]);
        i := i + 1;
      }
      LeftForGood(Machine([]), Concat(pieces[i..]));
    }

    /** A message without a body: complete where its header ends, with nothing delivered. */
    method ReadNothing()
      requires errno.None? && delivered == [] && contentLength <= ULLONG_MAX
      requires
        || skipBody || (upgrade && connect) || (!chunked && contentLength == 0)
        || (!chunked && contentLength == ULLONG_MAX && (upgrade || request || status in BODILESS))
      modifies this`state, this`nread
      ensures Valid() && errno.None? && state.Complete? && delivered == []
    {
      HeadersDone();
    }

    /**
     A response that announces nothing about its body, from the end of its header on: everything up to
     the end of the connection is delivered, however the input is cut.
     */
    method ReadToEnd(pieces: seq<Bytes>)
      requires errno.None? && delivered == [] && !chunked && !skipBody && !upgrade
      requires contentLength == ULLONG_MAX && !request && status !in BODILESS
      requires forall i :: 0 <= i < |pieces| ==> pieces[i] != []
      modifies this`state, this`contentLength, this`nread, this`errno, this`delivered
      ensures Valid() && errno.None? && state.IdentityEof? && delivered == Concat(pieces)
    {
      hide Run, Concat;
      HeadersDone();
      ghost var m, x := Machine([]), Concat(pieces);
      Feed(pieces);
      RunEof(m, x);
      assert delivered + [] == delivered && [] + x == x;
    }

    /**
     A message with a declared length, from the end of its header on: exactly so many bytes are
     delivered, however the input is cut, and fewer only when the input ends before.
     */
    method ReadDeclared(pieces: seq<Bytes>)
      requires errno.None? && delivered == [] && !chunked && !skipBody && !(upgrade && connect)
      requires 0 < contentLength < ULLONG_MAX && forall i :: 0 <= i < |pieces| ==> pieces[i] != []
      modifies this`state, this`contentLength, this`nread, this`errno, this`delivered
      ensures Valid() && errno.None?
      ensures |Concat(pieces)| >= old(contentLength) ==>
        state.Complete? && delivered == Concat(pieces)[..old(contentLength)]
      ensures |Concat(pieces)| < old(contentLength) ==>
        state.Identity? && delivered == Concat(pieces) && contentLength == old(contentLength) - |Concat(pieces)|
    {
      hide Run, Concat;
      HeadersDone();
      ghost var m, x := Machine([]), Concat(pieces);
      Feed(pieces);
      if |x| >= m.length {
        IdentityBody(m, x);
        assert [] + x[..m.length] == x[..m.length];
      } else {
        RunData(m, x);
        assert [] + x == x;
      }
      assert delivered + [] == delivered;
    }

    /**
     A chunked message, from the end of its header on: the last chunk is passed exactly when the input
     begins with a chunked body, and then exactly the data of its chunks is delivered.
     */
    method ReadChunked(pieces: seq<Bytes>)
      requires errno.None? && delivered == [] && chunked && !skipBody && !(upgrade && connect)
      requires contentLength <= ULLONG_MAX && forall i :: 0 <= i < |pieces| ==> pieces[i] != []
      modifies this`state, this`contentLength, this`nread, this`errno, this`delivered
      ensures Valid()
      ensures errno.None? && state.Trailers? <==> exists cs, last :: Opens(Concat(pieces), cs, last)
      ensures forall cs, last :: Opens(Concat(pieces), cs, last) ==> delivered == Bodies(cs)
    {
      hide Run, Concat, ChunkedBody, WireAll, Wire, Bodies;
      HeadersDone();
      ghost var m, x := Machine([]), Concat(pieces);
      Feed(pieces);
      forall cs, last | Opens(x, cs, last)
        ensures Run(m, x) == At(Trailers, 0, 0, Bodies(cs))
      {
        OpensIsTaken(m, x, cs, last);
      }
      if Ends(m, x) {
        ghost var cs, last, rest := ChunkedIsAllThatIsTaken(m, x);
        OpensWith(x, cs, last, rest);
      }
    }

    lemma {:induction false} AllDelivered(m: Machine, data: Bytes, mark: Option<nat>, n: nat)
      requires n == |data| && Following(m, data, mark, n)
      ensures At(state, contentLength, nread, delivered + Marked(data, mark, n)) == Run(m, data) && Taken(m, data) == n
    {
      assert data[..n] == data;
    }
  }

  /** The input begins with this chunked body. */
  ghost predicate Opens(x: Bytes, cs: seq<Chunk>, last: Chunk) {
    ChunkedBody(cs, last) && WireAll(cs) + Wire(last) <= x
  }

  lemma OpensWith(x: Bytes, cs: seq<Chunk>, last: Chunk, rest: Bytes)
    requires ChunkedBody(cs, last) && x == WireAll(cs) + Wire(last) + rest
    ensures Opens(x, cs, last)
  {
  }

  lemma {:induction false} OpensIsTaken(m: Machine, x: Bytes, cs: seq<Chunk>, last: Chunk)
    requires AtStart(m) && m.body == [] && Opens(x, cs, last)
    ensures Run(m, x) == At(Trailers, 0, 0, Bodies(cs))
  {
    hide Run, ChunkedBody, WireAll, Wire, Bodies;
    var body := WireAll(cs) + Wire(last);
    ChunkedIsTaken(m, cs, last);
    assert x == body + x[|body|..] && [] + Bodies(cs) == Bodies(cs);
    RunAppend(m, body, x[|body|..]);
    LeftForGood(Run(m, body), x[|body|..]);
  }

  /** The data that is marked but not yet delivered. */
  function Marked(data: Bytes, mark: Option<nat>, p: nat): Bytes
    requires p <= |data| && (mark.Some? ==> mark.value <= p)
  {
    if mark.Some? then data[mark.value..p] else []
  }

  /** Marked data grows by the stretch that is taken. */
  lemma {:induction false} MarkedMore(delivered: Bytes, data: Bytes, mark: Option<nat>, p: nat, q: nat)
    requires p <= q <= |data| && (mark.Some? ==> mark.value <= p)
    ensures var from := if mark.Some? then mark.value else p;
      delivered + Marked(data, mark, p) + data[p..q] == delivered + data[from..q]
  {
    var from := if mark.Some? then mark.value else p;
    assert Marked(data, mark, p) == data[from..p] && data[from..p] + data[p..q] == data[from..q];
  }
}
