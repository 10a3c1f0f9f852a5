/**
 The channel protocol: length-prefixed messages, and the session that puts them together again
 from whatever pieces the socket delivers.
 */
module Channel {
  import opened Rlp
  import opened Pieces

  const HEADER_LENGTH := 4 + 2 + 32 + 4
  const MAX_LENGTH := 10 * 1024 * 1024

  // ---- messages ----

  type Word16 = n: int | 0 <= n < 0x1_0000
  type Int32 = n: int | -0x8000_0000 <= n < 0x8000_0000

  datatype Message = Message(kind: Word16, sequence: Bytes, result: Int32, data: Bytes)

  function ToUnsigned(n: Int32): (r: nat)
    ensures r < 0x1_0000_0000 && (r - n) % 0x1_0000_0000 == 0
  {
    if n < 0 then n + 0x1_0000_0000 else n
  }

  function ToSigned(n: nat): Int32
    requires n < 0x1_0000_0000
  {
    if n < 0x8000_0000 then n else n - 0x1_0000_0000
  }

  /** A message on the wire; its length is a 32-bit number. */
  function Wire(m: Message): Bytes {
    Fixed((HEADER_LENGTH + |m.data|) % 0x1_0000_0000, 4) + Fixed(m.kind, 2) + m.sequence + Fixed(ToUnsigned(m.result), 4) + m.data
  }

  method Encode(m: Message, buffer: Bytes) returns (r: Bytes)
    ensures r == buffer + Wire(m)
  {
    r := buffer + Fixed((HEADER_LENGTH + |m.data|) % 0x1_0000_0000, 4);
    r := r + Fixed(m.kind, 2);
    r := r + m.sequence;
    r := r + Fixed(ToUnsigned(m.result), 4);
    r := r + m.data;
    assert r == buffer + Wire(m);
  }

  /** Outcome of decoding: a message and its length, not enough bytes yet, too long, or too short to hold a header. */
  datatype Decoded = Got(message: Message, length: nat) | Incomplete | TooLong | TooShort

  function LengthOf(b: Bytes): (n: nat)
    requires |b| >= 4
  {
    FromBigEndian(b[..4])
  }

  function Decode(b: Bytes): (d: Decoded)
    ensures d.Got? ==> HEADER_LENGTH <= d.length <= |b|
  {
    if |b| < HEADER_LENGTH then Incomplete
    else if LengthOf(b) > MAX_LENGTH then TooLong
    else if |b| < LengthOf(b) then Incomplete
    else if LengthOf(b) < HEADER_LENGTH then TooShort
    else
      PowersOf256();
      FixedBound(b[38..42]);
      FixedBound(b[4..6]);
      Got(Message(FromBigEndian(b[4..6]), b[6..38], ToSigned(FromBigEndian(b[38..42])), b[42..LengthOf(b)]), LengthOf(b))
  }

  /** Messages that the protocol carries. */
  predicate Carried(m: Message) {
    |m.sequence| == 32 && 42 + |m.data| <= 10485760
  }

  /** Where the parts of a message lie. */
  lemma {:induction false} WireParts(m: Message, rest: Bytes)
    requires Carried(m)
    ensures var b, n := Wire(m) + rest, HEADER_LENGTH + |m.data|;
      && |Wire(m)| == n <= |b| && b[..4] == Fixed(n, 4) && b[4..6] == Fixed(m.kind, 2) && b[6..38] == m.sequence
      && b[38..42] == Fixed(ToUnsigned(m.result), 4) && b[42..n] == m.data
  {
    hide Fixed;
  }

  /** A message at the front is decoded whatever follows it. */
  lemma {:induction false} DecodeWire(m: Message, rest: Bytes)
    requires Carried(m)
    ensures Decode(Wire(m) + rest) == Got(m, |Wire(m)|) && |Wire(m)| == HEADER_LENGTH + |m.data|
  {
    WireParts(m, rest);
    PowersOf256();
    FixedInverts(HEADER_LENGTH + |m.data|, 4);
    FixedInverts(m.kind, 2);
    FixedInverts(ToUnsigned(m.result), 4);
    hide Wire, Fixed, FromBigEndian, Pow256;
  }

  /** A proper beginning of a message is not decoded yet. */
  lemma {:induction false} DecodeBeginning(m: Message, b: Bytes)
    requires Carried(m) && b <= Wire(m) && |b| < |Wire(m)|
    ensures Decode(b) == Incomplete
  {
    if |b| >= HEADER_LENGTH {
      var n := HEADER_LENGTH + |m.data|;
      PowersOf256();
      FixedInverts(n, 4);
      assert b[..4] == Wire(m)[..4] == Fixed(n, 4);
    }
  }

  /** What the length in front decides: fewer bytes than a header or than the length are incomplete. */
  lemma {:induction false} DecodeIs(b: Bytes)
    ensures |b| < 42 ==> Decode(b) == Incomplete
    ensures |b| >= 42 ==> var n := FromBigEndian(b[..4]);
      && (Decode(b) == TooLong <==> n > 10485760)
      && (Decode(b) == Incomplete <==> |b| < n <= 10485760)
      && (Decode(b) == TooShort <==> n < 42)
      && (Decode(b).Got? <==> 42 <= n <= 10485760 && n <= |b|)
      && (Decode(b).Got? ==> Decode(b).length == n)
  {
    hide FromBigEndian;
  }

  /** A length above ten MiB ends the session as soon as a header is there; nothing is delivered. */
  lemma {:induction false} TooLongEnds(b: Bytes)
    requires |b| >= 42 && FromBigEndian(b[..4]) > 10485760
    ensures Decode(b) == TooLong && Drain(b) == Drained([], b, TooLong)
  {
    hide FromBigEndian;
  }

  /** More bytes do not change a decision. */
  lemma {:induction false} DecodeGrows(a: Bytes, b: Bytes)
    requires Decode(a) != Incomplete
    ensures Decode(a + b) == Decode(a)
  {
    var c := a + b;
    assert c[..4] == a[..4];
    if Decode(a).Got? {
      var n := LengthOf(a);
      assert c[4..6] == a[4..6] && c[6..38] == a[6..38] && c[38..42] == a[38..42] && c[42..n] == a[42..n];
    }
  }

  // ---- reassembly ----

  /** The messages in a buffer, what is left of it, and whether the session can go on. */
  datatype Drained = Drained(messages: seq<Message>, rest: Bytes, last: Decoded)

  function Drain(b: Bytes): (d: Drained)
    ensures !d.last.Got?
    decreases |b|
  {
    var d := Decode(b);
    if d.Got? then
      var more := Drain(b[d.length..]);
      Drained([d.message] + more.messages, more.rest, more.last)
    else Drained([], b, d)
  }

  /** Draining early and draining late come to the same. */
  lemma {:induction false} DrainCut(a: Bytes, b: Bytes)
    requires Drain(a).last == Incomplete
    ensures var d, e := Drain(a), Drain(Drain(a).rest + b);
      Drain(a + b) == Drained(d.messages + e.messages, e.rest, e.last)
    decreases |a|
  {
    hide Decode;
    var d := Decode(a);
    if d.Got? {
      DecodeGrows(a, b);
      assert (a + b)[d.length..] == a[d.length..] + b;
      DrainCut(a[d.length..], b);
      assert [d.message] + Drain(a[d.length..]).messages == Drain(a).messages;
    } else {
      assert [] + Drain(a + b).messages == Drain(a + b).messages;
    }
  }

  function WireAll(ms: seq<Message>): Bytes {
    if ms == [] then [] else Wire(ms[0]) + WireAll(ms[1..])
  }

  /** The first `k` messages are complete in a buffer, and what is left begins the next one. */
  ghost predicate Holds(ms: seq<Message>, k: nat, b: Bytes, rest: Bytes) {
    && k <= |ms| && b == WireAll(ms[..k]) + rest
    && if k == |ms| then rest == [] else rest <= Wire(ms[k]) && |rest| < |Wire(ms[k])|
  }

  /** From the beginning of a stream exactly the complete messages are taken, and the incomplete one is kept. */
  lemma {:induction false} DrainStream(ms: seq<Message>, b: Bytes) returns (k: nat)
    requires (forall i :: 0 <= i < |ms| ==> Carried(ms[i])) && b <= WireAll(ms)
    ensures Holds(ms, k, b, Drain(b).rest) && Drain(b) == Drained(ms[..k], Drain(b).rest, Incomplete)
    decreases |ms|
  {
    if ms == [] {
      return 0;
    }
    var w := Wire(ms[0]);
    assert WireAll(ms) == w + WireAll(ms[1..]);
    if |b| < |w| {
      assert b == WireAll(ms)[..|b|] == w[..|b|];
      DecodeBeginning(ms[0], b);
      assert ms[..0] == [] && b == [] + b;
      return 0;
    }
    hide Decode, Wire;
    var rest := b[|w|..];
    Peeled(w, WireAll(ms[1..]), b);
    DecodeWire(ms[0], rest);
    var j := DrainStream(ms[1..], rest);
    k := j + 1;
    HoldsMore(ms, j, rest, Drain(rest).rest);
  }

  lemma {:induction false} Peeled(w: Bytes, more: Bytes, b: Bytes)
    requires b <= w + more && |b| >= |w|
    ensures b == w + b[|w|..] && b[|w|..] <= more
  {
    assert b == (w + more)[..|b|];
  }

  lemma {:induction false} HoldsMore(ms: seq<Message>, j: nat, b: Bytes, rest: Bytes)
    requires ms != [] && Holds(ms[1..], j, b, rest)
    ensures Holds(ms, j + 1, Wire(ms[0]) + b, rest) && ms[..j + 1] == [ms[0]] + ms[1..][..j]
  {
    hide Wire;
    assert ms[..j + 1] == [ms[0]] + ms[1..][..j] && ms[..j + 1][1..] == ms[1..][..j];
    assert Wire(ms[0]) + (WireAll(ms[1..][..j]) + rest) == Wire(ms[0]) + WireAll(ms[1..][..j]) + rest;
  }

  class ChannelSession {
    var active: bool
    // A read has been started, so that more of the stream will arrive.
    var reading: bool
    var buffer: Bytes
    // What the message handler has been given.
    var delivered: seq<Message>

    constructor ()
      ensures active && reading && buffer == [] && delivered == []
    {
      active, reading, buffer, delivered := true, true, [], [];
    }

    /**
     A read: the messages that are now complete are handed on, and the incomplete one stays in the buffer.
     A length that is too long ends the session; one too short for a header stalls it, active but never
     reading again.
     */
    method OnRead(piece: Bytes)
      modifies this
      ensures !old(active) ==> !active && !reading && buffer == old(buffer) && delivered == old(delivered)
      ensures old(active) ==> var d := Drain(old(buffer) + piece);
        && delivered == old(delivered) + d.messages && buffer == d.rest
        && (active <==> d.last != TooLong) && (reading <==> d.last == Incomplete)
    {
      reading := false;
      if !active { return; }
      buffer := buffer + piece;
      ghost var all := Drain(buffer);
      while true
        invariant active && !reading
        invariant delivered + Drain(buffer).messages == old(delivered) + all.messages
        invariant Drain(buffer).rest == all.rest && Drain(buffer).last == all.last
        decreases |buffer|
      {
        var d := Decode(buffer);
        if d.Got? {
          ghost var more := Drain(buffer[d.length..]);
          assert delivered + ([d.message] + more.messages) == delivered + [d.message] + more.messages;
          delivered := delivered + [d.message];
          buffer := buffer[d.length..];
        } else {
          assert Drain(buffer).messages == [] && delivered + [] == delivered;
          match d {
            case Incomplete => reading := true;
            case TooLong => active := false;
            case TooShort =>
          }
          return;
        }
      }
    }

    /**
     Any stream of messages, cut into reads in any way and broken off anywhere: the messages that
     have arrived whole are delivered in order, and the beginning of the next one is kept.
     */
    method OnReads(pieces: seq<Bytes>, ghost ms: seq<Message>) returns (ghost k: nat)
      requires active && reading && buffer == [] && delivered == []
      requires (forall i :: 0 <= i < |ms| ==> Carried(ms[i])) && Concat(pieces) <= WireAll(ms)
      modifies this
      ensures active && reading && Holds(ms, k, Concat(pieces), buffer) && delivered == ms[..k]
      ensures Concat(pieces) == WireAll(ms) ==> buffer == [] && delivered == ms
    {
      var i := 0;
      ghost var seen: Bytes := [];
      assert Drain([]) == Drained([], [], Incomplete);
      hide Drain, Carried;
      while i < |pieces|
        invariant 0 <= i <= |pieces| && seen + Concat(pieces[i..]) == Concat(pieces)
        invariant active && reading && Drain(seen) == Drained(delivered, buffer, Incomplete)
      {
        NextPiece(pieces, i, seen);
        assert seen + pieces[i] <= WireAll(ms);
        ghost var j := DrainStream(ms, seen + pieces[i]);
        DrainCut(seen, pieces[i]);
        OnRead(pieces[i]);
        seen := seen + pieces[i];
        i := i + 1;
      }
      assert seen == Concat(pieces);
      k := DrainStream(ms, seen);
      if seen == WireAll(ms) { Complete(ms, k, buffer); }
    }
  }

  lemma {:induction false} NextPiece(pieces: seq<Bytes>, i: nat, seen: Bytes)
    requires i < |pieces|
    ensures seen + Concat(pieces[i..]) == seen + pieces[i] + Concat(pieces[i + 1..])
  {
    assert pieces[i..][0] == pieces[i] && pieces[i..][1..] == pieces[i + 1..];
  }

  /** Nothing is left over when the stream is complete. */
  lemma {:induction false} Complete(ms: seq<Message>, k: nat, rest: Bytes)
    requires Holds(ms, k, WireAll(ms), rest)
    ensures k == |ms| && ms[..k] == ms && rest == []
  {
    hide WireAll, Wire;
    WireSplit(ms, k);
    FirstFits(ms, k);
    assert |rest| == |WireAll(ms[k..])|;
  }

  lemma FirstFits(ms: seq<Message>, k: nat)
    requires k <= |ms|
    ensures k < |ms| ==> |WireAll(ms[k..])| >= |Wire(ms[k])|
  {
  }

  lemma {:induction false} WireSplit(ms: seq<Message>, k: nat)
    requires k <= |ms|
    ensures WireAll(ms) == WireAll(ms[..k]) + WireAll(ms[k..])
  {
    if k == 0 {
      assert ms[..0] == [] && ms[0..] == ms && [] + WireAll(ms) == WireAll(ms);
    } else {
      assert ms[..k][1..] == ms[1..][..k - 1] && ms[k..] == ms[1..][k - 1..];
      WireSplit(ms[1..], k - 1);
    }
  }
}
