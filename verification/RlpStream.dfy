/**
 The RLP writer: a byte buffer with a stack of lists still open.  Closing a
 list inserts its header in the middle of the buffer, and one append may close
 several lists at once.
 */
module RlpStream {
  import opened Options
  import opened Rlp

  // An open list: how many items are still to come, and where in the buffer its payload starts.
  type OpenList = (nat, nat)

  datatype Stream = Stream(out: Bytes, stack: seq<OpenList>) {
    predicate Valid() {
      forall i :: 0 <= i < |stack| ==> stack[i].0 >= 1 && stack[i].1 <= |out|
    }
  }

  /**
   Accounting for `count` appended items: None where the writer throws because
   an open list takes fewer items or a payload is too long for its header.
   */
  function Note(s: Stream, count: nat): (r: Option<Stream>)
    requires s.Valid()
    ensures r.Some? ==> r.value.Valid()
    decreases |s.stack|
  {
    if count == 0 || s.stack == [] then Some(s)
    else
      var last := |s.stack| - 1;
      var (left, start) := s.stack[last];
      if left < count then None
      else if left > count then Some(s.(stack := s.stack[last := (left - count, start)]))
      else if |BigEndian(|s.out| - start)| > 8 then None
      else Note(Stream(s.out[..start] + EncodeList(s.out[start..]), s.stack[..last]), 1)
  }

  lemma NoteNothing(s: Stream)
    requires s.Valid()
    ensures Note(s, 0) == Some(s)
  {
  }

  function Open(s: Stream, items: nat): (r: Stream)
    requires s.Valid() && items > 0
    ensures r.Valid()
  {
    s.(stack := s.stack + [(items, |s.out|)])
  }

  /** Appending an item tree depth first. */
  function Emit(s: Stream, item: Item): (r: Option<Stream>)
    requires s.Valid()
    ensures r.Some? ==> r.value.Valid()
    decreases item, 1
  {
    match item
    case Data(d) => Note(s.(out := s.out + EncodeData(d)), 1)
    case List(items) =>
      if items == [] then Note(s.(out := s.out + [LIST_START]), 1)
      else EmitAll(Open(s, |items|), items)
  }

  function EmitAll(s: Stream, items: seq<Item>): (r: Option<Stream>)
    requires s.Valid()
    ensures r.Some? ==> r.value.Valid()
    decreases items, 0
  {
    if items == [] then Some(s)
    else
      var r := Emit(s, items[0]);
      if r.None? then None else EmitAll(r.value, items[1..])
  }

  /**
   Emitting an item tree anywhere, inside any lists still open, has the effect
   of appending its recursive encoding and accounting for one item.
   */
  lemma {:induction false} EmitIsEncode(s: Stream, item: Item)
    requires s.Valid() && Fits(item)
    ensures Emit(s, item) == Note(s.(out := s.out + Encode(item)), 1)
    decreases item, 1
  {
    match item
    case Data(d) =>
    case List(items) =>
      if items == [] {
        assert EncodeList([]) == [LIST_START];
      } else {
        assert s.out + [] == s.out && [] + EncodeAll(items) == EncodeAll(items);
        EmitAllIsEncode(Open(s, |items|), items, s, []);
      }
  }

  /** Inside the innermost open list, the remaining `items` complete the payload `done`. */
  lemma {:induction false} EmitAllIsEncode(t: Stream, items: seq<Item>, s: Stream, done: Bytes)
    requires s.Valid() && t.Valid() && items != [] && FitsAll(items)
    requires t == Stream(s.out + done, s.stack + [(|items|, |s.out|)])
    requires |done + EncodeAll(items)| < MAX_LENGTH
    ensures EmitAll(t, items) == Note(s.(out := s.out + EncodeList(done + EncodeAll(items))), 1)
    decreases items, 0
  {
    hide Note, Encode, EncodeList;
    EmitIsEncode(t, items[0]);
    var done' := done + Encode(items[0]);
    var t' := t.(out := t.out + Encode(items[0]));
    assert t'.out == s.out + done';
    assert done + EncodeAll(items) == done' + EncodeAll(items[1..]);
    if |items| == 1 {
      assert done' + [] == done';
      NoteCloses(s, t', done');
      assert EmitAll(t, items) == Note(t', 1);
    } else {
      var next := NoteContinues(s, t', |items|);
      EmitAllIsEncode(next, items[1..], s, done');
    }
  }

  /** The last item of a list closes it. */
  lemma {:induction false} NoteCloses(s: Stream, t: Stream, payload: Bytes)
    requires s.Valid() && t.Valid() && |payload| < MAX_LENGTH
    requires t == Stream(s.out + payload, s.stack + [(1, |s.out|)])
    ensures Note(t, 1) == Note(s.(out := s.out + EncodeList(payload)), 1)
  {
    BigEndianFitsEight(|payload|);
    assert t.out[..|s.out|] == s.out && t.out[|s.out|..] == payload;
    assert t.stack[..|s.stack|] == s.stack;
  }

  /** Any earlier item leaves the list open. */
  lemma {:induction false} NoteContinues(s: Stream, t: Stream, left: nat) returns (next: Stream)
    requires s.Valid() && t.Valid() && left > 1
    requires t.stack == s.stack + [(left, |s.out|)]
    ensures next == t.(stack := s.stack + [(left - 1, |s.out|)]) && next.Valid()
    ensures Note(t, 1) == Some(next)
  {
    hide EncodeList, BigEndian;
    var last := |s.stack|;
    next := t.(stack := s.stack + [(left - 1, |s.out|)]);
    assert t.stack[last] == (left, |s.out|);
    assert t.stack[last := (left - 1, |s.out|)] == next.stack;
    forall i | 0 <= i < |next.stack|
      ensures next.stack[i].0 >= 1 && next.stack[i].1 <= |next.out|
    {
      assert i < last ==> next.stack[i] == t.stack[i];
    }
  }

  /** A whole item tree leaves no list open and exactly its encoding in the buffer. */
  lemma {:induction false} EmitWhole(item: Item)
    requires Fits(item)
    ensures Emit(Stream([], []), item) == Some(Stream(Encode(item), []))
  {
    EmitIsEncode(Stream([], []), item);
    assert [] + Encode(item) == Encode(item);
  }

  /** Writes the big-endian digits of `i` backwards, the last one at index `end`. */
  method WriteBigEndian(buf: Bytes, end: nat, i: nat) returns (r: Bytes)
    requires end < |buf| && |BigEndian(i)| <= end + 1
    ensures r == buf[..end + 1 - |BigEndian(i)|] + BigEndian(i) + buf[end + 1..]
  {
    hide BigEndian;
    r := buf;
    var n, b := i, end + 1;
    ghost var low: Bytes := [];
    while n != 0
      invariant |r| == |buf| && |BigEndian(n)| <= b <= end + 1
      invariant |low| == end + 1 - b
      invariant BigEndian(n) + low == BigEndian(i)
      invariant r == buf[..b] + low + buf[end + 1..]
      decreases n
    {
      LastDigit(n);
      low := [n % 256] + low;
      b := b - 1;
      r := r[b := n % 256];
      n := n / 256;
    }
  }

  lemma LastDigit(n: nat)
    requires n != 0
    ensures BigEndian(n) == BigEndian(n / 256) + [n % 256]
  {
  }

  method BytesRequired(i: nat) returns (r: nat)
    ensures r == |BigEndian(i)|
  {
    r := 0;
    var n := i;
    while n != 0
      invariant r + |BigEndian(n)| == |BigEndian(i)|
      decreases n
    {
      r, n := r + 1, n / 256;
    }
  }

  /** Shifts the payload that starts at `p` up and writes its list header into the gap. */
  method InsertListHeader(buf: Bytes, p: nat) returns (r: Option<Bytes>)
    requires p <= |buf|
    ensures r == if |BigEndian(|buf| - p)| <= 8 then Some(buf[..p] + EncodeList(buf[p..])) else None
  {
    hide BigEndian;
    var s := |buf| - p;
    var brs := BytesRequired(s);
    var encodeSize := if s < IMM_LEN_COUNT then 1 else 1 + brs;
    var moved := MakeRoom(buf, p, encodeSize);
    if s < IMM_LEN_COUNT {
      BigEndianFitsEight(s);
      moved := moved[p := LIST_START + s];
      assert moved == buf[..p] + ([LIST_START + s] + buf[p..]);
      return Some(moved);
    }
    if LIST_IND_ZERO + brs > 0xff {
      return None;
    }
    moved := moved[p := LIST_IND_ZERO + brs];
    assert moved[..p + 1] == buf[..p] + [LIST_IND_ZERO + brs] && moved[p + 1 + brs..] == buf[p..];
    moved := WriteBigEndian(moved, p + brs, s);
    assert moved == buf[..p] + ([LIST_IND_ZERO + brs] + BigEndian(s) + buf[p..]);
    return Some(moved);
  }

  /** The bytes from `p` on move up by `size`. */
  method MakeRoom(buf: Bytes, p: nat, size: nat) returns (r: Bytes)
    requires p <= |buf|
    ensures |r| == |buf| + size && r[..p] == buf[..p] && r[p + size..] == buf[p..]
  {
    var resized := buf + seq(size, _ => 0);
    r := resized[..p + size] + buf[p..];
  }

  class RlpStream {
    var out: Bytes
    var listStack: seq<OpenList>

    ghost function State(): Stream
      reads this
    {
      Stream(out, listStack)
    }

    ghost predicate Valid()
      reads this
    {
      State().Valid()
    }

    constructor ()
      ensures State() == Stream([], [])
    {
      out, listStack := [], [];
    }

    /** Throws (ok is false) exactly where `Note` has no result. */
    method NoteAppended(itemCount: nat) returns (ok: bool)
      requires Valid()
      modifies this
      ensures Valid()
      ensures ok == Note(old(State()), itemCount).Some?
      ensures ok ==> Some(State()) == Note(old(State()), itemCount)
    {
      hide BigEndian;
      if itemCount == 0 { return true; }
      var count := itemCount;
      while listStack != []
        invariant Valid() && count >= 1
        invariant Note(State(), count) == Note(old(State()), itemCount)
        decreases |listStack|
      {
        var last := |listStack| - 1;
        var (left, p) := listStack[last];
        if left < count { return false; }
        listStack := listStack[last := (left - count, p)];
        if left != count {
          return true;
        }
        listStack := listStack[..last];
        var closed := InsertListHeader(out, p);
        if closed.None? { return false; }
        out := closed.value;
        count := 1;
      }
      return true;
    }

    method AppendRaw(raw: Bytes, itemCount: nat) returns (ok: bool)
      requires Valid()
      modifies this
      ensures Valid()
      ensures ok == Note(Stream(old(out) + raw, old(listStack)), itemCount).Some?
      ensures ok ==> Some(State()) == Note(Stream(old(out) + raw, old(listStack)), itemCount)
    {
      out := out + raw;
      ok := NoteAppended(itemCount);
    }

    /** Pushes the big-endian bytes of `i`, of which there are `br`. */
    method PushInt(i: nat, br: nat)
      requires Valid() && br == |BigEndian(i)| && br > 0
      modifies this
      ensures State() == Stream(old(out) + BigEndian(i), old(listStack)) && Valid()
    {
      ghost var before := out;
      out := out + seq(br, _ => 0);
      var end := |out| - 1;
      assert out[..end + 1 - br] == before;
      out := WriteBigEndian(out, end, i);
    }

    method PushCount(count: nat, base: int) returns (ok: bool)
      requires Valid() && count > 0 && (base == DATA_IND_ZERO || base == LIST_IND_ZERO)
      modifies this
      ensures Valid()
      ensures ok == (|BigEndian(count)| + base <= 0xff)
      ensures ok ==> State() == Stream(old(out) + [base + |BigEndian(count)|] + BigEndian(count), old(listStack))
      ensures !ok ==> State() == old(State())
    {
      var br := BytesRequired(count);
      if br + base > 0xff { return false; }
      out := out + [br + base];
      PushInt(count, br);
      return true;
    }

    /** Pushes the header of a data payload. */
    method PushDataHeader(len: nat)
      requires Valid() && len < MAX_LENGTH
      modifies this
      ensures Valid()
      ensures State() == Stream(old(out) + Header(len, DATA_IMM_START, DATA_IND_ZERO), old(listStack))
    {
      if len < IMM_LEN_COUNT {
        out := out + [len + DATA_IMM_START];
      } else {
        ghost var before := out;
        ghost var digits := HeaderDigits(len, DATA_IMM_START, DATA_IND_ZERO);
        hide BigEndian, Header;
        var ok := PushCount(len, DATA_IND_ZERO);
        assert out == before + ([DATA_IND_ZERO + |digits|] + digits);
      }
    }

    /** Appends a byte string as one data item. */
    method Append(d: Bytes) returns (ok: bool)
      requires Valid() && |d| < MAX_LENGTH
      modifies this
      ensures Valid()
      ensures ok == Emit(old(State()), Data(d)).Some?
      ensures ok ==> Some(State()) == Emit(old(State()), Data(d))
    {
      hide Header, Note;
      ghost var before := out;
      if |d| == 1 && d[0] < DATA_IMM_START {
        out := out + [d[0]];
        assert d == [d[0]];
      } else {
        PushDataHeader(|d|);
        NoteNothing(Stream(out + d, listStack));
        var raw := AppendRaw(d, 0);
      }
      assert out == before + EncodeData(d);
      ok := NoteAppended(1);
    }

    /** Appends a non-negative integer as its shortest big-endian data item. */
    method AppendInt(i: nat) returns (ok: bool)
      requires Valid() && |BigEndian(i)| < MAX_LENGTH
      modifies this
      ensures Valid()
      ensures ok == Emit(old(State()), Data(BigEndian(i))).Some?
      ensures ok ==> Some(State()) == Emit(old(State()), Data(BigEndian(i)))
    {
      hide BigEndian, Note;
      ghost var before := out;
      EncodeIntIsData(i);
      if i == 0 {
        out := out + [DATA_IMM_START];
      } else if i < DATA_IMM_START {
        out := out + [i];
      } else {
        var br := BytesRequired(i);
        if br < IMM_LEN_COUNT {
          out := out + [br + DATA_IMM_START];
        } else {
          BigEndianFitsEight(br);
          var brbr := BytesRequired(br);
          out := out + [DATA_IND_ZERO + brbr];
          PushInt(br, brbr);
        }
        PushInt(i, br);
      }
      assert out == before + EncodeInt(i);
      ok := NoteAppended(1);
    }

    /** Opens a list of `items` items, or appends the empty list. */
    method AppendList(items: nat) returns (ok: bool)
      requires Valid()
      modifies this
      ensures Valid()
      ensures items > 0 ==> ok && State() == Open(old(State()), items)
      ensures items == 0 ==> ok == Emit(old(State()), List([])).Some?
      ensures items == 0 && ok ==> Some(State()) == Emit(old(State()), List([]))
    {
      if items > 0 {
        listStack := listStack + [(items, |out|)];
        return true;
      }
      ghost var before := out;
      out := out + [LIST_START];
      assert before + [LIST_START] + [] == before + [LIST_START];
      ok := AppendRaw([], 1);
    }

    /** Appends a whole item tree: the buffer gains its recursive encoding, as one item. */
    method Write(item: Item) returns (ok: bool)
      requires Valid() && Fits(item)
      modifies this
      ensures Valid()
      ensures ok == Note(Stream(old(out) + Encode(item), old(listStack)), 1).Some?
      ensures ok ==> Some(State()) == Note(Stream(old(out) + Encode(item), old(listStack)), 1)
      decreases item, 1
    {
      EmitIsEncode(State(), item);
      hide Note, Encode;
      match item
      case Data(d) => ok := Append(d);
      case List(items) =>
        ok := AppendList(|items|);
        if items != [] {
          ok := WriteAll(items);
        }
    }

    method WriteAll(items: seq<Item>) returns (ok: bool)
      requires Valid() && FitsAll(items)
      modifies this
      ensures Valid()
      ensures ok == EmitAll(old(State()), items).Some?
      ensures ok ==> Some(State()) == EmitAll(old(State()), items)
      decreases items, 0
    {
      hide Note, Encode, Emit;
      ok := true;
      var i := 0;
      while i < |items| && ok
        invariant 0 <= i <= |items| && Valid() && FitsAll(items[i..])
        invariant ok ==> EmitAll(State(), items[i..]) == EmitAll(old(State()), items)
        invariant !ok ==> EmitAll(old(State()), items).None?
      {
        EmitIsEncode(State(), items[i]);
        assert items[i..][1..] == items[i + 1..];
        ok := Write(items[i]);
        i := i + 1;
      }
    }
  }
}
