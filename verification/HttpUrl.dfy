/**
 The URL parser: a byte-driven machine that splits a URL into runs of its text, and a second one
 that splits the authority into user information, host and port.
 */
module HttpUrl {
  import opened Rlp
  import opened Options
  import opened UrlGrammar
  import Http = HttpBody

  // ---- character classes, as in the strict build ----

  predicate IsAlpha(c: Byte) { 65 <= c <= 90 || 97 <= c <= 122 }
  predicate IsHex(c: Byte) { Http.IsDigit(c) || 65 <= c <= 70 || 97 <= c <= 102 }
  predicate IsMark(c: Byte) { c in [45, 95, 46, 33, 126, 42, 39, 40, 41] }
  predicate IsUserinfoChar(c: Byte) { IsAlpha(c) || Http.IsDigit(c) || IsMark(c) || c in [37, 59, 58, 38, 61, 43, 36, 44] }
  predicate IsUrlChar(c: Byte) { 33 <= c <= 126 && c != HASH && c != QUESTION }
  predicate IsHostChar(c: Byte) { IsAlpha(c) || Http.IsDigit(c) || c == 46 || c == 45 }

  const HASH: Byte := 35
  const PERCENT: Byte := 37
  const STAR: Byte := 42
  const SLASH: Byte := 47
  const COLON: Byte := 58
  const QUESTION: Byte := 63
  const AT: Byte := 64
  const OPEN_BRACKET: Byte := 91
  const CLOSE_BRACKET: Byte := 93

  // ---- the URL machine ----

  datatype State =
    | Dead | SpacesBeforeUrl | Schema | SchemaSlash | SchemaSlashSlash
    | ServerStart | Server | ServerWithAt | Path | QueryStart | Query | FragmentStart | Fragment

  function UrlChar(s: State, ch: Byte): State {
    if ch in [32, 13, 10, 9, 12] then Dead
    else
      match s
      case SpacesBeforeUrl =>
        if ch == SLASH || ch == STAR then Path else if IsAlpha(ch) then Schema else Dead
      case Schema => if IsAlpha(ch) then Schema else if ch == COLON then SchemaSlash else Dead
      case SchemaSlash => if ch == SLASH then SchemaSlashSlash else Dead
      case SchemaSlashSlash => if ch == SLASH then ServerStart else Dead
      case ServerWithAt => if ch == AT then Dead else ServerChar(ch)
      case ServerStart => ServerChar(ch)
      case Server => ServerChar(ch)
      case Path => if IsUrlChar(ch) then Path else if ch == QUESTION then QueryStart else if ch == HASH then FragmentStart else Dead
      case QueryStart => if IsUrlChar(ch) || ch == QUESTION then Query else if ch == HASH then FragmentStart else Dead
      case Query => if IsUrlChar(ch) || ch == QUESTION then Query else if ch == HASH then FragmentStart else Dead
      case FragmentStart => if IsUrlChar(ch) || ch == QUESTION then Fragment else if ch == HASH then FragmentStart else Dead
      case Fragment => if IsUrlChar(ch) || ch == QUESTION || ch == HASH then Fragment else Dead
      case Dead => Dead
  }

  function ServerChar(ch: Byte): State {
    if ch == SLASH then Path
    else if ch == QUESTION then QueryStart
    else if ch == AT then ServerWithAt
    else if IsUserinfoChar(ch) || ch == OPEN_BRACKET || ch == CLOSE_BRACKET then Server
    else Dead
  }

  function Start(connect: bool): State { if connect then ServerStart else SpacesBeforeUrl }

  /** The state after some text. */
  function Trace(s: State, text: Bytes): State {
    if text == [] then s else UrlChar(Trace(s, text[..|text| - 1]), text[|text| - 1])
  }

  /** The field that a byte belongs to which leads to a state; delimiters belong to none. */
  function FieldOf(s: State): Option<Field> {
    match s
    case Schema => Some(SchemaField)
    case Server => Some(HostField)
    case ServerWithAt => Some(HostField)
    case Path => Some(PathField)
    case Query => Some(QueryField)
    case Fragment => Some(FragmentField)
    case _ => None
  }

  /** The machine never goes back. */
  function Rank(s: State): nat {
    match s
    case SpacesBeforeUrl => 0
    case Schema => 1
    case SchemaSlash => 2
    case SchemaSlashSlash => 3
    case ServerStart => 4
    case Server => 5
    case ServerWithAt => 5
    case Path => 6
    case QueryStart => 7
    case Query => 8
    case FragmentStart => 9
    case Fragment => 10
    case Dead => 11
  }

  lemma RankGrows(s: State, ch: Byte)
    ensures Rank(UrlChar(s, ch)) >= Rank(s)
  {
  }

  lemma RankDecides(s: State, t: State)
    requires Rank(s) == Rank(t)
    ensures FieldOf(s) == FieldOf(t)
  {
  }

  function FieldRank(f: Field): nat {
    match f
    case SchemaField => 1
    case PathField => 6
    case QueryField => 8
    case FragmentField => 10
    case _ => 5
  }

  // ---- runs ----

  /** The byte at a position belongs to a field. */
  predicate Belongs(connect: bool, buf: Bytes, f: Field, p: int) {
    0 <= p < |buf| && FieldOf(Trace(Start(connect), buf[..p + 1])) == Some(f)
  }

  /** The runs of the fields are the bytes that belong to them, and none is empty. */
  ghost predicate Split(connect: bool, buf: Bytes, fields: Fields) {
    && (forall f, p :: Marks(fields, f, p) <==> Belongs(connect, buf, f, p))
    && (forall f :: f in fields ==> fields[f].len > 0)
  }

  lemma {:induction false} TraceMore(s: State, buf: Bytes, i: nat)
    requires i < |buf|
    ensures Trace(s, buf[..i + 1]) == UrlChar(Trace(s, buf[..i]), buf[i])
  {
    assert buf[..i + 1][..i] == buf[..i];
  }

  lemma {:induction false} BelongsPrefix(connect: bool, buf: Bytes, i: nat, f: Field, p: int)
    requires i <= |buf|
    ensures Belongs(connect, buf[..i], f, p) <==> Belongs(connect, buf, f, p) && p < i
  {
    if 0 <= p < i { assert buf[..i][..p + 1] == buf[..p + 1]; }
  }

  /** What the scan knows after the first bytes. */
  ghost predicate Scanned(connect: bool, seen: Bytes, s: State, last: Option<Field>, fields: Fields) {
    && s == Trace(Start(connect), seen) != Dead && Split(connect, seen, fields)
    && (last.Some? ==> last.value in fields)
    && (forall g :: g in fields ==> FieldRank(g) <= Rank(s))
    && (FieldOf(s).None? ==> forall g :: g in fields ==> FieldRank(g) < Rank(s))
    && (FieldOf(s).Some? ==> last == FieldOf(s) && last.value in fields && fields[last.value].off + fields[last.value].len == |seen|)
  }

  /** What one byte does to the fields. */
  function Noted(s: State, last: Option<Field>, fields: Fields, i: nat): Fields
    requires FieldOf(s).Some? ==> last != FieldOf(s) || FieldOf(s).value in fields
  {
    if FieldOf(s).None? then fields
    else
      var uf := FieldOf(s).value;
      if last == Some(uf) then fields[uf := Run(fields[uf].off, fields[uf].len + 1)] else fields[uf := Run(i, 1)]
  }

  lemma FieldRankIs(s: State)
    ensures FieldOf(s).Some? ==> FieldRank(FieldOf(s).value) == Rank(s)
  {
  }

  /** The field in use goes on, or a new one begins. */
  lemma {:induction false} OldOrNew(connect: bool, seen: Bytes, ch: Byte, s: State, last: Option<Field>, fields: Fields)
    requires Scanned(connect, seen, s, last, fields) && UrlChar(s, ch) != Dead
    ensures var t := UrlChar(s, ch);
      if FieldOf(t).None? then forall g :: g in fields ==> FieldRank(g) < Rank(t)
      else
        var uf := FieldOf(t).value;
        && (forall g :: g in fields ==> FieldRank(g) <= Rank(t)) && FieldRank(uf) == Rank(t)
        && if last == Some(uf) then uf in fields && fields[uf].off + fields[uf].len == |seen| else uf !in fields
  {
    var t := UrlChar(s, ch);
    RankGrows(s, ch);
    FieldRankIs(t);
    if Rank(s) == Rank(t) { RankDecides(s, t); }
    hide UrlChar, Trace, FieldOf, Rank, FieldRank, Split;
  }

  lemma {:induction false} SplitStep(connect: bool, seen: Bytes, ch: Byte, t: State, last: Option<Field>, fields: Fields)
    requires Split(connect, seen, fields) && t == Trace(Start(connect), seen + [ch])
    requires FieldOf(t).Some? ==> var uf := FieldOf(t).value;
      if last == Some(uf) then uf in fields && fields[uf].off + fields[uf].len == |seen| else uf !in fields
    ensures Split(connect, seen + [ch], Noted(t, last, fields, |seen|))
  {
    hide Trace, FieldOf;
    var more := Noted(t, last, fields, |seen|);
    var now := seen + [ch];
    assert now[..|seen|] == seen && now[..|seen| + 1] == now;
    forall f, p
      ensures Marks(more, f, p) <==> Belongs(connect, now, f, p)
    {
      BelongsPrefix(connect, now, |seen|, f, p);
    }
  }

  lemma {:induction false} ScanStep(connect: bool, seen: Bytes, ch: Byte, s: State, last: Option<Field>, fields: Fields)
    requires Scanned(connect, seen, s, last, fields) && UrlChar(s, ch) != Dead
    ensures var t := UrlChar(s, ch);
      && (FieldOf(t).Some? ==> last != FieldOf(t) || FieldOf(t).value in fields)
      && Scanned(connect, seen + [ch], t, if FieldOf(t).Some? then FieldOf(t) else last, Noted(t, last, fields, |seen|))
  {
    hide UrlChar, Trace, FieldOf, Rank, FieldRank, Split;
    var t := UrlChar(s, ch);
    OldOrNew(connect, seen, ch, s, last, fields);
    TraceMore(Start(connect), seen + [ch], |seen|);
    assert (seen + [ch])[..|seen|] == seen && (seen + [ch])[..|seen| + 1] == seen + [ch];
    SplitStep(connect, seen, ch, t, last, fields);
  }

  // ---- the authority ----

  datatype HostState =
    | HostDead | UserinfoStart | Userinfo | HostStart | V6Start | Host | V6 | V6End | ZoneStart | Zone | PortStart | Port

  function HostChar(s: HostState, ch: Byte): HostState {
    match s
    case Userinfo => UserinfoNext(ch)
    case UserinfoStart => UserinfoNext(ch)
    case HostStart => if ch == OPEN_BRACKET then V6Start else if IsHostChar(ch) then Host else HostDead
    case Host => if IsHostChar(ch) then Host else if ch == COLON then PortStart else HostDead
    case V6End => if ch == COLON then PortStart else HostDead
    case V6 => if ch == CLOSE_BRACKET then V6End else if IsV6Char(ch) then V6 else if ch == PERCENT then ZoneStart else HostDead
    case V6Start => if IsV6Char(ch) then V6 else HostDead
    case Zone => if ch == CLOSE_BRACKET then V6End else if IsZoneChar(ch) then Zone else HostDead
    case ZoneStart => if IsZoneChar(ch) then Zone else HostDead
    case PortStart => if Http.IsDigit(ch) then Port else HostDead
    case Port => if Http.IsDigit(ch) then Port else HostDead
    case HostDead => HostDead
  }

  function UserinfoNext(ch: Byte): HostState {
    if ch == AT then HostStart else if IsUserinfoChar(ch) then Userinfo else HostDead
  }

  predicate IsV6Char(c: Byte) { IsHex(c) || c == COLON || c == 46 }
  predicate IsZoneChar(c: Byte) { IsAlpha(c) || Http.IsDigit(c) || c in [37, 46, 45, 95, 126] }

  function HostTrace(s: HostState, text: Bytes): HostState {
    if text == [] then s else HostChar(HostTrace(s, text[..|text| - 1]), text[|text| - 1])
  }

  /** The states in which an authority may end. */
  predicate EndsWell(s: HostState) { s.Host? || s.V6End? || s.Port? }

  function HostFieldOf(s: HostState): Option<Field> {
    match s
    case Userinfo => Some(UserinfoField)
    case Host => Some(HostField)
    case V6 => Some(HostField)
    case ZoneStart => Some(HostField)
    case Zone => Some(HostField)
    case Port => Some(PortField)
    case _ => None
  }

  function HostRank(s: HostState): nat {
    match s
    case UserinfoStart => 0
    case Userinfo => 1
    case HostStart => 2
    case V6Start => 3
    case Host => 4
    case V6 => 4
    case ZoneStart => 4
    case Zone => 4
    case V6End => 5
    case PortStart => 6
    case Port => 7
    case HostDead => 8
  }

  predicate OfAuthority(f: Field) { f.UserinfoField? || f.HostField? || f.PortField? }

  function PartRank(f: Field): nat { if f.UserinfoField? then 1 else if f.HostField? then 4 else 7 }

  lemma HostRankGrows(s: HostState, ch: Byte)
    ensures HostRank(HostChar(s, ch)) >= HostRank(s)
  {
  }

  lemma HostRankDecides(s: HostState, t: HostState)
    requires HostRank(s) == HostRank(t)
    ensures HostFieldOf(s) == HostFieldOf(t)
  {
  }

  lemma PartRankIs(s: HostState)
    ensures HostFieldOf(s).Some? ==> OfAuthority(HostFieldOf(s).value) && PartRank(HostFieldOf(s).value) == HostRank(s)
  {
  }

  /** The byte at a position belongs to a part of the authority that starts at `a`. */
  predicate PartBelongs(s: HostState, a: nat, text: Bytes, f: Field, p: int) {
    a <= p < a + |text| && HostFieldOf(HostTrace(s, text[..p - a + 1])) == Some(f)
  }

  /** The runs of the parts are the bytes that belong to them; the other fields stay as they were. */
  ghost predicate HostSplit(s: HostState, a: nat, text: Bytes, outer: Fields, fields: Fields) {
    && (forall f, p :: OfAuthority(f) ==> (Marks(fields, f, p) <==> PartBelongs(s, a, text, f, p)))
    && (forall f :: !OfAuthority(f) ==> (f in fields <==> f in outer))
    && (forall f :: !OfAuthority(f) && f in fields ==> fields[f] == outer[f])
    && (forall f :: f in fields && !f.HostField? ==> fields[f].len > 0)
  }

  ghost predicate HostScanned(start: HostState, a: nat, seen: Bytes, s: HostState, outer: Fields, fields: Fields) {
    && s == HostTrace(start, seen) != HostDead && HostSplit(start, a, seen, outer, fields) && HostField in fields
    && (forall g :: g in fields && OfAuthority(g) && fields[g].len > 0 ==> PartRank(g) <= HostRank(s))
    && (HostFieldOf(s).None? ==> forall g :: g in fields && OfAuthority(g) && fields[g].len > 0 ==> PartRank(g) < HostRank(s))
    && (HostFieldOf(s).Some? ==> var f := HostFieldOf(s).value;
      f in fields && fields[f].len > 0 && fields[f].off + fields[f].len == a + |seen|)
  }

  function HostNoted(s: HostState, t: HostState, fields: Fields, p: nat): Fields
    requires HostFieldOf(t).Some? && HostFieldOf(s) == HostFieldOf(t) ==> HostFieldOf(t).value in fields
  {
    if HostFieldOf(t).None? then fields
    else
      var f := HostFieldOf(t).value;
      if HostFieldOf(s) == Some(f) then fields[f := Run(fields[f].off, fields[f].len + 1)] else fields[f := Run(p, 1)]
  }

  /** The part in use goes on, or a new one begins. */
  lemma {:induction false} PartOldOrNew(start: HostState, a: nat, seen: Bytes, ch: Byte, s: HostState, outer: Fields, fields: Fields)
    requires HostScanned(start, a, seen, s, outer, fields) && HostChar(s, ch) != HostDead
    ensures var t := HostChar(s, ch);
      if HostFieldOf(t).None? then forall g :: g in fields && OfAuthority(g) && fields[g].len > 0 ==> PartRank(g) < HostRank(t)
      else
        var f := HostFieldOf(t).value;
        && OfAuthority(f) && PartRank(f) == HostRank(t)
        && (forall g :: g in fields && OfAuthority(g) && fields[g].len > 0 ==> PartRank(g) <= HostRank(t))
        && if HostFieldOf(s) == Some(f) then f in fields && fields[f].len > 0 && fields[f].off + fields[f].len == a + |seen|
           else f !in fields || fields[f].len == 0
  {
    var t := HostChar(s, ch);
    HostRankGrows(s, ch);
    PartRankIs(t);
    if HostRank(s) == HostRank(t) { HostRankDecides(s, t); }
    hide HostChar, HostTrace, HostFieldOf, HostRank, PartRank, HostSplit;
  }

  lemma {:induction false} HostTraceMore(s: HostState, text: Bytes, i: nat)
    requires i < |text|
    ensures HostTrace(s, text[..i + 1]) == HostChar(HostTrace(s, text[..i]), text[i])
  {
    assert text[..i + 1][..i] == text[..i];
  }

  lemma {:induction false} PartBelongsPrefix(s: HostState, a: nat, text: Bytes, i: nat, f: Field, p: int)
    requires i <= |text|
    ensures PartBelongs(s, a, text[..i], f, p) <==> PartBelongs(s, a, text, f, p) && p < a + i
  {
    if a <= p < a + i { assert text[..i][..p - a + 1] == text[..p - a + 1]; }
  }

  lemma {:induction false} HostSplitStep(start: HostState, a: nat, seen: Bytes, ch: Byte, s: HostState, t: HostState, outer: Fields, fields: Fields)
    requires HostSplit(start, a, seen, outer, fields) && t == HostTrace(start, seen + [ch])
    requires HostFieldOf(t).Some? ==> var f := HostFieldOf(t).value;
      && OfAuthority(f)
      && if HostFieldOf(s) == Some(f) then f in fields && fields[f].len > 0 && fields[f].off + fields[f].len == a + |seen|
         else f !in fields || fields[f].len == 0
    ensures HostSplit(start, a, seen + [ch], outer, HostNoted(s, t, fields, a + |seen|))
  {
    hide HostTrace, HostFieldOf;
    var more := HostNoted(s, t, fields, a + |seen|);
    var now := seen + [ch];
    assert now[..|seen|] == seen && now[..|seen| + 1] == now;
    forall f, p | OfAuthority(f)
      ensures Marks(more, f, p) <==> PartBelongs(start, a, now, f, p)
    {
      PartBelongsPrefix(start, a, now, |seen|, f, p);
    }
  }

  lemma {:induction false} HostStep(start: HostState, a: nat, seen: Bytes, ch: Byte, s: HostState, outer: Fields, fields: Fields)
    requires HostScanned(start, a, seen, s, outer, fields) && HostChar(s, ch) != HostDead
    ensures var t := HostChar(s, ch);
      && (HostFieldOf(t).Some? && HostFieldOf(s) == HostFieldOf(t) ==> HostFieldOf(t).value in fields)
      && HostScanned(start, a, seen + [ch], t, outer, HostNoted(s, t, fields, a + |seen|))
  {
    hide HostChar, HostTrace, HostFieldOf, HostRank, PartRank, HostSplit;
    var t := HostChar(s, ch);
    PartOldOrNew(start, a, seen, ch, s, outer, fields);
    HostTraceMore(start, seen + [ch], |seen|);
    assert (seen + [ch])[..|seen|] == seen && (seen + [ch])[..|seen| + 1] == seen + [ch];
    HostSplitStep(start, a, seen, ch, s, t, outer, fields);
  }

  // ---- the parser ----

  predicate AtHere(connect: bool, buf: Bytes, p: int) {
    0 <= p < |buf| && Trace(Start(connect), buf[..p + 1]).ServerWithAt?
  }

  ghost predicate SawAt(connect: bool, buf: Bytes) {
    exists p :: AtHere(connect, buf, p)
  }

  lemma {:induction false} SawAtMore(connect: bool, seen: Bytes, ch: Byte)
    ensures SawAt(connect, seen + [ch]) <==> SawAt(connect, seen) || Trace(Start(connect), seen + [ch]).ServerWithAt?
  {
    var now := seen + [ch];
    assert now[..|seen| + 1] == now;
    assert AtHere(connect, now, |seen|) <==> Trace(Start(connect), now).ServerWithAt?;
    forall p | p < |seen|
      ensures AtHere(connect, now, p) <==> AtHere(connect, seen, p)
    {
      if 0 <= p { assert now[..p + 1] == seen[..p + 1]; }
    }
  }

  /** Splits a URL into its top-level fields, the whole authority as the host. */
  method ScanUrl(buf: Bytes, connect: bool) returns (ok: bool, fields: Fields, foundAt: bool)
    ensures ok <==> Trace(Start(connect), buf) != Dead
    ensures ok ==> Split(connect, buf, fields) && (foundAt <==> SawAt(connect, buf))
  {
    hide Scanned, Trace, UrlChar, SawAt, Split;
    var s := Start(connect);
    var last: Option<Field> := None;
    fields, foundAt := map[], false;
    var i := 0;
    assert buf[..0] == [];
    Unscanned(connect);
    while i < |buf|
      invariant 0 <= i <= |buf| && Scanned(connect, buf[..i], s, last, fields)
      invariant foundAt <==> SawAt(connect, buf[..i])
    {
      ghost var seen, was := buf[..i], s;
      assert buf[..i + 1] == seen + [buf[i]];
      StateOf(connect, seen, s, last, fields);
      TraceMore(Start(connect), buf, i);
      SawAtMore(connect, seen, buf[i]);
      s := UrlChar(s, buf[i]);
      if s == Dead {
        DeadForGood(connect, buf, i + 1);
        return false, fields, foundAt;
      }
      ScanStep(connect, seen, buf[i], was, last, fields);
      if s.ServerWithAt? { foundAt := true; }
      var uf := FieldOf(s);
      if uf.Some? {
        if uf == last {
          fields := fields[uf.value := Run(fields[uf.value].off, fields[uf.value].len + 1)];
        } else {
          fields := fields[uf.value := Run(i, 1)];
          last := uf;
        }
      }
      i := i + 1;
    }
    assert buf[..i] == buf;
    StateOf(connect, buf, s, last, fields);
    ok := true;
  }

  lemma Unscanned(connect: bool)
    ensures Scanned(connect, [], Start(connect), None, map[]) && !SawAt(connect, [])
  {
  }

  lemma StateOf(connect: bool, seen: Bytes, s: State, last: Option<Field>, fields: Fields)
    requires Scanned(connect, seen, s, last, fields)
    ensures s == Trace(Start(connect), seen) != Dead && Split(connect, seen, fields)
  {
  }

  /** The machine does not recover. */
  lemma {:induction false} DeadForGood(connect: bool, buf: Bytes, i: nat)
    requires i <= |buf| && Trace(Start(connect), buf[..i]) == Dead
    ensures Trace(Start(connect), buf) == Dead
    decreases |buf|
  {
    if i == |buf| {
      assert buf[..i] == buf;
    } else {
      var n := |buf| - 1;
      assert buf[..n][..i] == buf[..i] && buf[..n + 1] == buf;
      DeadForGood(connect, buf[..n], i);
    }
  }

  /** Entering and staying in the states of the host. */
  lemma HostEntry(s: HostState, ch: Byte)
    ensures var t := HostChar(s, ch);
      && ((t.Host? || t.V6?) && s != t ==> HostFieldOf(s) != Some(HostField))
      && (t.ZoneStart? || t.Zone? ==> HostFieldOf(s) == Some(HostField))
  {
  }

  function HostBegin(foundAt: bool): HostState { if foundAt then UserinfoStart else HostStart }

  /** Notes a byte of the authority. */
  method NotePart(s: HostState, t: HostState, before: Fields, p: nat) returns (fields: Fields)
    requires HostField in before
    requires HostFieldOf(t).Some? ==> var f := HostFieldOf(t).value;
      if HostFieldOf(s) == Some(f) then f in before else f !in before || before[f].len == 0
    requires (t.Host? || t.V6?) && s != t ==> HostFieldOf(s) != Some(HostField)
    requires t.ZoneStart? || t.Zone? ==> HostFieldOf(s) == Some(HostField)
    ensures fields == HostNoted(s, t, before, p)
  {
    fields := before;
    match t
    case Host | V6 =>
      if s != t { fields := fields[HostField := Run(p, fields[HostField].len)]; }
      fields := fields[HostField := Run(fields[HostField].off, fields[HostField].len + 1)];
    case ZoneStart | Zone =>
      fields := fields[HostField := Run(fields[HostField].off, fields[HostField].len + 1)];
    case Port =>
      if s != t { fields := fields[PortField := Run(p, 0)]; }
      fields := fields[PortField := Run(fields[PortField].off, fields[PortField].len + 1)];
    case Userinfo =>
      if s != t { fields := fields[UserinfoField := Run(p, 0)]; }
      fields := fields[UserinfoField := Run(fields[UserinfoField].off, fields[UserinfoField].len + 1)];
    case _ =>
  }

  /** Splits the authority into user information, host and port. */
  method ParseHost(buf: Bytes, outer: Fields, foundAt: bool) returns (ok: bool, fields: Fields)
    requires HostField in outer && outer[HostField].off + outer[HostField].len <= |buf|
    requires PortField !in outer && UserinfoField !in outer && forall f :: f in outer ==> outer[f].len > 0
    ensures var a := outer[HostField].off;
      var text := buf[a..a + outer[HostField].len];
      && (ok <==> EndsWell(HostTrace(HostBegin(foundAt), text)))
      && (ok ==> HostSplit(HostBegin(foundAt), a, text, outer, fields) && forall f :: f in fields ==> fields[f].len > 0)
  {
    hide HostScanned, HostTrace, HostChar, HostSplit, HostFieldOf, HostNoted, EndsWell;
    var a, end := outer[HostField].off, outer[HostField].off + outer[HostField].len;
    ghost var start, text := HostBegin(foundAt), buf[a..end];
    fields := outer[HostField := Run(a, 0)];
    var s := HostBegin(foundAt);
    var p := a;
    assert text[..0] == [];
    HostUnscanned(start, a, outer);
    while p < end
      invariant a <= p <= end && HostScanned(start, a, text[..p - a], s, outer, fields)
    {
      ghost var seen := text[..p - a];
      assert text[..p + 1 - a] == seen + [buf[p]];
      HostStateOf(start, a, seen, s, outer, fields);
      HostTraceMore(start, text, p - a);
      var t := HostChar(s, buf[p]);
      if t == HostDead {
        HostDeadForGood(start, text, p - a + 1);
        DeadIsNoEnd();
        return false, fields;
      }
      HostStep(start, a, seen, buf[p], s, outer, fields);
      PartOldOrNew(start, a, seen, buf[p], s, outer, fields);
      HostEntry(s, buf[p]);
      fields := NotePart(s, t, fields, p);
      s := t;
      p := p + 1;
    }
    assert text[..p - a] == text;
    HostStateOf(start, a, text, s, outer, fields);
    HostEnd(start, a, text, s, outer, fields);
    ok := EndsWell(s);
  }

  lemma DeadIsNoEnd()
    ensures !EndsWell(HostDead)
  {
  }

  lemma HostUnscanned(start: HostState, a: nat, outer: Fields)
    requires start in {UserinfoStart, HostStart} && PortField !in outer && UserinfoField !in outer
    requires forall f :: f in outer ==> outer[f].len > 0
    ensures HostScanned(start, a, [], start, outer, outer[HostField := Run(a, 0)])
  {
  }

  lemma HostStateOf(start: HostState, a: nat, seen: Bytes, s: HostState, outer: Fields, fields: Fields)
    requires HostScanned(start, a, seen, s, outer, fields)
    ensures s == HostTrace(start, seen) != HostDead && HostSplit(start, a, seen, outer, fields) && HostField in fields
  {
  }

  lemma {:induction false} HostDeadForGood(start: HostState, text: Bytes, i: nat)
    requires i <= |text| && HostTrace(start, text[..i]) == HostDead
    ensures HostTrace(start, text) == HostDead
    decreases |text|
  {
    if i == |text| {
      assert text[..i] == text;
    } else {
      var n := |text| - 1;
      assert text[..n][..i] == text[..i] && text[..n + 1] == text;
      HostDeadForGood(start, text[..n], i);
    }
  }

  /** A host has been seen wherever an authority may end. */
  lemma {:induction false} HostEnd(start: HostState, a: nat, text: Bytes, s: HostState, outer: Fields, fields: Fields)
    requires HostScanned(start, a, text, s, outer, fields) && start in {UserinfoStart, HostStart}
    ensures EndsWell(s) ==> forall f :: f in fields ==> fields[f].len > 0
  {
    if EndsWell(s) {
      var j := HostSeen(start, text);
      assert PartBelongs(start, a, text, HostField, a + j);
      assert Marks(fields, HostField, a + j);
    }
  }

  lemma HostBefore(s: HostState, ch: Byte)
    ensures HostRank(HostChar(s, ch)) in {5, 6, 7} ==> HostRank(s) in {4, 5, 6, 7}
  {
  }

  lemma HostRankOfHost()
    ensures HostRank(Host) == 4
  {
  }

  /** Past the start of the host there was a byte of the host. */
  lemma {:induction false} HostSeen(start: HostState, text: Bytes) returns (j: nat)
    requires start in {UserinfoStart, HostStart} && HostRank(HostTrace(start, text)) in {4, 5, 6, 7}
    ensures j < |text| && HostFieldOf(HostTrace(start, text[..j + 1])) == Some(HostField)
    decreases |text|
  {
    assert text != [];
    var n := |text| - 1;
    assert HostTrace(start, text) == HostChar(HostTrace(start, text[..n]), text[n]);
    hide HostTrace, HostChar, HostRank, HostFieldOf;
    assert text[..n + 1] == text;
    HostBefore(HostTrace(start, text[..n]), text[n]);
    if HostRank(HostTrace(start, text)) == 4 {
      j := n;
      HostRankOfHost();
      HostRankDecides(HostTrace(start, text), Host);
    } else {
      j := HostSeen(start, text[..n]);
      assert text[..n][..j + 1] == text[..j + 1];
    }
  }

  // ---- the whole parse ----

  /** The text of a run, if it is one. */
  function Text(buf: Bytes, r: Run): Bytes {
    if r.off + r.len <= |buf| then buf[r.off..r.off + r.len] else []
  }

  /** The authority starts with user information exactly when it has an at sign. */
  function AuthorityBegin(buf: Bytes, outer: Fields): HostState
    requires HostField in outer
  {
    HostBegin(AT in Text(buf, outer[HostField]))
  }

  predicate HostEndsWell(buf: Bytes, outer: Fields) {
    HostField in outer ==> EndsWell(HostTrace(AuthorityBegin(buf, outer), Text(buf, outer[HostField])))
  }

  /** The text passes the machines: a schema needs a host, and an authority has to be complete. */
  predicate Passes(connect: bool, buf: Bytes, outer: Fields) {
    && Trace(Start(connect), buf) != Dead
    && (SchemaField in outer ==> HostField in outer)
    && HostEndsWell(buf, outer)
  }

  /** Every field is the run of the bytes that belong to it. */
  ghost predicate Located(connect: bool, buf: Bytes, outer: Fields, fields: Fields) {
    && Split(connect, buf, outer)
    && (HostField !in outer ==> fields == outer)
    && (HostField in outer ==>
      HostSplit(AuthorityBegin(buf, outer), outer[HostField].off, Text(buf, outer[HostField]), outer, fields))
    && forall f :: f in fields ==> fields[f].len > 0
  }

  /** The number that the port field spells. */
  function PortValue(buf: Bytes, fields: Fields): nat {
    if PortField in fields && Http.Decimal(Text(buf, fields[PortField])) then Http.Value(Text(buf, fields[PortField])) else 0
  }

  lemma {:induction false} SplitInside(connect: bool, buf: Bytes, fields: Fields, f: Field)
    requires Split(connect, buf, fields) && f in fields
    ensures fields[f].off + fields[f].len <= |buf| && f !in {PortField, UserinfoField}
  {
    hide Trace;
    assert Marks(fields, f, fields[f].off + fields[f].len - 1);
    assert Belongs(connect, buf, f, fields[f].off + fields[f].len - 1);
  }

  /** A byte of the authority is an at sign exactly when it leads to the state for it. */
  lemma {:induction false} AtState(connect: bool, buf: Bytes, p: nat)
    requires p < |buf|
    ensures AtHere(connect, buf, p) ==> Belongs(connect, buf, HostField, p) && buf[p] == AT
    ensures Belongs(connect, buf, HostField, p) && buf[p] == AT ==> AtHere(connect, buf, p)
  {
    TraceMore(Start(connect), buf, p);
    ServerStates(Trace(Start(connect), buf[..p]), buf[p]);
    hide Trace, UrlChar;
  }

  lemma ServerStates(s: State, ch: Byte)
    ensures UrlChar(s, ch).ServerWithAt? ==> ch == AT
    ensures UrlChar(s, ch).Server? ==> ch != AT
  {
  }

  lemma {:induction false} SawAtIs(connect: bool, buf: Bytes, outer: Fields)
    requires Split(connect, buf, outer) && HostField in outer
    ensures SawAt(connect, buf) <==> AT in Text(buf, outer[HostField])
  {
    hide Trace;
    SplitInside(connect, buf, outer, HostField);
    var r := outer[HostField];
    if SawAt(connect, buf) {
      var p :| AtHere(connect, buf, p);
      AtState(connect, buf, p);
      assert Marks(outer, HostField, p);
      assert Text(buf, r)[p - r.off] == AT;
    }
    if AT in Text(buf, r) {
      var j :| 0 <= j < r.len && Text(buf, r)[j] == AT;
      assert Marks(outer, HostField, r.off + j);
      AtState(connect, buf, r.off + j);
    }
  }

  /** The parts of the authority lie inside its text, and the port is made of digits. */
  lemma {:induction false} PartInside(s: HostState, a: nat, text: Bytes, outer: Fields, fields: Fields, f: Field)
    requires HostSplit(s, a, text, outer, fields) && f in fields && OfAuthority(f) && fields[f].len > 0
    ensures a <= fields[f].off && fields[f].off + fields[f].len <= a + |text|
    ensures f.PortField? ==> Http.Decimal(text[fields[f].off - a..fields[f].off - a + fields[f].len])
  {
    hide HostTrace;
    var r := fields[f];
    assert Marks(fields, f, r.off) && Marks(fields, f, r.off + r.len - 1);
    assert PartBelongs(s, a, text, f, r.off) && PartBelongs(s, a, text, f, r.off + r.len - 1);
    if f.PortField? {
      forall i | r.off - a <= i < r.off - a + r.len
        ensures Http.IsDigit(text[i])
      {
        assert Marks(fields, f, a + i) && PartBelongs(s, a, text, f, a + i);
        HostTraceMore(s, text, i);
        PortDigit(HostTrace(s, text[..i]), text[i]);
      }
    }
  }

  lemma PortDigit(s: HostState, ch: Byte)
    ensures HostFieldOf(HostChar(s, ch)) == Some(PortField) ==> Http.IsDigit(ch)
  {
  }

  lemma {:induction false} LocatedInside(connect: bool, buf: Bytes, outer: Fields, fields: Fields, f: Field)
    requires Located(connect, buf, outer, fields) && f in fields
    ensures fields[f].off + fields[f].len <= |buf|
    ensures OfAuthority(f) ==>
      && HostField in outer && outer[HostField].off <= fields[f].off
      && fields[f].off + fields[f].len <= outer[HostField].off + outer[HostField].len
    ensures f.PortField? ==> Http.Decimal(Text(buf, fields[f]))
  {
    hide Trace, HostTrace;
    if HostField in outer { SplitInside(connect, buf, outer, HostField); }
    if OfAuthority(f) {
      if HostField !in outer { SplitInside(connect, buf, outer, f); }
      var a, text := outer[HostField].off, Text(buf, outer[HostField]);
      PartInside(AuthorityBegin(buf, outer), a, text, outer, fields, f);
      var r := fields[f];
      assert text[r.off - a..r.off - a + r.len] == Text(buf, r);
    } else {
      SplitInside(connect, buf, outer, f);
    }
  }

  /** Fields do not overlap. */
  lemma {:induction false} Disjoint(connect: bool, buf: Bytes, outer: Fields, fields: Fields, f: Field, g: Field, p: nat)
    requires Located(connect, buf, outer, fields) && Marks(fields, f, p) && Marks(fields, g, p)
    ensures f == g
  {
    hide Trace, HostTrace;
    LocatedInside(connect, buf, outer, fields, f);
    LocatedInside(connect, buf, outer, fields, g);
    if OfAuthority(f) && OfAuthority(g) {
      var a, text := outer[HostField].off, Text(buf, outer[HostField]);
      assert PartBelongs(AuthorityBegin(buf, outer), a, text, f, p);
      assert PartBelongs(AuthorityBegin(buf, outer), a, text, g, p);
    } else {
      var x, y := if OfAuthority(f) then HostField else f, if OfAuthority(g) then HostField else g;
      assert Marks(outer, x, p) && Marks(outer, y, p);
      assert Belongs(connect, buf, x, p) && Belongs(connect, buf, y, p);
    }
  }

  /** The decimal value of a port, unless it is above 65535. */
  method ReadPort(text: Bytes) returns (ok: bool, v: nat)
    requires Http.Decimal(text)
    ensures ok <==> Http.Value(text) <= 0xffff
    ensures ok ==> v == Http.Value(text)
  {
    v := 0;
    var i := 0;
    assert text[..0] == [];
    while i < |text|
      invariant 0 <= i <= |text| && v == Http.Value(text[..i]) <= 0xffff
    {
      assert text[..i + 1] == text[..i] + [text[i]];
      v := v * 10 + (text[i] - 48);
      i := i + 1;
      Http.ValueGrows(text, i);
      if v > 0xffff { return false, v; }
    }
    assert text[..i] == text;
    return true, v;
  }

  lemma {:induction false} NoParts(connect: bool, buf: Bytes, outer: Fields)
    requires Split(connect, buf, outer)
    ensures PortField !in outer && UserinfoField !in outer && forall f :: f in outer ==> outer[f].len > 0
  {
    if PortField in outer { SplitInside(connect, buf, outer, PortField); }
    if UserinfoField in outer { SplitInside(connect, buf, outer, UserinfoField); }
  }
}
