/**
 The URL parser accepts exactly the texts of the grammar, and finds their fields.
 */
module UrlMatch {
  import opened Rlp
  import opened Options
  import opened Numerals
  import opened UrlGrammar
  import opened HttpUrl

  lemma {:induction false} Classes(c: Byte)
    ensures IsAlpha(c) <==> Letter(c)
    ensures Http.IsDigit(c) <==> Digit(c)
    ensures IsUrlChar(c) <==> UrlByte(c)
    ensures IsUserinfoChar(c) <==> UserinfoByte(c)
    ensures IsHostChar(c) <==> HostByte(c)
    ensures IsV6Char(c) <==> AddressByte(c)
    ensures IsZoneChar(c) <==> ZoneByte(c)
  {
  }

  lemma {:induction false} Delimiters(c: Byte)
    ensures QueryByte(c) <==> UrlByte(c) || c == QUESTION
    ensures FragmentByte(c) <==> UrlByte(c) || c == QUESTION || c == HASH
    ensures ServerByte(c) <==> UserinfoByte(c) || c == OPEN_BRACKET || c == CLOSE_BRACKET || c == AT
    ensures UrlByte(c) ==> c != QUESTION && c != HASH && c != 32 && c != 13 && c != 10 && c != 9 && c != 12
    ensures UserinfoByte(c) ==> c != SLASH && c != QUESTION && c != AT && c != OPEN_BRACKET && c != CLOSE_BRACKET
    ensures Letter(c) ==> c != COLON && c != SLASH && c != STAR
    ensures UrlByte('/' as int) && UrlByte('*' as int)
  {
  }

  // ---- the URL machine ----

  /** A text that the URL machine has read so far, the authority as it stands. */
  datatype Outer = Outer(
    schema: Bytes, colon: nat, auth: Bytes, path: Bytes, query: Option<Bytes>, signs: nat, fragment: Bytes)

  const SLASHES: Bytes := [':' as int, '/' as int, '/' as int]

  predicate ServerByte(c: Byte) { UserinfoByte(c) || OneOf(c, "[]@") }

  predicate IsAt(c: Byte) { c == '@' as int }

  /** Bytes of an authority, no two at signs next to each other. */
  ghost predicate IsAuthText(t: Bytes) {
    && (forall i :: 0 <= i < |t| ==> ServerByte(t[i]))
    && (forall i :: 0 < i < |t| ==> !(IsAt(t[i - 1]) && IsAt(t[i])))
  }

  /** The machine has come to the place of an authority. */
  predicate AtServer(connect: bool, o: Outer) { connect || o.colon == 3 }

  ghost predicate FrontFits(connect: bool, o: Outer) {
    && (forall i :: 0 <= i < |o.schema| ==> Letter(o.schema[i]))
    && o.colon <= 3 && (o.colon > 0 ==> o.schema != []) && (connect ==> o.schema == [])
    && IsAuthText(o.auth) && (o.auth != [] ==> AtServer(connect, o))
  }

  ghost predicate BackFits(connect: bool, o: Outer) {
    && (forall i :: 0 <= i < |o.path| ==> UrlByte(o.path[i]))
    && (o.path != [] ==>
          || (o.path[0] == '/' as int && (AtServer(connect, o) || o.schema == []))
          || (o.path[0] == '*' as int && !connect && o.schema == []))
    && (o.query.Some? ==> AtServer(connect, o) || o.path != [])
    && (o.query.Some? ==> forall i :: 0 <= i < |o.query.value| ==> QueryByte(o.query.value[i]))
    && (o.signs > 0 ==> o.path != [] || o.query.Some?)
    && (o.fragment != [] ==> o.signs > 0 && o.fragment[0] != '#' as int)
    && (forall i :: 0 <= i < |o.fragment| ==> FragmentByte(o.fragment[i]))
  }

  ghost predicate OuterFits(connect: bool, o: Outer) {
    FrontFits(connect, o) && BackFits(connect, o)
  }

  function StateAfter(connect: bool, o: Outer): State {
    if o.fragment != [] then Fragment
    else if o.signs > 0 then FragmentStart
    else if o.query.Some? then if o.query.value != [] then Query else QueryStart
    else if o.path != [] then Path
    else FrontState(connect, o)
  }

  function FrontState(connect: bool, o: Outer): State {
    if o.auth != [] then if IsAt(o.auth[|o.auth| - 1]) then ServerWithAt else Server
    else if AtServer(connect, o) then ServerStart
    else if o.colon == 2 then SchemaSlashSlash
    else if o.colon == 1 then SchemaSlash
    else if o.schema != [] then Schema
    else SpacesBeforeUrl
  }

  function OuterPieces(o: Outer): seq<Piece> {
    [Piece(o.schema, Some(SchemaField)), Piece(SLASHES[..if o.colon <= 3 then o.colon else 3], None), Piece(o.auth, Some(HostField))]
      + BackPieces(o.path, o.query, o.signs, o.fragment)
  }

  function FrontText(o: Outer): Bytes {
    o.schema + SLASHES[..if o.colon <= 3 then o.colon else 3] + o.auth
  }

  function BackText(o: Outer): Bytes {
    o.path + (if o.query.Some? then ['?' as int] + o.query.value else []) + NumberSigns(o.signs) + o.fragment
  }

  lemma {:induction false} OuterTextIs(o: Outer)
    ensures TextOf(OuterPieces(o)) == FrontText(o) + BackText(o)
  {
    var front := [Piece(o.schema, Some(SchemaField)), Piece(SLASHES[..if o.colon <= 3 then o.colon else 3], None), Piece(o.auth, Some(HostField))];
    TextAppend(front, BackPieces(o.path, o.query, o.signs, o.fragment));
    FrontTextIs(front[0], front[1], front[2]);
    BackTextIs(o.path, o.query, o.signs, o.fragment);
  }

  lemma {:induction false} FrontTextIs(a: Piece, b: Piece, c: Piece)
    ensures TextOf([a, b, c]) == a.text + b.text + c.text
  {
    assert [a, b, c][1..] == [b, c] && [b, c][1..] == [c] && [c][1..] == [];
    assert TextOf([c]) == c.text && TextOf([b, c]) == b.text + c.text;
  }

  lemma {:induction false} BackTextIs(path: Bytes, query: Option<Bytes>, signs: nat, fragment: Bytes)
    ensures TextOf(BackPieces(path, query, signs, fragment))
      == path + (if query.Some? then ['?' as int] + query.value else []) + NumberSigns(signs) + fragment
  {
    var ps := BackPieces(path, query, signs, fragment);
    MarkText("?", query.Some?);
    hide Mark, TextOf, NumberSigns;
    assert ps == [ps[0], ps[1]] + [ps[2], ps[3], ps[4]];
    TextAppend([ps[0], ps[1]], [ps[2], ps[3], ps[4]]);
    FrontTextIs(ps[2], ps[3], ps[4]);
    TwoTexts(ps[0], ps[1]);
    assert ps[1].text == if query.Some? then ['?' as int] else [];
    assert ps[1].text + OrNothing(query) == if query.Some? then ['?' as int] + query.value else [];
  }

  /** One more byte that the machine takes. */
  lemma {:induction false} Extend(connect: bool, o: Outer, ch: Byte) returns (r: Outer)
    requires OuterFits(connect, o) && UrlChar(StateAfter(connect, o), ch) != Dead
    ensures OuterFits(connect, r) && StateAfter(connect, r) == UrlChar(StateAfter(connect, o), ch)
    ensures FrontText(r) + BackText(r) == FrontText(o) + BackText(o) + [ch]
  {
    Classes(ch);
    if o.fragment != [] || o.signs > 0 || o.query.Some? || o.path != [] {
      r := ExtendBack(connect, o, ch);
    } else {
      r := ExtendFront(connect, o, ch);
    }
  }

  lemma {:induction false} ExtendBack(connect: bool, o: Outer, ch: Byte) returns (r: Outer)
    requires OuterFits(connect, o) && UrlChar(StateAfter(connect, o), ch) != Dead
    requires o.fragment != [] || o.signs > 0 || o.query.Some? || o.path != []
    ensures OuterFits(connect, r) && StateAfter(connect, r) == UrlChar(StateAfter(connect, o), ch)
    ensures FrontText(r) + BackText(r) == FrontText(o) + BackText(o) + [ch]
  {
    if o.fragment != [] || o.signs > 0 {
      r := ExtendFragment(connect, o, ch);
    } else {
      r := ExtendQuery(connect, o, ch);
    }
  }

  lemma {:induction false} ExtendFragment(connect: bool, o: Outer, ch: Byte) returns (r: Outer)
    requires OuterFits(connect, o) && UrlChar(StateAfter(connect, o), ch) != Dead
    requires o.fragment != [] || o.signs > 0
    ensures OuterFits(connect, r) && StateAfter(connect, r) == UrlChar(StateAfter(connect, o), ch)
    ensures FrontText(r) + BackText(r) == FrontText(o) + BackText(o) + [ch]
  {
    Classes(ch);
    Delimiters(ch);
    hide IsUrlChar, UrlByte, QueryByte, FragmentByte, FrontFits, FrontState, FrontText, BackText;
    if o.fragment != [] || ch != '#' as int {
      r := o.(fragment := o.fragment + [ch]);
    } else {
      r := o.(signs := o.signs + 1);
    }
    SameFront(connect, o, r);
    BackGrows(o, r, ch);
  }

  lemma {:induction false} ExtendQuery(connect: bool, o: Outer, ch: Byte) returns (r: Outer)
    requires OuterFits(connect, o) && UrlChar(StateAfter(connect, o), ch) != Dead
    requires o.fragment == [] && o.signs == 0 && (o.query.Some? || o.path != [])
    ensures OuterFits(connect, r) && StateAfter(connect, r) == UrlChar(StateAfter(connect, o), ch)
    ensures FrontText(r) + BackText(r) == FrontText(o) + BackText(o) + [ch]
  {
    Classes(ch);
    Delimiters(ch);
    hide IsUrlChar, UrlByte, QueryByte, FragmentByte, FrontFits, FrontState, FrontText, BackText;
    if ch == '#' as int {
      r := o.(signs := o.signs + 1);
    } else if o.query.Some? {
      r := o.(query := Some(o.query.value + [ch]));
    } else if ch == '?' as int {
      r := o.(query := Some([]));
    } else {
      r := o.(path := o.path + [ch]);
    }
    SameFront(connect, o, r);
    BackGrows(o, r, ch);
  }

  lemma SameFront(connect: bool, o: Outer, r: Outer)
    requires o.schema == r.schema && o.colon == r.colon && o.auth == r.auth
    ensures FrontText(r) == FrontText(o) && (FrontFits(connect, o) ==> FrontFits(connect, r))
  {
  }

  lemma {:induction false} BackGrows(o: Outer, r: Outer, ch: Byte)
    requires
      || r == o.(fragment := o.fragment + [ch])
      || (r == o.(signs := o.signs + 1) && o.fragment == [] && ch == '#' as int)
      || (o.query.Some? && r == o.(query := Some(o.query.value + [ch])) && o.fragment == [] && o.signs == 0)
      || (r == o.(query := Some([])) && o.query.None? && o.fragment == [] && o.signs == 0 && ch == '?' as int)
      || (r == o.(path := o.path + [ch]) && o.query.None? && o.fragment == [] && o.signs == 0)
    ensures BackText(r) == BackText(o) + [ch]
    ensures FrontText(r) + BackText(r) == FrontText(o) + BackText(o) + [ch]
  {
    if r == o.(signs := o.signs + 1) {
      assert NumberSigns(o.signs + 1) == NumberSigns(o.signs) + [ch];
    }
    if o.signs == 0 { assert NumberSigns(0) == []; }
    var q := if o.query.Some? then ['?' as int] + o.query.value else [];
    var q' := if r.query.Some? then ['?' as int] + r.query.value else [];
    assert o.query.Some? && r.query.Some? && r.query.value == o.query.value + [ch] ==> q' == q + [ch];
    assert BackText(r) == BackText(o) + [ch];
    assert FrontText(r) == FrontText(o);
  }

  lemma {:induction false} ExtendFront(connect: bool, o: Outer, ch: Byte) returns (r: Outer)
    requires OuterFits(connect, o) && UrlChar(StateAfter(connect, o), ch) != Dead
    requires o.fragment == [] && o.signs == 0 && o.query.None? && o.path == []
    ensures OuterFits(connect, r) && StateAfter(connect, r) == UrlChar(StateAfter(connect, o), ch)
    ensures FrontText(r) + BackText(r) == FrontText(o) + BackText(o) + [ch]
  {
    if AtServer(connect, o) {
      r := ExtendServer(connect, o, ch);
    } else {
      r := ExtendSchema(connect, o, ch);
    }
  }

  lemma {:induction false} ExtendServer(connect: bool, o: Outer, ch: Byte) returns (r: Outer)
    requires OuterFits(connect, o) && UrlChar(StateAfter(connect, o), ch) != Dead && AtServer(connect, o)
    requires o.fragment == [] && o.signs == 0 && o.query.None? && o.path == []
    ensures OuterFits(connect, r) && StateAfter(connect, r) == UrlChar(StateAfter(connect, o), ch)
    ensures FrontText(r) + BackText(r) == FrontText(o) + BackText(o) + [ch]
  {
    Classes(ch);
    Delimiters(ch);
    hide IsAlpha, IsUrlChar, IsUserinfoChar, Letter, UrlByte, UserinfoByte, ServerByte, FrontText, BackText, FragmentByte, QueryByte;
    if ch == '/' as int {
      r := o.(path := [ch]);
      PathBegins(o, ch);
    } else if ch == '?' as int {
      r := o.(query := Some([]));
      BackGrows(o, r, ch);
    } else {
      r := o.(auth := o.auth + [ch]);
      FrontGrows(o, r, ch);
    }
  }

  lemma {:induction false} PathBegins(o: Outer, ch: Byte)
    requires o.fragment == [] && o.signs == 0 && o.query.None? && o.path == []
    ensures var r := o.(path := [ch]); FrontText(r) + BackText(r) == FrontText(o) + BackText(o) + [ch]
  {
    BackGrows(o, o.(path := o.path + [ch]), ch);
    assert o.path + [ch] == [ch];
  }

  lemma {:induction false} ExtendSchema(connect: bool, o: Outer, ch: Byte) returns (r: Outer)
    requires OuterFits(connect, o) && UrlChar(StateAfter(connect, o), ch) != Dead && !AtServer(connect, o)
    requires o.fragment == [] && o.signs == 0 && o.query.None? && o.path == []
    ensures OuterFits(connect, r) && StateAfter(connect, r) == UrlChar(StateAfter(connect, o), ch)
    ensures FrontText(r) + BackText(r) == FrontText(o) + BackText(o) + [ch]
  {
    Classes(ch);
    Delimiters(ch);
    hide IsAlpha, IsUrlChar, Letter, UrlByte, ServerChar, ServerByte, FrontText, BackText, FragmentByte, QueryByte;
    if o.colon > 0 || (o.schema != [] && ch == ':' as int) {
      r := o.(colon := o.colon + 1);
      FrontGrows(o, r, ch);
    } else if o.schema == [] && (ch == '/' as int || ch == '*' as int) {
      r := o.(path := [ch]);
      PathBegins(o, ch);
    } else {
      r := o.(schema := o.schema + [ch]);
      FrontGrows(o, r, ch);
    }
  }

  lemma {:induction false} FrontGrows(o: Outer, r: Outer, ch: Byte)
    requires o.fragment == [] && o.signs == 0 && o.query.None? && o.path == []
    requires
      || r == o.(auth := o.auth + [ch])
      || (r == o.(colon := o.colon + 1) && o.colon < 3 && o.auth == [] && ch == SLASHES[o.colon])
      || (r == o.(schema := o.schema + [ch]) && o.colon == 0 && o.auth == [])
    ensures FrontText(r) + BackText(r) == FrontText(o) + BackText(o) + [ch]
  {
    assert BackText(o) == [] && BackText(r) == [];
    if r == o.(colon := o.colon + 1) {
      assert SLASHES[..o.colon + 1] == SLASHES[..o.colon] + [ch];
    }
    assert FrontText(r) == FrontText(o) + [ch];
  }

  /** Whatever the machine takes has this shape. */
  lemma {:induction false} OuterShape(connect: bool, buf: Bytes) returns (o: Outer)
    requires Trace(Start(connect), buf) != Dead
    ensures OuterFits(connect, o) && TextOf(OuterPieces(o)) == buf
    ensures StateAfter(connect, o) == Trace(Start(connect), buf)
    decreases |buf|
  {
    hide OuterFits, OuterPieces, UrlChar, StateAfter;
    if buf == [] {
      o := Outer([], 0, [], [], None, 0, []);
      NothingRead(connect);
    } else {
      var init := buf[..|buf| - 1];
      DeadStays(buf[|buf| - 1]);
      var q := OuterShape(connect, init);
      o := Extend(connect, q, buf[|buf| - 1]);
      OuterTextIs(q);
      OuterTextIs(o);
      assert buf == init + [buf[|buf| - 1]];
    }
  }

  lemma NothingRead(connect: bool)
    ensures var o := Outer([], 0, [], [], None, 0, []);
      OuterFits(connect, o) && TextOf(OuterPieces(o)) == [] && StateAfter(connect, o) == Start(connect)
  {
    OuterTextIs(Outer([], 0, [], [], None, 0, []));
  }

  lemma DeadStays(ch: Byte)
    ensures UrlChar(Dead, ch) == Dead
  {
  }

  // ---- the labels of a text, told by the machine ----

  lemma {:induction false} TraceAppend(s: State, a: Bytes, b: Bytes)
    ensures Trace(s, a + b) == Trace(Trace(s, a), b)
    decreases |b|
  {
    hide UrlChar;
    if b == [] {
      assert a + b == a;
    } else {
      var init := b[..|b| - 1];
      assert (a + b)[..|a + b| - 1] == a + init;
      TraceAppend(s, a, init);
    }
  }

  /** Every byte of the text leads to a state of the field. */
  ghost predicate Stays(s: State, text: Bytes, f: Option<Field>) {
    forall k :: 0 < k <= |text| ==> FieldOf(Trace(s, text[..k])) == f
  }

  /** Every piece leads through states of its field, and the machine is alive at the end. */
  ghost predicate Walks(s: State, ps: seq<Piece>)
    decreases |ps|
  {
    if ps == [] then s != Dead
    else (Stays(s, ps[0].text, ps[0].field) && Walks(Trace(s, ps[0].text), ps[1..]))
  }

  lemma {:induction false} WalkTells(s: State, ps: seq<Piece>, p: nat)
    requires Walks(s, ps) && p < |TextOf(ps)|
    ensures FieldOf(Trace(s, TextOf(ps)[..p + 1])) == LabelAt(ps, p)
    decreases |ps|
  {
    hide FieldOf, Trace;
    var first, rest := ps[0].text, TextOf(ps[1..]);
    if p < |first| {
      assert (first + rest)[..p + 1] == first[..p + 1];
    } else {
      WalkTells(Trace(s, first), ps[1..], p - |first|);
      assert (first + rest)[..p + 1] == first + rest[..p - |first| + 1];
      TraceAppend(s, first, rest[..p - |first| + 1]);
    }
  }

  lemma {:induction false} WalkLives(s: State, ps: seq<Piece>)
    requires Walks(s, ps)
    ensures Trace(s, TextOf(ps)) != Dead
    decreases |ps|
  {
    if ps != [] {
      WalkLives(Trace(s, ps[0].text), ps[1..]);
      TraceAppend(s, ps[0].text, TextOf(ps[1..]));
    }
  }

  lemma {:induction false} WalkCons(s: State, p: Piece, rest: seq<Piece>)
    requires Stays(s, p.text, p.field) && Walks(Trace(s, p.text), rest)
    ensures Walks(s, [p] + rest)
  {
    hide Stays, Trace;
    assert ([p] + rest)[1..] == rest;
  }

  /** A text that leads to a state and stays there. */
  lemma {:induction false} Loop(s: State, text: Bytes, t: State)
    requires text != [] && UrlChar(s, text[0]) == t
    requires forall i :: 1 <= i < |text| ==> UrlChar(t, text[i]) == t
    ensures Trace(s, text) == t && Stays(s, text, FieldOf(t))
    decreases |text|
  {
    hide UrlChar, FieldOf;
    var n := |text| - 1;
    var init := text[..n];
    if n == 0 {
      assert init == [] && text[..1] == text;
    } else {
      Loop(s, init, t);
      forall k | 0 < k <= |text|
        ensures FieldOf(Trace(s, text[..k])) == FieldOf(t)
      {
        if k <= n { assert init[..k] == text[..k]; } else { assert text[..k] == text; }
      }
    }
  }

  lemma StaysNowhere(s: State, f: Option<Field>)
    ensures Stays(s, [], f) && Trace(s, []) == s
  {
  }

  // ---- the pieces behind the authority ----

  /** The states in which a path, or what follows it, may begin. */
  predicate BeforeBack(s: State) {
    s in {SpacesBeforeUrl, ServerStart, Server, ServerWithAt}
  }

  ghost predicate PathFits(s: State, path: Bytes) {
    && (forall i :: 0 <= i < |path| ==> UrlByte(path[i]))
    && (path != [] ==> path[0] == '/' as int || (path[0] == '*' as int && s == SpacesBeforeUrl))
  }

  lemma {:induction false} PathLoop(s: State, path: Bytes)
    requires BeforeBack(s) && PathFits(s, path) && path != []
    ensures Trace(s, path) == Path && Stays(s, path, Some(PathField))
  {
    forall i | 0 <= i < |path|
      ensures UrlChar(Path, path[i]) == Path
    {
      Classes(path[i]);
      Delimiters(path[i]);
    }
    Loop(s, path, Path);
  }

  lemma {:induction false} QueryLoop(s: State, q: Bytes)
    requires (s == QueryStart || s == Query) && q != [] && forall i :: 0 <= i < |q| ==> QueryByte(q[i])
    ensures Trace(s, q) == Query && Stays(s, q, Some(QueryField))
  {
    forall i | 0 <= i < |q|
      ensures UrlChar(s, q[i]) == Query && UrlChar(Query, q[i]) == Query
    {
      Classes(q[i]);
      Delimiters(q[i]);
    }
    Loop(s, q, Query);
  }

  lemma {:induction false} SignsLoop(s: State, n: nat)
    requires s in {Path, QueryStart, Query} && n > 0
    ensures Trace(s, NumberSigns(n)) == FragmentStart && Stays(s, NumberSigns(n), None)
  {
    Classes(HASH);
    Loop(s, NumberSigns(n), FragmentStart);
  }

  lemma {:induction false} FragmentLoop(f: Bytes)
    requires f != [] && f[0] != '#' as int && forall i :: 0 <= i < |f| ==> FragmentByte(f[i])
    ensures Trace(FragmentStart, f) == Fragment && Stays(FragmentStart, f, Some(FragmentField))
  {
    forall i | 0 <= i < |f|
      ensures UrlChar(Fragment, f[i]) == Fragment && (i == 0 ==> UrlChar(FragmentStart, f[i]) == Fragment)
    {
      Classes(f[i]);
      Delimiters(f[i]);
    }
    Loop(FragmentStart, f, Fragment);
  }

  lemma {:induction false} MarkLoop(s: State)
    requires s in {Path, ServerStart, Server, ServerWithAt}
    ensures Trace(s, ['?' as int]) == QueryStart && Stays(s, ['?' as int], None)
  {
    Classes(QUESTION);
    Delimiters(QUESTION);
    Loop(s, ['?' as int], QueryStart);
  }

  lemma {:induction false} FragmentWalks(s: State, signs: nat, fragment: Bytes)
    requires s != Dead && (signs > 0 ==> s in {Path, QueryStart, Query})
    requires fragment != [] ==> signs > 0 && fragment[0] != '#' as int
    requires forall i :: 0 <= i < |fragment| ==> FragmentByte(fragment[i])
    ensures Walks(s, [Piece(NumberSigns(signs), None), Piece(fragment, Some(FragmentField))])
    ensures var ps := [Piece(NumberSigns(signs), None), Piece(fragment, Some(FragmentField))];
      Trace(s, TextOf(ps)) == if fragment != [] then Fragment else if signs > 0 then FragmentStart else s
  {
    hide Stays, Trace, FragmentByte;
    var a, b := Piece(NumberSigns(signs), None), Piece(fragment, Some(FragmentField));
    var t := if signs > 0 then FragmentStart else s;
    StaysNowhere(s, None);
    StaysNowhere(t, Some(FragmentField));
    if signs > 0 { SignsLoop(s, signs); } else { assert NumberSigns(signs) == []; }
    if fragment != [] { FragmentLoop(fragment); }
    OneWalks(t, b);
    TwoTexts(a, b);
    assert [a, b] == [a] + [b];
    TraceAppend(s, a.text, fragment);
    WalkCons(s, a, [b]);
  }

  lemma {:induction false} OneWalks(s: State, p: Piece)
    requires Stays(s, p.text, p.field) && Trace(s, p.text) != Dead
    ensures Walks(s, [p])
  {
    hide Stays, Trace;
    assert [p][1..] == [];
  }

  lemma {:induction false} TwoTexts(a: Piece, b: Piece)
    ensures TextOf([a, b]) == a.text + b.text && TextOf([a]) == a.text
  {
    assert [a, b][1..] == [b] && [b][1..] == [] && [a][1..] == [];
    assert TextOf([b]) == b.text + [] == b.text && TextOf([a]) == a.text + [] == a.text;
  }

  lemma {:induction false} QueryWalks(s: State, query: Option<Bytes>, signs: nat, fragment: Bytes)
    requires query.Some? ==> s in {Path, ServerStart, Server, ServerWithAt}
    requires query.Some? ==> forall i :: 0 <= i < |query.value| ==> QueryByte(query.value[i])
    requires query.None? && signs > 0 ==> s == Path
    requires fragment != [] ==> signs > 0 && fragment[0] != '#' as int
    requires forall i :: 0 <= i < |fragment| ==> FragmentByte(fragment[i])
    requires s != Dead
    ensures Walks(s, BackPieces([], query, signs, fragment)[1..])
  {
    hide Stays, Trace, QueryByte, FragmentByte;
    var ps := BackPieces([], query, signs, fragment);
    var t := if query.Some? then QueryStart else s;
    StaysNowhere(s, None);
    StaysNowhere(t, Some(QueryField));
    if query.Some? {
      MarkLoop(s);
      assert ps[1].text == ['?' as int];
      if query.value != [] { QueryLoop(t, query.value); }
    }
    var u := Trace(t, ps[2].text);
    FragmentWalks(u, signs, fragment);
    assert [ps[3], ps[4]] == [Piece(NumberSigns(signs), None), Piece(fragment, Some(FragmentField))];
    WalkCons(t, ps[2], [ps[3], ps[4]]);
    WalkCons(s, ps[1], [ps[2]] + [ps[3], ps[4]]);
    assert ps[1..] == [ps[1]] + ([ps[2]] + [ps[3], ps[4]]);
  }

  lemma {:induction false} BackWalks(connect: bool, o: Outer, s: State)
    requires OuterFits(connect, o) && s == FrontState(connect, o)
    ensures Walks(s, BackPieces(o.path, o.query, o.signs, o.fragment))
  {
    var ps := BackPieces(o.path, o.query, o.signs, o.fragment);
    hide Stays, Trace, QueryByte, FragmentByte, UrlByte, IsAuthText, Letter;
    var t := if o.path != [] then Path else s;
    StaysNowhere(s, Some(PathField));
    if o.path != [] {
      PathLoop(s, o.path);
    }
    QueryWalks(t, o.query, o.signs, o.fragment);
    assert BackPieces([], o.query, o.signs, o.fragment)[1..] == ps[1..];
    WalkCons(s, ps[0], ps[1..]);
    assert ps == [ps[0]] + ps[1..];
  }

  // ---- the pieces in front ----

  lemma {:induction false} SchemaLoop(schema: Bytes)
    requires schema != [] && forall i :: 0 <= i < |schema| ==> Letter(schema[i])
    ensures Trace(SpacesBeforeUrl, schema) == Schema && Stays(SpacesBeforeUrl, schema, Some(SchemaField))
  {
    forall i | 0 <= i < |schema|
      ensures UrlChar(Schema, schema[i]) == Schema && UrlChar(SpacesBeforeUrl, schema[i]) == Schema
    {
      Classes(schema[i]);
      Delimiters(schema[i]);
    }
    Loop(SpacesBeforeUrl, schema, Schema);
  }

  function SlashState(n: nat): State {
    if n == 0 then Schema else if n == 1 then SchemaSlash else if n == 2 then SchemaSlashSlash else ServerStart
  }

  lemma {:induction false} SlashLoop(n: nat)
    requires n <= 3
    ensures Trace(Schema, SLASHES[..n]) == SlashState(n) && Stays(Schema, SLASHES[..n], None)
  {
    if n > 0 {
      SlashLoop(n - 1);
      var text := SLASHES[..n];
      assert text[..n - 1] == SLASHES[..n - 1] && text[n - 1] == SLASHES[n - 1];
      SlashStep(n);
      hide UrlChar, FieldOf;
      forall k | 0 < k <= n
        ensures FieldOf(Trace(Schema, text[..k])) == None
      {
        if k < n { assert text[..k] == SLASHES[..n - 1][..k]; } else { assert text[..k] == text; }
      }
    }
  }

  lemma SlashStep(n: nat)
    requires 0 < n <= 3
    ensures UrlChar(SlashState(n - 1), SLASHES[n - 1]) == SlashState(n) && FieldOf(SlashState(n)) == None
  {
  }

  lemma {:induction false} AuthLoop(t: Bytes)
    requires IsAuthText(t)
    ensures Stays(ServerStart, t, Some(HostField))
    ensures Trace(ServerStart, t) == if t == [] then ServerStart else if IsAt(t[|t| - 1]) then ServerWithAt else Server
    decreases |t|
  {
    hide UrlChar, FieldOf, IsAt, ServerByte;
    StaysNowhere(ServerStart, Some(HostField));
    if t != [] {
      var n := |t| - 1;
      var init := t[..n];
      AuthLoop(init);
      assert n > 0 ==> !(IsAt(t[n - 1]) && IsAt(t[n]));
      AuthStep(Trace(ServerStart, init), t[n]);
      forall k | 0 < k <= |t|
        ensures FieldOf(Trace(ServerStart, t[..k])) == Some(HostField)
      {
        if k <= n { assert t[..k] == init[..k]; } else { assert t[..k] == t; }
      }
    }
  }

  lemma AuthStep(s: State, ch: Byte)
    requires s in {ServerStart, Server, ServerWithAt} && ServerByte(ch) && !(s == ServerWithAt && IsAt(ch))
    ensures UrlChar(s, ch) == (if IsAt(ch) then ServerWithAt else Server) && FieldOf(UrlChar(s, ch)) == Some(HostField)
  {
    Classes(ch);
    Delimiters(ch);
    Unspaced(ch);
    hide UserinfoByte, IsUserinfoChar, ServerByte, IsUrlChar, UrlByte, IsAlpha, IsHostChar, Letter, HostByte;
  }

  lemma Unspaced(c: Byte)
    ensures UserinfoByte(c) || c == OPEN_BRACKET || c == CLOSE_BRACKET || c == AT ==> c !in [32, 13, 10, 9, 12]
  {
  }

  /** The machine goes through the pieces of a text of this shape. */
  lemma {:induction false} OuterWalks(connect: bool, o: Outer)
    requires OuterFits(connect, o)
    ensures Walks(Start(connect), OuterPieces(o))
  {
    hide Stays, Trace, Letter, BackFits, IsAuthText;
    var s, back := Start(connect), BackPieces(o.path, o.query, o.signs, o.fragment);
    var a, b, c := Piece(o.schema, Some(SchemaField)), Piece(SLASHES[..o.colon], None), Piece(o.auth, Some(HostField));
    StaysNowhere(s, Some(SchemaField));
    StaysNowhere(s, None);
    StaysNowhere(s, Some(HostField));
    if o.schema != [] {
      SchemaLoop(o.schema);
      SlashLoop(o.colon);
      StaysNowhere(SlashState(o.colon), Some(HostField));
    }
    if o.auth != [] { AuthLoop(o.auth); }
    BackWalks(connect, o, FrontState(connect, o));
    WalkCons(Trace(Trace(s, a.text), b.text), c, back);
    WalkCons(Trace(s, a.text), b, [c] + back);
    WalkCons(s, a, [b] + ([c] + back));
    assert OuterPieces(o) == [a] + ([b] + ([c] + back));
  }

  lemma {:induction false} DistinctOuter(o: Outer)
    ensures Distinct(OuterPieces(o))
  {
    var ps := OuterPieces(o);
    Labels(ps);
  }

  /** Pieces whose fields are told apart by their ranks. */
  lemma {:induction false} Labels(ps: seq<Piece>)
    requires forall i, j :: 0 <= i < j < |ps| && ps[i].field.Some? ==> ps[i].field != ps[j].field
    ensures Distinct(ps)
    decreases |ps|
  {
    if ps != [] {
      Labels(ps[1..]);
      assert forall j :: 0 <= j < |ps[1..]| ==> ps[1..][j] == ps[j + 1];
    }
  }

  /** The fields that the URL machine finds in a text of this shape. */
  lemma {:induction false} OuterFields(connect: bool, o: Outer, fields: Fields)
    requires OuterFits(connect, o) && Split(connect, TextOf(OuterPieces(o)), fields)
    ensures fields == RunsOf(OuterPieces(o), 0)
  {
    hide OuterFits, Trace, FieldOf, OuterPieces;
    var ps, runs := OuterPieces(o), RunsOf(OuterPieces(o), 0);
    var buf := TextOf(ps);
    OuterWalks(connect, o);
    DistinctOuter(o);
    forall f, p
      ensures Marks(fields, f, p) <==> Marks(runs, f, p)
    {
      RunsMark(ps, 0, f, p);
      if 0 <= p < |buf| { WalkTells(Start(connect), ps, p); }
    }
    forall f | f in runs ensures runs[f].len > 0 { RunsLabelled(ps, 0, f); }
    SameMarks(fields, runs);
  }

  // ---- the machine of the authority ----

  /** A text that the machine of the authority has read so far. */
  datatype Inner = Inner(
    at: bool, userinfo: Bytes, parted: bool, open: bool, host: Bytes, zone: Option<Bytes>, shut: bool, colon: bool, port: Bytes)

  ghost predicate InnerFits(a: Inner) {
    && (forall i :: 0 <= i < |a.userinfo| ==> UserinfoByte(a.userinfo[i]))
    && (!a.at ==> a.userinfo == [] && !a.parted)
    && (a.at && !a.parted ==> !a.open && a.host == [])
    && (forall i :: 0 <= i < |a.host| ==> if a.open then AddressByte(a.host[i]) else HostByte(a.host[i]))
    && (a.zone.Some? ==> a.open && a.host != [] && forall i :: 0 <= i < |a.zone.value| ==> ZoneByte(a.zone.value[i]))
    && (a.shut ==> a.open && a.host != [] && (a.zone.Some? ==> a.zone.value != []))
    && (a.colon ==> a.host != [] && a.shut == a.open)
    && (a.port != [] ==> a.colon) && (forall i :: 0 <= i < |a.port| ==> Digit(a.port[i]))
  }

  function InnerState(a: Inner): HostState {
    if a.port != [] then Port
    else if a.colon then PortStart
    else if a.shut then V6End
    else if a.zone.Some? then if a.zone.value != [] then Zone else ZoneStart
    else if a.host != [] then if a.open then V6 else HostState.Host
    else if a.open then V6Start
    else if !a.at || a.parted then HostStart
    else if a.userinfo != [] then Userinfo
    else UserinfoStart
  }

  function ZoneText(zone: Option<Bytes>): Bytes {
    if zone.Some? then ['%' as int] + zone.value else []
  }

  function InnerPieces(a: Inner): seq<Piece> {
    [Piece(a.userinfo, Some(UserinfoField)), Mark("@", a.parted), Mark("[", a.open),
     Piece(a.host + ZoneText(a.zone), Some(HostField)), Mark("]", a.shut), Mark(":", a.colon), Piece(a.port, Some(PortField))]
  }

  function When(b: bool, c: Byte): Bytes { if b then [c] else [] }

  function LeftText(a: Inner): Bytes { a.userinfo + When(a.parted, AT) + When(a.open, OPEN_BRACKET) }

  function RightText(a: Inner): Bytes { When(a.shut, CLOSE_BRACKET) + When(a.colon, COLON) + a.port }

  function InnerText(a: Inner): Bytes { LeftText(a) + (a.host + ZoneText(a.zone)) + RightText(a) }

  lemma {:induction false} InnerTextIs(a: Inner)
    ensures TextOf(InnerPieces(a)) == InnerText(a)
  {
    var ps := InnerPieces(a);
    MarkText("@", a.parted);
    MarkText("[", a.open);
    MarkText("]", a.shut);
    MarkText(":", a.colon);
    hide Mark, TextOf;
    var left, mid, right := [ps[0], ps[1], ps[2]], [ps[3]], [ps[4], ps[5], ps[6]];
    assert ps == (left + mid) + right;
    TextAppend(left + mid, right);
    TextAppend(left, mid);
    FrontTextIs(ps[0], ps[1], ps[2]);
    FrontTextIs(ps[4], ps[5], ps[6]);
    TwoTexts(ps[3], ps[3]);
  }

  lemma MarkText(text: string, needed: bool)
    requires |text| == 1 && text[0] as int < 128
    ensures Mark(text, needed) == Piece(When(needed, text[0] as int), None)
  {
  }

  lemma {:induction false} InnerDelimiters(c: Byte)
    ensures UserinfoByte(c) ==> c != AT
    ensures HostByte(c) ==> c != OPEN_BRACKET && c != COLON && c != CLOSE_BRACKET
    ensures AddressByte(c) ==> c != CLOSE_BRACKET && c != PERCENT && c != OPEN_BRACKET
    ensures ZoneByte(c) ==> c != CLOSE_BRACKET
  {
  }

  /** One more byte that the machine takes. */
  lemma {:induction false} ExtendInner(a: Inner, ch: Byte) returns (r: Inner)
    requires InnerFits(a) && HostChar(InnerState(a), ch) != HostDead
    ensures InnerFits(r) && InnerState(r) == HostChar(InnerState(a), ch) && r.at == a.at
    ensures InnerText(r) == InnerText(a) + [ch]
  {
    Classes(ch);
    InnerDelimiters(ch);
    hide IsUserinfoChar, IsHostChar, IsV6Char, IsZoneChar, Http.IsDigit, UserinfoByte, HostByte, AddressByte, ZoneByte, Digit, InnerText;
    if a.port != [] || a.colon {
      r := a.(port := a.port + [ch]);
      RightGrows(a, r, ch);
    } else if a.shut || (a.host != [] && !a.open && ch == COLON) {
      r := a.(colon := true);
      RightGrows(a, r, ch);
    } else if a.open && a.host != [] && ch == CLOSE_BRACKET {
      r := a.(shut := true);
      RightGrows(a, r, ch);
    } else if a.host != [] || a.open {
      r := if a.zone.Some? then a.(zone := Some(a.zone.value + [ch]))
        else if a.open && a.host != [] && ch == PERCENT then a.(zone := Some([])) else a.(host := a.host + [ch]);
      MiddleGrows(a, r, ch);
    } else if (!a.at || a.parted) && ch != OPEN_BRACKET {
      r := a.(host := a.host + [ch]);
      MiddleGrows(a, r, ch);
    } else {
      r := if !a.at || a.parted then a.(open := true)
        else if ch == AT then a.(parted := true) else a.(userinfo := a.userinfo + [ch]);
      LeftGrows(a, r, ch);
    }
  }

  lemma {:induction false} RightGrows(a: Inner, r: Inner, ch: Byte)
    requires
      || r == a.(port := a.port + [ch])
      || (r == a.(colon := true) && !a.colon && a.port == [] && ch == COLON)
      || (r == a.(shut := true) && !a.shut && !a.colon && a.port == [] && ch == CLOSE_BRACKET)
    ensures InnerText(r) == InnerText(a) + [ch]
  {
    assert RightText(r) == RightText(a) + [ch];
    hide LeftText, RightText, ZoneText;
    var xy, z := LeftText(a) + (a.host + ZoneText(a.zone)), RightText(a);
    assert xy + (z + [ch]) == xy + z + [ch];
  }

  lemma {:induction false} MiddleGrows(a: Inner, r: Inner, ch: Byte)
    requires !a.shut && !a.colon && a.port == []
    requires
      || (a.zone.Some? && r == a.(zone := Some(a.zone.value + [ch])))
      || (r == a.(zone := Some([])) && a.zone.None? && ch == PERCENT)
      || (r == a.(host := a.host + [ch]) && a.zone.None?)
    ensures InnerText(r) == InnerText(a) + [ch]
  {
    assert RightText(r) == RightText(a) == [];
    assert r.host + ZoneText(r.zone) == a.host + ZoneText(a.zone) + [ch];
    hide LeftText, RightText, ZoneText;
  }

  lemma {:induction false} LeftGrows(a: Inner, r: Inner, ch: Byte)
    requires !a.open && a.host == [] && a.zone.None? && !a.shut && !a.colon && a.port == []
    requires
      || (r == a.(open := true) && ch == OPEN_BRACKET)
      || (r == a.(parted := true) && !a.parted && ch == AT)
      || (r == a.(userinfo := a.userinfo + [ch]) && !a.parted)
    ensures InnerText(r) == InnerText(a) + [ch]
  {
    assert RightText(r) == RightText(a) == [] && a.host + ZoneText(a.zone) == r.host + ZoneText(r.zone) == [];
    assert LeftText(r) == LeftText(a) + [ch];
    hide LeftText, RightText, ZoneText;
  }

  /** Whatever the machine takes has this shape. */
  lemma {:induction false} InnerShape(at: bool, text: Bytes) returns (a: Inner)
    requires HostTrace(HostBegin(at), text) != HostDead
    ensures InnerFits(a) && a.at == at && InnerText(a) == text && InnerState(a) == HostTrace(HostBegin(at), text)
    decreases |text|
  {
    hide InnerFits, InnerText, HostChar, InnerState;
    if text == [] {
      a := Inner(at, [], false, false, [], None, false, false, []);
      NothingInside(at);
    } else {
      var init := text[..|text| - 1];
      HostDeadStays(text[|text| - 1]);
      var q := InnerShape(at, init);
      a := ExtendInner(q, text[|text| - 1]);
      assert text == init + [text[|text| - 1]];
    }
  }

  lemma NothingInside(at: bool)
    ensures var a := Inner(at, [], false, false, [], None, false, false, []);
      InnerFits(a) && InnerText(a) == [] && InnerState(a) == HostBegin(at)
  {
  }

  lemma HostDeadStays(ch: Byte)
    ensures HostChar(HostDead, ch) == HostDead
  {
  }

  lemma {:induction false} HostTraceAppend(s: HostState, a: Bytes, b: Bytes)
    ensures HostTrace(s, a + b) == HostTrace(HostTrace(s, a), b)
    decreases |b|
  {
    hide HostChar;
    if b == [] {
      assert a + b == a;
    } else {
      var init := b[..|b| - 1];
      assert (a + b)[..|a + b| - 1] == a + init;
      HostTraceAppend(s, a, init);
    }
  }

  ghost predicate HostStays(s: HostState, text: Bytes, f: Option<Field>) {
    forall k :: 0 < k <= |text| ==> HostFieldOf(HostTrace(s, text[..k])) == f
  }

  /** Every piece leads through states of its field, to a state in which an authority may end. */
  ghost predicate HostWalks(s: HostState, ps: seq<Piece>)
    decreases |ps|
  {
    if ps == [] then EndsWell(s)
    else HostStays(s, ps[0].text, ps[0].field) && HostWalks(HostTrace(s, ps[0].text), ps[1..])
  }

  lemma {:induction false} HostWalkTells(s: HostState, ps: seq<Piece>, p: nat)
    requires HostWalks(s, ps) && p < |TextOf(ps)|
    ensures HostFieldOf(HostTrace(s, TextOf(ps)[..p + 1])) == LabelAt(ps, p)
    decreases |ps|
  {
    hide HostFieldOf, HostTrace;
    var first, rest := ps[0].text, TextOf(ps[1..]);
    if p < |first| {
      assert (first + rest)[..p + 1] == first[..p + 1];
    } else {
      HostWalkTells(HostTrace(s, first), ps[1..], p - |first|);
      assert (first + rest)[..p + 1] == first + rest[..p - |first| + 1];
      HostTraceAppend(s, first, rest[..p - |first| + 1]);
    }
  }

  lemma {:induction false} HostWalkEnds(s: HostState, ps: seq<Piece>)
    requires HostWalks(s, ps)
    ensures EndsWell(HostTrace(s, TextOf(ps)))
    decreases |ps|
  {
    if ps != [] {
      HostWalkEnds(HostTrace(s, ps[0].text), ps[1..]);
      HostTraceAppend(s, ps[0].text, TextOf(ps[1..]));
    }
  }

  lemma {:induction false} HostWalkCons(s: HostState, p: Piece, rest: seq<Piece>)
    requires HostStays(s, p.text, p.field) && HostWalks(HostTrace(s, p.text), rest)
    ensures HostWalks(s, [p] + rest)
  {
    hide HostStays, HostTrace;
    assert ([p] + rest)[1..] == rest;
  }

  lemma {:induction false} HostLoop(s: HostState, text: Bytes, t: HostState)
    requires text != [] && HostChar(s, text[0]) == t
    requires forall i :: 1 <= i < |text| ==> HostChar(t, text[i]) == t
    ensures HostTrace(s, text) == t && HostStays(s, text, HostFieldOf(t))
    decreases |text|
  {
    hide HostChar, HostFieldOf;
    var n := |text| - 1;
    var init := text[..n];
    if n == 0 {
      assert init == [] && text[..1] == text;
    } else {
      HostLoop(s, init, t);
      forall k | 0 < k <= |text|
        ensures HostFieldOf(HostTrace(s, text[..k])) == HostFieldOf(t)
      {
        if k <= n { assert init[..k] == text[..k]; } else { assert text[..k] == text; }
      }
    }
  }

  lemma {:induction false} HostStaysAppend(s: HostState, a: Bytes, b: Bytes, f: Option<Field>)
    requires HostStays(s, a, f) && HostStays(HostTrace(s, a), b, f)
    ensures HostStays(s, a + b, f)
  {
    hide HostTrace, HostFieldOf;
    forall k | 0 < k <= |a + b|
      ensures HostFieldOf(HostTrace(s, (a + b)[..k])) == f
    {
      if k <= |a| {
        assert (a + b)[..k] == a[..k];
      } else {
        assert (a + b)[..k] == a + b[..k - |a|];
        HostTraceAppend(s, a, b[..k - |a|]);
      }
    }
  }

  lemma HostStaysNowhere(s: HostState, f: Option<Field>)
    ensures HostStays(s, [], f) && HostTrace(s, []) == s
  {
  }

  // ---- the pieces of an authority ----

  lemma {:induction false} UserinfoLoop(t: Bytes)
    requires t != [] && forall i :: 0 <= i < |t| ==> UserinfoByte(t[i])
    ensures HostTrace(UserinfoStart, t) == Userinfo && HostStays(UserinfoStart, t, Some(UserinfoField))
  {
    forall i | 0 <= i < |t|
      ensures HostChar(UserinfoStart, t[i]) == Userinfo && HostChar(Userinfo, t[i]) == Userinfo
    {
      Classes(t[i]);
      InnerDelimiters(t[i]);
    }
    HostLoop(UserinfoStart, t, Userinfo);
  }

  lemma {:induction false} NameLoop(t: Bytes)
    requires t != [] && forall i :: 0 <= i < |t| ==> HostByte(t[i])
    ensures HostTrace(HostStart, t) == HostState.Host && HostStays(HostStart, t, Some(HostField))
  {
    forall i | 0 <= i < |t|
      ensures HostChar(HostStart, t[i]) == HostState.Host && HostChar(HostState.Host, t[i]) == HostState.Host
    {
      Classes(t[i]);
      InnerDelimiters(t[i]);
    }
    HostLoop(HostStart, t, HostState.Host);
  }

  lemma {:induction false} AddressLoop(t: Bytes)
    requires t != [] && forall i :: 0 <= i < |t| ==> AddressByte(t[i])
    ensures HostTrace(V6Start, t) == V6 && HostStays(V6Start, t, Some(HostField))
  {
    forall i | 0 <= i < |t|
      ensures HostChar(V6Start, t[i]) == V6 && HostChar(V6, t[i]) == V6
    {
      Classes(t[i]);
      InnerDelimiters(t[i]);
    }
    HostLoop(V6Start, t, V6);
  }

  lemma {:induction false} ZoneLoop(t: Bytes)
    requires t != [] && forall i :: 0 <= i < |t| ==> ZoneByte(t[i])
    ensures HostTrace(ZoneStart, t) == Zone && HostStays(ZoneStart, t, Some(HostField))
  {
    forall i | 0 <= i < |t|
      ensures HostChar(ZoneStart, t[i]) == Zone && HostChar(Zone, t[i]) == Zone
    {
      Classes(t[i]);
      InnerDelimiters(t[i]);
    }
    HostLoop(ZoneStart, t, Zone);
  }

  lemma {:induction false} PortLoop(t: Bytes)
    requires t != [] && forall i :: 0 <= i < |t| ==> Digit(t[i])
    ensures HostTrace(PortStart, t) == Port && HostStays(PortStart, t, Some(PortField))
  {
    forall i | 0 <= i < |t|
      ensures HostChar(PortStart, t[i]) == Port && HostChar(Port, t[i]) == Port
    {
      Classes(t[i]);
    }
    HostLoop(PortStart, t, Port);
  }

  lemma {:induction false} SignLoop(s: HostState, c: Byte, t: HostState)
    requires HostChar(s, c) == t
    ensures HostTrace(s, [c]) == t && HostStays(s, [c], HostFieldOf(t))
  {
    hide HostChar, HostFieldOf;
    HostLoop(s, [c], t);
  }

  lemma Signs()
    ensures HostChar(UserinfoStart, AT) == HostChar(Userinfo, AT) == HostStart && HostChar(HostStart, OPEN_BRACKET) == V6Start
    ensures HostChar(V6, PERCENT) == ZoneStart && HostChar(V6, CLOSE_BRACKET) == HostChar(Zone, CLOSE_BRACKET) == V6End
    ensures HostChar(HostState.Host, COLON) == HostChar(V6End, COLON) == PortStart
    ensures HostFieldOf(ZoneStart) == Some(HostField)
    ensures HostFieldOf(HostStart) == HostFieldOf(V6Start) == HostFieldOf(V6End) == HostFieldOf(PortStart) == None
    ensures EndsWell(HostState.Host) && EndsWell(V6End) && EndsWell(Port)
  {
    Classes(AT);
    Classes(COLON);
    Classes(PERCENT);
    InnerDelimiters(AT);
    InnerDelimiters(COLON);
    InnerDelimiters(CLOSE_BRACKET);
    InnerDelimiters(PERCENT);
    hide UserinfoByte, HostByte, AddressByte, ZoneByte, Digit, IsUserinfoChar, IsHostChar, IsV6Char, IsZoneChar, Http.IsDigit, UrlByte, IsUrlChar, Letter, IsAlpha;
  }

  lemma {:induction false} AddressWalk(h: UrlGrammar.Host)
    requires IsHost(h) && h.Address?
    ensures HostStays(V6Start, HostText(h), Some(HostField))
    ensures HostTrace(V6Start, HostText(h)) == if h.zone.Some? then Zone else V6
  {
    hide HostStays, HostTrace, HostChar, HostFieldOf, AddressByte, ZoneByte;
    AddressLoop(h.text);
    if h.zone.Some? {
      Signs();
      SignLoop(V6, PERCENT, ZoneStart);
      ZoneLoop(h.zone.value);
      var t := h.text + [PERCENT];
      HostTraceAppend(V6Start, h.text, [PERCENT]);
      HostStaysAppend(V6Start, h.text, [PERCENT], Some(HostField));
      HostTraceAppend(V6Start, t, h.zone.value);
      HostStaysAppend(V6Start, t, h.zone.value, Some(HostField));
      assert HostText(h) == t + h.zone.value;
    }
  }

  /** The port, or nothing. */
  lemma {:induction false} PortWalks(s: HostState, port: Option<Bytes>)
    requires s == HostState.Host || s == V6End
    requires port.Some? ==> port.value != [] && forall i :: 0 <= i < |port.value| ==> Digit(port.value[i])
    ensures HostWalks(s, [Mark(":", port.Some?)] + [Piece(OrNothing(port), Some(PortField))])
  {
    hide HostStays, HostTrace, HostChar, HostFieldOf, Digit, EndsWell;
    Signs();
    MarkText(":", port.Some?);
    hide Mark;
    HostStaysNowhere(s, None);
    HostStaysNowhere(s, Some(PortField));
    var last := Piece(OrNothing(port), Some(PortField));
    if port.Some? {
      SignLoop(s, COLON, PortStart);
      PortLoop(port.value);
    }
    var t := HostTrace(s, Mark(":", port.Some?).text);
    assert [last] + [] == [last];
    HostWalkCons(t, last, []);
    HostWalkCons(s, Mark(":", port.Some?), [last]);
  }

  lemma {:induction false} HostPartWalks(a: Authority)
    requires IsAuthority(a)
    ensures HostWalks(HostStart, AuthorityPieces(a)[2..])
  {
    hide HostStays, HostTrace, HostChar, HostFieldOf, Digit, EndsWell, HostByte, UserinfoByte;
    Signs();
    var bracket := a.host.Address?;
    MarkText("[", bracket);
    MarkText("]", bracket);
    var ps := AuthorityPieces(a);
    hide Mark;
    HostStaysNowhere(HostStart, None);
    HostStaysNowhere(HostState.Host, None);
    var after := ps[5..];
    assert after == [ps[5]] + [ps[6]];
    if bracket {
      SignLoop(HostStart, OPEN_BRACKET, V6Start);
      AddressWalk(a.host);
      SignLoop(if a.host.zone.Some? then Zone else V6, CLOSE_BRACKET, V6End);
      PortWalks(V6End, a.port);
    } else {
      NameLoop(a.host.text);
      PortWalks(HostState.Host, a.port);
    }
    var s := if bracket then V6Start else HostStart;
    HostWalkCons(HostTrace(s, ps[3].text), ps[4], after);
    HostWalkCons(s, ps[3], [ps[4]] + after);
    HostWalkCons(HostStart, ps[2], [ps[3]] + ([ps[4]] + after));
    assert ps[2..] == [ps[2]] + ([ps[3]] + ([ps[4]] + after));
  }

  /** The machine goes through the pieces of an authority. */
  lemma {:induction false} AuthorityWalks(a: Authority)
    requires IsAuthority(a)
    ensures HostWalks(HostBegin(a.userinfo.Some?), AuthorityPieces(a))
  {
    hide HostStays, HostTrace, HostChar, HostFieldOf, Digit, EndsWell, UserinfoByte;
    Signs();
    HostPartWalks(a);
    var s := HostBegin(a.userinfo.Some?);
    MarkText("@", a.userinfo.Some?);
    var ps := AuthorityPieces(a);
    hide Mark, IsHost;
    HostStaysNowhere(s, None);
    HostStaysNowhere(s, Some(UserinfoField));
    if a.userinfo.Some? {
      SignLoop(UserinfoStart, AT, HostStart);
      SignLoop(Userinfo, AT, HostStart);
      if a.userinfo.value != [] { UserinfoLoop(a.userinfo.value); }
    }
    HostWalkCons(HostTrace(s, ps[0].text), ps[1], ps[2..]);
    HostWalkCons(s, ps[0], [ps[1]] + ps[2..]);
    assert ps == [ps[0]] + ([ps[1]] + ps[2..]);
  }

  /** A text that the machine takes to its end is an authority. */
  lemma {:induction false} AuthorityShape(at: bool, text: Bytes) returns (a: Authority)
    requires EndsWell(HostTrace(HostBegin(at), text))
    ensures IsAuthority(a) && TextOf(AuthorityPieces(a)) == text
  {
    hide HostTrace, InnerText, TextOf, InnerFits, InnerState, EndsWell, IsAuthority, AuthorityPieces, InnerPieces;
    DeadIsNoEnd();
    var i := InnerShape(at, text);
    InnerTextIs(i);
    a := AuthorityFrom(i);
  }

  lemma {:induction false} AuthorityFrom(i: Inner) returns (a: Authority)
    requires InnerFits(i) && EndsWell(InnerState(i))
    ensures IsAuthority(a) && AuthorityPieces(a) == InnerPieces(i)
  {
    hide UserinfoByte, HostByte, AddressByte, ZoneByte, Digit, Mark;
    a := Authority(
      if i.at then Some(i.userinfo) else None,
      if i.open then Address(i.host, i.zone) else Name(i.host),
      if i.colon then Some(i.port) else None);
    assert HostText(a.host) == i.host + ZoneText(i.zone);
  }

  // ---- the text of an authority ----

  ghost predicate NoAt(t: Bytes) {
    forall i :: 0 <= i < |t| ==> ServerByte(t[i]) && !IsAt(t[i])
  }

  lemma {:induction false} PlainBytes(c: Byte)
    ensures UserinfoByte(c) || HostByte(c) || AddressByte(c) || ZoneByte(c) || Digit(c) ==> ServerByte(c) && !IsAt(c)
    ensures ServerByte(PERCENT) && ServerByte(OPEN_BRACKET) && ServerByte(CLOSE_BRACKET) && ServerByte(COLON) && ServerByte(AT)
  {
  }

  lemma {:induction false} PlainText(t: Bytes)
    requires forall i :: 0 <= i < |t| ==>
      UserinfoByte(t[i]) || HostByte(t[i]) || AddressByte(t[i]) || ZoneByte(t[i]) || Digit(t[i])
    ensures NoAt(t)
  {
    hide UserinfoByte, HostByte, AddressByte, ZoneByte, Digit, ServerByte;
    forall i | 0 <= i < |t| ensures ServerByte(t[i]) && !IsAt(t[i]) { PlainBytes(t[i]); }
  }

  lemma {:induction false} PlainJoin(a: Bytes, b: Bytes)
    requires NoAt(a) && NoAt(b)
    ensures NoAt(a + b)
  {
    hide ServerByte, IsAt;
  }

  lemma {:induction false} PlainSign(b: bool, c: Byte)
    requires c in {PERCENT, OPEN_BRACKET, CLOSE_BRACKET, COLON}
    ensures NoAt(When(b, c))
  {
    PlainBytes(c);
  }

  lemma {:induction false} HostPlain(h: UrlGrammar.Host)
    requires IsHost(h)
    ensures NoAt(HostText(h)) && HostText(h) != []
  {
    hide UserinfoByte, HostByte, AddressByte, ZoneByte, Digit, ServerByte, NoAt;
    PlainText(h.text);
    if h.Address? && h.zone.Some? {
      PlainText(h.zone.value);
      PlainSign(true, PERCENT);
      PlainJoin(h.text, [PERCENT]);
      PlainJoin(h.text + [PERCENT], h.zone.value);
    }
  }

  lemma {:induction false} AuthorityText(a: Authority) returns (rest: Bytes)
    requires IsAuthority(a)
    ensures TextOf(AuthorityPieces(a)) == OrNothing(a.userinfo) + When(a.userinfo.Some?, AT) + rest
    ensures NoAt(OrNothing(a.userinfo)) && NoAt(rest) && rest != []
  {
    hide IsHost, UserinfoByte, Digit, NoAt, TextOf;
    var bracket := a.host.Address?;
    MarkText("@", a.userinfo.Some?);
    MarkText("[", bracket);
    MarkText("]", bracket);
    MarkText(":", a.port.Some?);
    PlainText(OrNothing(a.userinfo));
    PlainText(OrNothing(a.port));
    HostPlain(a.host);
    var ps := AuthorityPieces(a);
    hide Mark;
    rest := HostPartText(bracket, HostText(a.host), a.port.Some?, OrNothing(a.port));
    AuthorityTexts(ps);
  }

  lemma {:induction false} HostPartText(bracket: bool, host: Bytes, colon: bool, port: Bytes) returns (rest: Bytes)
    requires NoAt(host) && NoAt(port) && host != []
    ensures rest == When(bracket, OPEN_BRACKET) + host + (When(bracket, CLOSE_BRACKET) + When(colon, COLON) + port)
    ensures NoAt(rest) && rest != []
  {
    hide NoAt;
    PlainSign(bracket, OPEN_BRACKET);
    PlainSign(bracket, CLOSE_BRACKET);
    PlainSign(colon, COLON);
    hide When;
    PlainJoin(When(bracket, OPEN_BRACKET), host);
    PlainJoin(When(bracket, CLOSE_BRACKET), When(colon, COLON));
    PlainJoin(When(bracket, CLOSE_BRACKET) + When(colon, COLON), port);
    rest := When(bracket, OPEN_BRACKET) + host + (When(bracket, CLOSE_BRACKET) + When(colon, COLON) + port);
    PlainJoin(When(bracket, OPEN_BRACKET) + host, When(bracket, CLOSE_BRACKET) + When(colon, COLON) + port);
  }

  lemma {:induction false} AuthorityTexts(ps: seq<Piece>)
    requires |ps| == 7
    ensures TextOf(ps) == ps[0].text + ps[1].text + (ps[2].text + ps[3].text + (ps[4].text + ps[5].text + ps[6].text))
  {
    hide TextOf;
    assert ps == [ps[0], ps[1]] + ([ps[2], ps[3]] + [ps[4], ps[5], ps[6]]);
    TextAppend([ps[0], ps[1]], [ps[2], ps[3]] + [ps[4], ps[5], ps[6]]);
    TextAppend([ps[2], ps[3]], [ps[4], ps[5], ps[6]]);
    TwoTexts(ps[0], ps[1]);
    TwoTexts(ps[2], ps[3]);
    FrontTextIs(ps[4], ps[5], ps[6]);
  }

  lemma {:induction false} AuthorityTextFits(a: Authority)
    requires IsAuthority(a)
    ensures var t := TextOf(AuthorityPieces(a));
      IsAuthText(t) && t != [] && (AT in t <==> a.userinfo.Some?)
  {
    hide NoAt, TextOf, AuthorityPieces, IsAuthText;
    var rest := AuthorityText(a);
    OneAt(OrNothing(a.userinfo), a.userinfo.Some?, rest);
  }

  lemma {:induction false} OneAt(u: Bytes, b: bool, rest: Bytes)
    requires NoAt(u) && NoAt(rest) && rest != []
    ensures var t := u + When(b, AT) + rest;
      IsAuthText(t) && t != [] && (AT in t <==> b)
  {
    var t := u + When(b, AT) + rest;
    forall i | 0 <= i < |t|
      ensures ServerByte(t[i]) && (IsAt(t[i]) <==> b && i == |u|)
    {
      AtAlone(u, b, rest, i);
    }
    hide ServerByte, NoAt;
    if b { assert t[|u|] == AT; }
  }

  lemma {:induction false} AtAlone(u: Bytes, b: bool, rest: Bytes, i: nat)
    requires NoAt(u) && NoAt(rest) && i < |u + When(b, AT) + rest|
    ensures var t := u + When(b, AT) + rest;
      ServerByte(t[i]) && (IsAt(t[i]) <==> b && i == |u|)
  {
    PlainBytes(AT);
    hide ServerByte;
    var t, k := u + When(b, AT) + rest, |u + When(b, AT)|;
    if i < |u| {
      assert t[i] == u[i];
    } else if i < k {
      assert t[i] == AT;
    } else {
      assert t[i] == rest[i - k];
    }
  }

  // ---- from a URL to what the URL machine sees ----

  function AuthTextOf(u: Url): Bytes {
    if u.authority.Some? then TextOf(AuthorityPieces(u.authority.value)) else []
  }

  function OuterOf(u: Url): Outer {
    Outer(u.schema, if u.schema != [] then 3 else 0, AuthTextOf(u), u.path, u.query, u.signs, u.fragment)
  }

  lemma {:induction false} UrlFits(connect: bool, u: Url)
    requires IsUrl(connect, u)
    ensures OuterFits(connect, OuterOf(u))
    ensures u.authority.Some? <==> AuthTextOf(u) != []
  {
    hide AuthorityPieces, TextOf, IsAuthority, Letter, UrlByte, QueryByte, FragmentByte, ServerByte;
    if u.authority.Some? { AuthorityTextFits(u.authority.value); }
  }

  lemma {:induction false} SlashesMark(b: bool)
    ensures Mark("://", b) == Piece(SLASHES[..if b then 3 else 0], None)
  {
    if b { assert Mark("://", b).text == SLASHES[..3]; }
  }

  /** The pieces of a URL and what the URL machine sees differ in the authority alone. */
  lemma {:induction false} PiecesMeet(u: Url)
    ensures var inner := if u.authority.Some? then AuthorityPieces(u.authority.value) else [];
      var back := BackPieces(u.path, u.query, u.signs, u.fragment);
      && PiecesOf(u) == FrontPieces(u) + inner + back
      && OuterPieces(OuterOf(u)) == FrontPieces(u) + [Piece(AuthTextOf(u), Some(HostField))] + back
      && TextOf(inner) == AuthTextOf(u)
      && TextOf(PiecesOf(u)) == TextOf(OuterPieces(OuterOf(u)))
  {
    hide AuthorityPieces, BackPieces, Mark;
    var inner := if u.authority.Some? then AuthorityPieces(u.authority.value) else [];
    var front, back, one := FrontPieces(u), BackPieces(u.path, u.query, u.signs, u.fragment), Piece(AuthTextOf(u), Some(HostField));
    SlashesMark(u.schema != []);
    hide TextOf;
    NoPieces();
    TextAppend(front + inner, back);
    TextAppend(front, inner);
    TextAppend(front + [one], back);
    TextAppend(front, [one]);
    TwoTexts(one, one);
    assert OuterPieces(OuterOf(u)) == front + [one] + back;
  }

  lemma NoPieces()
    ensures TextOf([]) == []
  {
  }

  /** The label of a byte of a URL: a part of the authority inside it, else what the URL machine says. */
  lemma {:induction false} LabelsMeet(u: Url, p: nat)
    ensures var a, n := |TextOf(FrontPieces(u))|, |AuthTextOf(u)|;
      if a <= p < a + n then
        && u.authority.Some? && LabelAt(PiecesOf(u), p) == LabelAt(AuthorityPieces(u.authority.value), p - a)
        && LabelAt(OuterPieces(OuterOf(u)), p) == Some(HostField)
        && (LabelAt(PiecesOf(u), p).Some? ==> OfAuthority(LabelAt(PiecesOf(u), p).value))
      else
        && LabelAt(PiecesOf(u), p) == LabelAt(OuterPieces(OuterOf(u)), p)
        && (LabelAt(PiecesOf(u), p).Some? ==> !OfAuthority(LabelAt(PiecesOf(u), p).value))
  {
    PiecesMeet(u);
    OutsideLabels(u, p);
    if u.authority.Some? { InsideLabels(u.authority.value, p - |TextOf(FrontPieces(u))|); }
    var front, back, one := FrontPieces(u), BackPieces(u.path, u.query, u.signs, u.fragment), Piece(AuthTextOf(u), Some(HostField));
    var inner := if u.authority.Some? then AuthorityPieces(u.authority.value) else [];
    hide AuthorityPieces, BackPieces, FrontPieces, TextOf, OuterPieces, PiecesOf, LabelAt, OfAuthority;
    NoPieces();
    LabelAppend(front + inner, back, p);
    LabelAppend(front, inner, p);
    TextAppend(front, inner);
    LabelAppend(front + [one], back, p);
    LabelAppend(front, [one], p);
    TextAppend(front, [one]);
    TwoTexts(one, one);
    OneLabel(one, p - |TextOf(front)|);
  }

  lemma {:induction false} OneLabel(one: Piece, p: int)
    ensures p < |one.text| ==> LabelAt([one], p) == one.field
  {
  }

  lemma {:induction false} InsideLabels(a: Authority, p: int)
    ensures var l := LabelAt(AuthorityPieces(a), p); l.Some? ==> OfAuthority(l.value)
  {
    var l := LabelAt(AuthorityPieces(a), p);
    hide LabelAt;
    if l.Some? { LabelIsLabelled(AuthorityPieces(a), p, l.value); }
  }

  lemma {:induction false} OutsideLabels(u: Url, p: int)
    ensures LabelAt(FrontPieces(u), p).Some? ==> !OfAuthority(LabelAt(FrontPieces(u), p).value)
    ensures forall q :: var l := LabelAt(BackPieces(u.path, u.query, u.signs, u.fragment), q); l.Some? ==> !OfAuthority(l.value)
  {
    forall f, q | LabelAt(FrontPieces(u), q) == Some(f) ensures !OfAuthority(f) { LabelIsLabelled(FrontPieces(u), q, f); }
    forall f, q | LabelAt(BackPieces(u.path, u.query, u.signs, u.fragment), q) == Some(f) ensures !OfAuthority(f) {
      LabelIsLabelled(BackPieces(u.path, u.query, u.signs, u.fragment), q, f);
    }
  }

  // ---- the fields of a URL ----

  function FieldText(u: Url, f: Field): Bytes {
    match f
    case SchemaField => u.schema
    case UserinfoField => if u.authority.Some? then OrNothing(u.authority.value.userinfo) else []
    case HostField => if u.authority.Some? then HostText(u.authority.value.host) else []
    case PortField => if u.authority.Some? then OrNothing(u.authority.value.port) else []
    case PathField => u.path
    case QueryField => OrNothing(u.query)
    case FragmentField => u.fragment
  }

  ghost predicate FieldsIn(ps: seq<Piece>, fs: set<Field>) {
    forall i :: 0 <= i < |ps| && ps[i].field.Some? ==> ps[i].field.value in fs
  }

  lemma {:induction false} DistinctJoin(a: seq<Piece>, b: seq<Piece>, fs: set<Field>, gs: set<Field>)
    requires Distinct(a) && Distinct(b) && FieldsIn(a, fs) && FieldsIn(b, gs) && fs !! gs
    ensures Distinct(a + b) && FieldsIn(a + b, fs + gs)
    decreases |a|
  {
    if a == [] {
      assert a + b == b;
    } else {
      var rest := a[1..];
      assert (a + b)[1..] == rest + b;
      DistinctJoin(rest, b, fs, gs);
      if a[0].field.Some? {
        forall i | 0 <= i < |rest + b|
          ensures (rest + b)[i].field != a[0].field
        {
          if i < |rest| { assert (rest + b)[i] == rest[i] == a[i + 1]; } else { assert (rest + b)[i] == b[i - |rest|]; }
        }
      }
    }
  }

  lemma {:induction false} DistinctUrl(u: Url)
    ensures Distinct(PiecesOf(u))
  {
    var front, back := FrontPieces(u), BackPieces(u.path, u.query, u.signs, u.fragment);
    var inner := if u.authority.Some? then AuthorityPieces(u.authority.value) else [];
    DistinctParts(u);
    hide Distinct, FieldsIn, FrontPieces, BackPieces, AuthorityPieces;
    DistinctJoin(front, inner, {SchemaField}, {UserinfoField, HostField, PortField});
    DistinctJoin(front + inner, back, {SchemaField} + {UserinfoField, HostField, PortField}, {PathField, QueryField, FragmentField});
  }

  lemma {:induction false} DistinctParts(u: Url)
    ensures Distinct(FrontPieces(u)) && FieldsIn(FrontPieces(u), {SchemaField})
    ensures var inner := if u.authority.Some? then AuthorityPieces(u.authority.value) else [];
      Distinct(inner) && FieldsIn(inner, {UserinfoField, HostField, PortField})
    ensures var back := BackPieces(u.path, u.query, u.signs, u.fragment);
      Distinct(back) && FieldsIn(back, {PathField, QueryField, FragmentField})
  {
    hide Mark, HostText, OrNothing, Distinct, FieldsIn, FrontPieces, BackPieces, AuthorityPieces;
    FrontDistinct(u);
    BackDistinct(u.path, u.query, u.signs, u.fragment);
    if u.authority.Some? { InnerDistinct(u.authority.value); } else { NothingDistinct(); }
  }

  lemma {:induction false} FrontDistinct(u: Url)
    ensures Distinct(FrontPieces(u)) && FieldsIn(FrontPieces(u), {SchemaField})
  {
    assert FrontPieces(u)[1].field == None;
    hide Mark, Distinct;
    Labels(FrontPieces(u));
  }

  lemma {:induction false} BackDistinct(path: Bytes, query: Option<Bytes>, signs: nat, fragment: Bytes)
    ensures var back := BackPieces(path, query, signs, fragment);
      Distinct(back) && FieldsIn(back, {PathField, QueryField, FragmentField})
  {
    MarkIsNoField("?", query.Some?);
    hide Mark, OrNothing, Distinct;
    Labels(BackPieces(path, query, signs, fragment));
  }

  lemma {:induction false} InnerDistinct(a: Authority)
    ensures Distinct(AuthorityPieces(a)) && FieldsIn(AuthorityPieces(a), {UserinfoField, HostField, PortField})
  {
    MarkIsNoField("@", a.userinfo.Some?);
    MarkIsNoField("[", a.host.Address?);
    MarkIsNoField("]", a.host.Address?);
    MarkIsNoField(":", a.port.Some?);
    hide Mark, HostText, OrNothing, Distinct;
    Labels(AuthorityPieces(a));
  }

  lemma MarkIsNoField(text: string, needed: bool)
    requires |text| == 1 && text[0] as int < 128
    ensures Mark(text, needed).field == None
  {
  }

  lemma NothingDistinct()
    ensures Distinct([]) && forall fs :: FieldsIn([], fs)
  {
  }

  lemma {:induction false} FieldIs(u: Url, f: Field)
    ensures var buf, runs := TextOf(PiecesOf(u)), RunsOf(PiecesOf(u), 0);
      && (f in runs <==> FieldText(u, f) != [])
      && (f in runs ==> runs[f].off + runs[f].len <= |buf| && Text(buf, runs[f]) == FieldText(u, f))
  {
    DistinctUrl(u);
    var ps := PiecesOf(u);
    hide TextOf, RunsOf, Distinct;
    if u.authority.None? && OfAuthority(f) {
      RunsLabelled(ps, 0, f);
    } else {
      var i := PieceOf(u, f);
      hide PiecesOf;
      RunIs(ps, 0, i);
    }
  }

  lemma {:induction false} PieceOf(u: Url, f: Field) returns (i: nat)
    requires u.authority.Some? || !OfAuthority(f)
    ensures i < |PiecesOf(u)| && PiecesOf(u)[i] == Piece(FieldText(u, f), Some(f))
  {
    var front, back := FrontPieces(u), BackPieces(u.path, u.query, u.signs, u.fragment);
    var inner := if u.authority.Some? then AuthorityPieces(u.authority.value) else [];
    assert PiecesOf(u) == front + inner + back;
    hide PiecesOf;
    if f.SchemaField? {
      i := 0;
    } else if OfAuthority(f) {
      var j := if f.UserinfoField? then 0 else if f.HostField? then 3 else 6;
      assert inner[j] == Piece(FieldText(u, f), Some(f));
      hide BackPieces, AuthorityPieces;
      i := 2 + j;
      assert (front + inner + back)[i] == inner[j];
    } else {
      var j := if f.PathField? then 0 else if f.QueryField? then 2 else 4;
      assert back[j] == Piece(FieldText(u, f), Some(f));
      hide BackPieces, AuthorityPieces;
      i := |front + inner| + j;
      assert (front + inner + back)[i] == back[j];
    }
  }

  /** The URL machine sees the schema, and the authority where there is one. */
  lemma {:induction false} OuterHost(u: Url)
    ensures var buf, o, runs := TextOf(PiecesOf(u)), OuterOf(u), RunsOf(OuterPieces(OuterOf(u)), 0);
      && (SchemaField in runs <==> u.schema != []) && (HostField in runs <==> AuthTextOf(u) != [])
      && (HostField in runs ==>
            && runs[HostField].off == |TextOf(FrontPieces(u))| && runs[HostField].len == |AuthTextOf(u)|
            && Text(buf, runs[HostField]) == AuthTextOf(u))
  {
    PiecesMeet(u);
    hide TextOf, Distinct, OuterPieces, PiecesOf, AuthTextOf, FrontPieces, BackPieces, AuthorityPieces, RunsOf;
    OuterRuns(OuterOf(u));
    if HostField in RunsOf(OuterPieces(OuterOf(u)), 0) { HostOffset(u); }
  }

  lemma {:induction false} HostOffset(u: Url)
    requires HostField in RunsOf(OuterPieces(OuterOf(u)), 0)
    ensures var run := RunsOf(OuterPieces(OuterOf(u)), 0)[HostField];
      run.off == |TextOf(FrontPieces(u))| && run.len == |AuthTextOf(u)|
  {
    var ps := OuterPieces(OuterOf(u));
    var runs, a, n := RunsOf(ps, 0), |TextOf(FrontPieces(u))|, |AuthTextOf(u)|;
    DistinctOuter(OuterOf(u));
    PiecesMeet(u);
    RunsLabelled(ps, 0, HostField);
    hide TextOf, OuterPieces, PiecesOf, AuthTextOf, FrontPieces, LabelAt, RunsOf, BackPieces, AuthorityPieces;
    forall p
      ensures Marks(runs, HostField, p) <==> a <= p < a + n
    {
      RunsMark(ps, 0, HostField, p);
      if p >= 0 { LabelsMeet(u, p); }
      HostInside(u);
    }
    var r := runs[HostField];
    assert Marks(runs, HostField, r.off) && Marks(runs, HostField, r.off + r.len - 1);
    assert !Marks(runs, HostField, r.off - 1) && !Marks(runs, HostField, r.off + r.len);
  }

  lemma {:induction false} HostInside(u: Url)
    ensures |TextOf(FrontPieces(u))| + |AuthTextOf(u)| <= |TextOf(OuterPieces(OuterOf(u)))|
  {
    PiecesMeet(u);
    var front, back, one := FrontPieces(u), BackPieces(u.path, u.query, u.signs, u.fragment), Piece(AuthTextOf(u), Some(HostField));
    hide TextOf, OuterPieces, FrontPieces, BackPieces, AuthTextOf;
    TextAppend(front + [one], back);
    TextAppend(front, [one]);
    TwoTexts(one, one);
  }

  /** The parser takes the text of a URL, up to the port. */
  lemma {:induction false} UrlPasses(connect: bool, u: Url, outer: Fields)
    requires IsUrl(connect, u) && Split(connect, TextOf(PiecesOf(u)), outer)
    ensures outer == RunsOf(OuterPieces(OuterOf(u)), 0) && Passes(connect, TextOf(PiecesOf(u)), outer)
    ensures u.authority.Some? ==>
      HostField in outer && AuthorityBegin(TextOf(PiecesOf(u)), outer) == HostBegin(u.authority.value.userinfo.Some?)
  {
    hide TextOf, PiecesOf, OuterPieces, Split, Trace, HostTrace, OuterFits, OuterOf, AuthorityPieces, RunsOf, IsAuthority, Walks, HostWalks, EndsWell;
    UrlFits(connect, u);
    PiecesMeet(u);
    OuterFields(connect, OuterOf(u), outer);
    OuterWalks(connect, OuterOf(u));
    WalkLives(Start(connect), OuterPieces(OuterOf(u)));
    OuterHost(u);
    if u.authority.Some? {
      AuthorityTextFits(u.authority.value);
      AuthorityWalks(u.authority.value);
      HostWalkEnds(HostBegin(u.authority.value.userinfo.Some?), AuthorityPieces(u.authority.value));
    }
  }

  /** And finds its fields. */
  lemma {:induction false} UrlFields(connect: bool, u: Url, outer: Fields, fields: Fields)
    requires IsUrl(connect, u) && Located(connect, TextOf(PiecesOf(u)), outer, fields)
    ensures fields == RunsOf(PiecesOf(u), 0)
  {
    hide TextOf, PiecesOf, RunsOf, IsUrl, Split, HostSplit;
    var runs := RunsOf(PiecesOf(u), 0);
    forall f, p
      ensures Marks(fields, f, p) <==> Marks(runs, f, p)
    {
      SameMark(connect, u, outer, fields, f, p);
    }
    forall f | f in runs ensures runs[f].len > 0 { RunsLabelled(PiecesOf(u), 0, f); }
    SameMarks(fields, runs);
  }

  lemma {:induction false} SameMark(connect: bool, u: Url, outer: Fields, fields: Fields, f: Field, p: int)
    requires IsUrl(connect, u) && Located(connect, TextOf(PiecesOf(u)), outer, fields)
    ensures Marks(fields, f, p) <==> Marks(RunsOf(PiecesOf(u), 0), f, p)
  {
    hide TextOf, PiecesOf, RunsOf, IsUrl, Located, LabelAt, Distinct;
    DistinctUrl(u);
    RunsMark(PiecesOf(u), 0, f, p);
    if 0 <= p < |TextOf(PiecesOf(u))| {
      FieldMarked(connect, u, outer, fields, f, p);
    } else if Marks(fields, f, p) {
      LocatedInside(connect, TextOf(PiecesOf(u)), outer, fields, f);
    }
  }

  lemma {:induction false} FieldMarked(connect: bool, u: Url, outer: Fields, fields: Fields, f: Field, p: nat)
    requires IsUrl(connect, u) && Located(connect, TextOf(PiecesOf(u)), outer, fields) && p < |TextOf(PiecesOf(u))|
    ensures Marks(fields, f, p) <==> LabelAt(PiecesOf(u), p) == Some(f)
  {
    var buf, ps := TextOf(PiecesOf(u)), OuterPieces(OuterOf(u));
    hide TextOf, PiecesOf, OuterPieces, HostSplit, OuterOf, AuthorityPieces, RunsOf, OuterFits, AuthTextOf, FrontPieces, Passes, LabelAt, Trace, IsAuthority, Distinct;
    UrlPasses(connect, u, outer);
    UrlFits(connect, u);
    OuterHost(u);
    DistinctOuter(OuterOf(u));
    PiecesMeet(u);
    LabelsMeet(u, p);
    RunsMark(ps, 0, f, p);
    if HostField in outer {
      PartMarked(u.authority.value, outer[HostField].off, outer, fields, f, p);
    }
  }

  lemma {:induction false} PartMarked(v: Authority, a: nat, outer: Fields, fields: Fields, f: Field, p: nat)
    requires IsAuthority(v) && HostSplit(HostBegin(v.userinfo.Some?), a, TextOf(AuthorityPieces(v)), outer, fields)
    ensures
      if !OfAuthority(f) then Marks(fields, f, p) <==> Marks(outer, f, p)
      else Marks(fields, f, p) <==> a <= p < a + |TextOf(AuthorityPieces(v))| && LabelAt(AuthorityPieces(v), p - a) == Some(f)
  {
    hide *;
    var s, ps := HostBegin(v.userinfo.Some?), AuthorityPieces(v);
    AuthorityWalks(v);
    SplitTells(s, a, TextOf(ps), outer, fields, f, p);
    if a <= p < a + |TextOf(ps)| {
      HostWalkTells(s, ps, p - a);
    }
  }

  lemma {:induction false} SplitTells(s: HostState, a: nat, text: Bytes, outer: Fields, fields: Fields, f: Field, p: nat)
    requires HostSplit(s, a, text, outer, fields)
    ensures !OfAuthority(f) ==> (Marks(fields, f, p) <==> Marks(outer, f, p))
    ensures OfAuthority(f) ==>
      (Marks(fields, f, p) <==> a <= p < a + |text| && HostFieldOf(HostTrace(s, text[..p - a + 1])) == Some(f))
  {
    hide HostTrace, HostFieldOf;
  }

  /** Whatever the parser takes is a URL. */
  lemma {:induction false} PassesUrl(connect: bool, buf: Bytes, outer: Fields) returns (u: Url)
    requires Passes(connect, buf, outer) && Split(connect, buf, outer)
    ensures IsUrl(connect, u) && TextOf(PiecesOf(u)) == buf
  {
    hide TextOf, PiecesOf, OuterPieces, Split, Trace, HostTrace, AuthorityPieces, RunsOf, IsAuthority, EndsWell, Letter, UrlByte, QueryByte, FragmentByte;
    var o := OuterShape(connect, buf);
    OuterFields(connect, o, outer);
    OuterRuns(o);
    var authority: Option<Authority> := None;
    if HostField in outer {
      var a := AuthorityShape(AT in Text(buf, outer[HostField]), Text(buf, outer[HostField]));
      authority := Some(a);
    }
    u := Url(o.schema, authority, o.path, o.query, o.signs, o.fragment);
    PiecesMeet(u);
    assert OuterOf(u) == o;
  }

  lemma {:induction false} OuterRuns(o: Outer)
    ensures var buf, runs := TextOf(OuterPieces(o)), RunsOf(OuterPieces(o), 0);
      && (SchemaField in runs <==> o.schema != []) && (HostField in runs <==> o.auth != [])
      && (HostField in runs ==> Text(buf, runs[HostField]) == o.auth)
  {
    hide BackPieces, TextOf, Distinct, RunsOf;
    var ps := OuterPieces(o);
    assert ps[0] == Piece(o.schema, Some(SchemaField)) && ps[2] == Piece(o.auth, Some(HostField));
    DistinctOuter(o);
    hide OuterPieces;
    RunIs(ps, 0, 0);
    RunIs(ps, 0, 2);
  }

  // ---- the parser ----

  /** What the last tests of the parser come to. */
  lemma {:induction false} LastTests(connect: bool, u: Url, fields: Fields)
    requires IsUrl(connect, u) && fields == RunsOf(PiecesOf(u), 0)
    ensures (connect ==> fields.Keys == {HostField, PortField}) <==> Admitted(connect, u)
    ensures forall n :: PortIs(u, n) <==> n == PortValue(TextOf(PiecesOf(u)), fields)
  {
    hide PiecesOf, RunsOf, TextOf, Spells;
    forall f: Field
      ensures f in fields <==> FieldText(u, f) != []
    {
      FieldIs(u, f);
    }
    if u.authority.Some? { HostPlain(u.authority.value.host); }
    assert fields.Keys == {HostField, PortField} <==> forall f: Field :: FieldText(u, f) != [] <==> f == HostField || f == PortField;
    if connect { OnlyHostAndPort(u); }
    FieldIs(u, PortField);
    PortSpelled(u, TextOf(PiecesOf(u)), fields);
  }

  lemma {:induction false} OnlyHostAndPort(u: Url)
    requires u.authority.Some? ==> HostText(u.authority.value.host) != []
    requires u.authority.Some? && u.authority.value.port.Some? ==> u.authority.value.port.value != []
    requires u.schema == []
    ensures Admitted(true, u) <==> forall f: Field :: FieldText(u, f) != [] <==> f == HostField || f == PortField
  {
    if forall f: Field :: FieldText(u, f) != [] <==> f == HostField || f == PortField {
      assert FieldText(u, HostField) != [] && FieldText(u, PortField) != [] && FieldText(u, UserinfoField) == [];
      assert FieldText(u, PathField) == [] && FieldText(u, QueryField) == [] && FieldText(u, FragmentField) == [];
    }
  }

  lemma {:induction false} PortSpelled(u: Url, buf: Bytes, fields: Fields)
    requires PortField in fields <==> FieldText(u, PortField) != []
    requires PortField in fields ==> Text(buf, fields[PortField]) == FieldText(u, PortField)
    requires u.authority.Some? && u.authority.value.port.Some? ==>
      u.authority.value.port.value != [] && forall i :: 0 <= i < |u.authority.value.port.value| ==> Digit(u.authority.value.port.value[i])
    ensures forall n :: PortIs(u, n) <==> n == PortValue(buf, fields)
  {
    hide Spells;
    if u.authority.Some? && u.authority.value.port.Some? {
      var ds := u.authority.value.port.value;
      assert Http.Decimal(ds) by {
        forall i | 0 <= i < |ds| ensures Http.IsDigit(ds[i]) { Classes(ds[i]); }
      }
      forall n ensures PortIs(u, n) <==> n == PortValue(buf, fields) { Http.ValueSpelled(ds, n); }
    }
  }

  /**
   Parses a URL of at most 65535 bytes, whose offsets and lengths fit into 16 bits: exactly the texts of
   the grammar are taken, and the fields are the runs of the pieces.
   */
  method ParseUrl(buf: Bytes, connect: bool) returns (ok: bool, fields: Fields, port: nat)
    requires |buf| <= 0xffff
    ensures ok ==> exists u :: Reads(connect, buf, u, port)
    ensures forall u, n :: Reads(connect, buf, u, n) ==> ok && fields == RunsOf(PiecesOf(u), 0) && port == n
  {
    hide Trace, HostTrace, Split, HostSplit, IsUrl, PiecesOf, RunsOf, TextOf, Admitted, PortIs, PortValue;
    port := 0;
    var foundAt;
    ok, fields, foundAt := ScanUrl(buf, connect);
    ghost var outer := fields;
    if !ok {
      forall u, n ensures !Reads(connect, buf, u, n) { NotAlive(connect, buf, u, n); }
      return;
    }
    NoParts(connect, buf, outer);
    if SchemaField in fields && HostField !in fields {
      forall u, n ensures !Reads(connect, buf, u, n) { NotPassed(connect, buf, outer, u, n); }
      return false, fields, port;
    }
    if HostField in fields {
      SplitInside(connect, buf, outer, HostField);
      SawAtIs(connect, buf, outer);
      ok, fields := ParseHost(buf, fields, foundAt);
      if !ok {
        forall u, n ensures !Reads(connect, buf, u, n) { NotPassed(connect, buf, outer, u, n); }
        return;
      }
    }
    assert Located(connect, buf, outer, fields) && Passes(connect, buf, outer);
    Settled(connect, buf, outer, fields);
    if connect && fields.Keys != {HostField, PortField} { return false, fields, port; }
    NoPort(buf, fields);
    if PortField in fields {
      LocatedInside(connect, buf, outer, fields, PortField);
      PortText(buf, fields);
      ok, port := ReadPort(Text(buf, fields[PortField]));
    }
  }

  lemma NoPort(buf: Bytes, fields: Fields)
    ensures PortField !in fields ==> PortValue(buf, fields) == 0
  {
  }

  lemma PortText(buf: Bytes, fields: Fields)
    requires PortField in fields && Http.Decimal(Text(buf, fields[PortField]))
    ensures PortValue(buf, fields) == Http.Value(Text(buf, fields[PortField]))
  {
  }

  lemma {:induction false} NotAlive(connect: bool, buf: Bytes, u: Url, n: nat)
    requires Trace(Start(connect), buf) == Dead
    ensures !Reads(connect, buf, u, n)
  {
    hide Trace, IsUrl, PiecesOf, TextOf, Admitted, PortIs, OuterPieces, OuterFits, Walks;
    if Reads(connect, buf, u, n) {
      UrlFits(connect, u);
      PiecesMeet(u);
      OuterWalks(connect, OuterOf(u));
      WalkLives(Start(connect), OuterPieces(OuterOf(u)));
      assert false;
    }
  }

  lemma {:induction false} NotPassed(connect: bool, buf: Bytes, outer: Fields, u: Url, n: nat)
    requires Split(connect, buf, outer) && !Passes(connect, buf, outer)
    ensures !Reads(connect, buf, u, n)
  {
    hide Split, Passes, IsUrl, PiecesOf, TextOf, Admitted, PortIs;
    if Reads(connect, buf, u, n) {
      UrlPasses(connect, u, outer);
      assert false;
    }
  }

  /** What is left to test once the machines have taken a text. */
  lemma {:induction false} Settled(connect: bool, buf: Bytes, outer: Fields, fields: Fields)
    requires Passes(connect, buf, outer) && Located(connect, buf, outer, fields)
    ensures var good := (connect ==> fields.Keys == {HostField, PortField}) && PortValue(buf, fields) <= 0xffff;
      && (good ==> exists u :: Reads(connect, buf, u, PortValue(buf, fields)))
      && forall u, n :: Reads(connect, buf, u, n) ==> good && fields == RunsOf(PiecesOf(u), 0) && n == PortValue(buf, fields)
  {
    hide Split, HostSplit, Passes, IsUrl, PiecesOf, RunsOf, TextOf, Admitted, PortIs, PortValue;
    var w := PassesUrl(connect, buf, outer);
    UrlFields(connect, w, outer, fields);
    LastTests(connect, w, fields);
    var port := PortValue(buf, fields);
    assert PortIs(w, port);
    assert (connect ==> fields.Keys == {HostField, PortField}) && port <= 0xffff ==> Reads(connect, buf, w, port);
    forall u, n | Reads(connect, buf, u, n)
      ensures connect ==> fields.Keys == {HostField, PortField}
      ensures fields == RunsOf(PiecesOf(u), 0) && n == PortValue(buf, fields)
    {
      UrlFields(connect, u, outer, fields);
      LastTests(connect, u, fields);
    }
  }
}
