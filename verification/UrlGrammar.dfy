/**
 What a URL is, as a text: a list of labelled pieces.  Nothing here knows of the parser's machines.
 */
module UrlGrammar {
  import opened Rlp
  import opened Options
  import opened Numerals

  // ---- the bytes of each part ----

  predicate Letter(c: Byte) { 'A' as int <= c <= 'Z' as int || 'a' as int <= c <= 'z' as int }

  predicate Digit(c: Byte) { '0' as int <= c <= '9' as int }

  predicate OneOf(c: Byte, s: string) { (c as char) in s }

  /** Visible ASCII other than the number sign and the question mark. */
  predicate UrlByte(c: Byte) { '!' as int <= c <= '~' as int && !OneOf(c, "#?") }

  predicate QueryByte(c: Byte) { UrlByte(c) || OneOf(c, "?") }

  predicate FragmentByte(c: Byte) { UrlByte(c) || OneOf(c, "?#") }

  predicate UserinfoByte(c: Byte) { Letter(c) || Digit(c) || OneOf(c, "-_.!~*'()%;:&=+$,") }

  predicate HostByte(c: Byte) { Letter(c) || Digit(c) || OneOf(c, ".-") }

  predicate AddressByte(c: Byte) {
    Digit(c) || 'a' as int <= c <= 'f' as int || 'A' as int <= c <= 'F' as int || OneOf(c, ":.")
  }

  predicate ZoneByte(c: Byte) { Letter(c) || Digit(c) || OneOf(c, "%.-_~") }

  // ---- pieces ----

  datatype Field = SchemaField | HostField | PortField | PathField | QueryField | FragmentField | UserinfoField

  /** A stretch of text that is a field, or a delimiter. */
  datatype Piece = Piece(text: Bytes, field: Option<Field>)

  function TextOf(ps: seq<Piece>): Bytes {
    if ps == [] then [] else ps[0].text + TextOf(ps[1..])
  }

  datatype Run = Run(off: nat, len: nat)

  type Fields = map<Field, Run>

  /** Where the fields of a text that starts at an offset lie; empty ones are nowhere. */
  function RunsOf(ps: seq<Piece>, off: nat): Fields
    decreases |ps|
  {
    if ps == [] then map[]
    else
      var rest := RunsOf(ps[1..], off + |ps[0].text|);
      if ps[0].field.None? || ps[0].text == [] then rest
      else rest[ps[0].field.value := Run(off, |ps[0].text|)]
  }

  /** A delimiter, where it is needed. */
  function Mark(text: string, needed: bool): Piece
    requires forall i :: 0 <= i < |text| ==> text[i] as int < 128
  {
    Piece(if needed then seq(|text|, i requires 0 <= i < |text| => text[i] as int) else [], None)
  }

  function NumberSigns(n: nat): (b: Bytes)
    ensures |b| == n && forall i :: 0 <= i < n ==> b[i] == '#' as int
  {
    seq(n, _ => '#' as int)
  }

  // ---- the authority: [userinfo "@"] host [":" port] ----

  /** A name, or an address in brackets, maybe with a zone. */
  datatype Host = Name(text: Bytes) | Address(text: Bytes, zone: Option<Bytes>)

  datatype Authority = Authority(userinfo: Option<Bytes>, host: Host, port: Option<Bytes>)

  ghost predicate IsHost(h: Host) {
    match h
    case Name(t) => t != [] && forall i :: 0 <= i < |t| ==> HostByte(t[i])
    case Address(t, zone) =>
      && t != [] && (forall i :: 0 <= i < |t| ==> AddressByte(t[i]))
      && (zone.Some? ==> zone.value != [] && forall i :: 0 <= i < |zone.value| ==> ZoneByte(zone.value[i]))
  }

  ghost predicate IsAuthority(a: Authority) {
    && (a.userinfo.Some? ==> forall i :: 0 <= i < |a.userinfo.value| ==> UserinfoByte(a.userinfo.value[i]))
    && IsHost(a.host)
    && (a.port.Some? ==> a.port.value != [] && forall i :: 0 <= i < |a.port.value| ==> Digit(a.port.value[i]))
  }

  function HostText(h: Host): Bytes {
    if h.Address? && h.zone.Some? then h.text + ['%' as int] + h.zone.value else h.text
  }

  function OrNothing(t: Option<Bytes>): Bytes { if t.Some? then t.value else [] }

  function AuthorityPieces(a: Authority): seq<Piece> {
    [Piece(OrNothing(a.userinfo), Some(UserinfoField)), Mark("@", a.userinfo.Some?),
     Mark("[", a.host.Address?), Piece(HostText(a.host), Some(HostField)), Mark("]", a.host.Address?),
     Mark(":", a.port.Some?), Piece(OrNothing(a.port), Some(PortField))]
  }

  // ---- the URL: [schema "://" authority] [path] ["?" query] ["#" fragment] ----

  datatype Url = Url(
    schema: Bytes, authority: Option<Authority>, path: Bytes, query: Option<Bytes>, signs: nat, fragment: Bytes)

  /**
   A text for a CONNECT request has no schema; any other has an authority exactly behind a schema.  A path
   begins with a slash, or with a star where it begins the text.  A query needs something before it, and
   so does a fragment, which may have several number signs in front.
   */
  ghost predicate IsUrl(connect: bool, u: Url) {
    && (forall i :: 0 <= i < |u.schema| ==> Letter(u.schema[i]))
    && (connect ==> u.schema == []) && (!connect ==> (u.authority.Some? <==> u.schema != []))
    && (u.authority.Some? ==> IsAuthority(u.authority.value))
    && (forall i :: 0 <= i < |u.path| ==> UrlByte(u.path[i]))
    && (u.path != [] ==> u.path[0] == '/' as int || (u.path[0] == '*' as int && !connect && u.schema == []))
    && (u.query.Some? ==> connect || u.schema != [] || u.path != [])
    && (u.query.Some? ==> forall i :: 0 <= i < |u.query.value| ==> QueryByte(u.query.value[i]))
    && (u.signs > 0 ==> u.path != [] || u.query.Some?)
    && (u.fragment != [] ==> u.signs > 0 && u.fragment[0] != '#' as int)
    && (forall i :: 0 <= i < |u.fragment| ==> FragmentByte(u.fragment[i]))
  }

  function FrontPieces(u: Url): seq<Piece> {
    [Piece(u.schema, Some(SchemaField)), Mark("://", u.schema != [])]
  }

  function BackPieces(path: Bytes, query: Option<Bytes>, signs: nat, fragment: Bytes): seq<Piece> {
    [Piece(path, Some(PathField)), Mark("?", query.Some?), Piece(OrNothing(query), Some(QueryField)),
     Piece(NumberSigns(signs), None), Piece(fragment, Some(FragmentField))]
  }

  function PiecesOf(u: Url): seq<Piece> {
    FrontPieces(u) + (if u.authority.Some? then AuthorityPieces(u.authority.value) else [])
      + BackPieces(u.path, u.query, u.signs, u.fragment)
  }

  /** A CONNECT request has a host, a port and no other field. */
  predicate Admitted(connect: bool, u: Url) {
    connect ==>
      && u.authority.Some? && OrNothing(u.authority.value.userinfo) == [] && u.authority.value.port.Some?
      && u.path == [] && OrNothing(u.query) == [] && u.fragment == []
  }

  /** The number of the port; zero without one. */
  predicate PortIs(u: Url, n: nat) {
    if u.authority.Some? && u.authority.value.port.Some? then Spells(u.authority.value.port.value, 10, n) else n == 0
  }

  /** The text is this URL, with this port. */
  ghost predicate Reads(connect: bool, text: Bytes, u: Url, port: nat) {
    && IsUrl(connect, u) && TextOf(PiecesOf(u)) == text
    && Admitted(connect, u) && PortIs(u, port) && port <= 65535
  }

  // ---- labels ----

  predicate Marks(fields: Fields, f: Field, p: int) {
    f in fields && fields[f].off <= p < fields[f].off + fields[f].len
  }

  /** The label of a byte of the text. */
  function LabelAt(ps: seq<Piece>, p: int): Option<Field>
    decreases |ps|
  {
    if ps == [] then None
    else if p < |ps[0].text| then ps[0].field
    else LabelAt(ps[1..], p - |ps[0].text|)
  }

  predicate Labelled(ps: seq<Piece>, f: Field) {
    exists i :: 0 <= i < |ps| && ps[i].field == Some(f)
  }

  /** No field has two pieces. */
  predicate Distinct(ps: seq<Piece>)
    decreases |ps|
  {
    ps == [] || (Distinct(ps[1..]) && (ps[0].field.Some? ==> !Labelled(ps[1..], ps[0].field.value)))
  }

  lemma {:induction false} RunsLabelled(ps: seq<Piece>, off: nat, f: Field)
    ensures f in RunsOf(ps, off) ==> Labelled(ps, f) && RunsOf(ps, off)[f].len > 0 && RunsOf(ps, off)[f].off >= off
    decreases |ps|
  {
    if ps != [] {
      RunsLabelled(ps[1..], off + |ps[0].text|, f);
      if Labelled(ps[1..], f) {
        var i :| 0 <= i < |ps[1..]| && ps[1..][i].field == Some(f);
        assert ps[i + 1].field == Some(f);
      }
      if ps[0].field == Some(f) { assert ps[0].field == Some(f); }
    }
  }

  lemma {:induction false} LabelIsLabelled(ps: seq<Piece>, p: int, f: Field)
    ensures LabelAt(ps, p) == Some(f) ==> Labelled(ps, f)
    decreases |ps|
  {
    if ps != [] && p >= |ps[0].text| {
      LabelIsLabelled(ps[1..], p - |ps[0].text|, f);
      if Labelled(ps[1..], f) {
        var i :| 0 <= i < |ps[1..]| && ps[1..][i].field == Some(f);
        assert ps[i + 1].field == Some(f);
      }
    }
  }

  /** The runs are the bytes with the labels. */
  lemma {:induction false} RunsMark(ps: seq<Piece>, off: nat, f: Field, p: int)
    requires Distinct(ps)
    ensures Marks(RunsOf(ps, off), f, p) <==> off <= p < off + |TextOf(ps)| && LabelAt(ps, p - off) == Some(f)
    decreases |ps|
  {
    if ps != [] {
      var rest, more := ps[1..], off + |ps[0].text|;
      RunsMark(rest, more, f, p);
      RunsLabelled(rest, more, f);
      LabelIsLabelled(rest, p - more, f);
    }
  }

  /** Fields that mark the same bytes, none of them empty, are the same. */
  lemma {:induction false} SameMarks(a: Fields, b: Fields)
    requires forall f, p :: Marks(a, f, p) <==> Marks(b, f, p)
    requires forall f :: f in a ==> a[f].len > 0
    requires forall f :: f in b ==> b[f].len > 0
    ensures a == b
  {
    forall f
      ensures f in a <==> f in b
      ensures f in a && f in b ==> a[f] == b[f]
    {
      if f in a { assert Marks(a, f, a[f].off) && Marks(a, f, a[f].off + a[f].len - 1); }
      if f in b { assert Marks(b, f, b[f].off) && Marks(b, f, b[f].off + b[f].len - 1); }
      if f in a && f in b {
        assert !Marks(a, f, a[f].off - 1) && !Marks(b, f, b[f].off - 1);
        assert !Marks(a, f, a[f].off + a[f].len) && !Marks(b, f, b[f].off + b[f].len);
      }
    }
  }

  lemma {:induction false} TextAppend(a: seq<Piece>, b: seq<Piece>)
    ensures TextOf(a + b) == TextOf(a) + TextOf(b)
    decreases |a|
  {
    if a == [] {
      assert a + b == b;
    } else {
      assert (a + b)[1..] == a[1..] + b;
      TextAppend(a[1..], b);
    }
  }

  lemma {:induction false} LabelAppend(a: seq<Piece>, b: seq<Piece>, p: nat)
    ensures LabelAt(a + b, p) == if p < |TextOf(a)| then LabelAt(a, p) else LabelAt(b, p - |TextOf(a)|)
    decreases |a|
  {
    if a == [] {
      assert a + b == b;
    } else {
      assert (a + b)[1..] == a[1..] + b;
      if p >= |a[0].text| { LabelAppend(a[1..], b, p - |a[0].text|); }
    }
  }

  /** The run of a field is the text of its piece. */
  lemma {:induction false} RunIs(ps: seq<Piece>, off: nat, i: nat)
    requires Distinct(ps) && i < |ps| && ps[i].field.Some?
    ensures var f, runs := ps[i].field.value, RunsOf(ps, off);
      && (f in runs <==> ps[i].text != [])
      && (f in runs ==>
            && off <= runs[f].off && runs[f].off + runs[f].len <= off + |TextOf(ps)|
            && TextOf(ps)[runs[f].off - off..runs[f].off - off + runs[f].len] == ps[i].text)
    decreases |ps|
  {
    var f, rest, first := ps[i].field.value, ps[1..], ps[0].text;
    if i == 0 {
      FirstRun(ps, off);
    } else {
      assert rest[i - 1] == ps[i] && Labelled(rest, f);
      LaterRun(ps, off, f);
      RunIs(rest, off + |first|, i - 1);
      assert TextOf(ps) == first + TextOf(rest);
      hide RunsOf, TextOf, Labelled, Distinct;
      var later := RunsOf(rest, off + |first|);
      if f in later { Deeper(first, TextOf(rest), later[f].off - off - |first|, later[f].len); }
    }
  }

  lemma {:induction false} FirstRun(ps: seq<Piece>, off: nat)
    requires Distinct(ps) && ps != [] && ps[0].field.Some?
    ensures var f, runs := ps[0].field.value, RunsOf(ps, off);
      && (f in runs <==> ps[0].text != [])
      && (f in runs ==> runs[f] == Run(off, |ps[0].text|))
      && |ps[0].text| <= |TextOf(ps)| && TextOf(ps)[0..|ps[0].text|] == ps[0].text
  {
    RunsLabelled(ps[1..], off + |ps[0].text|, ps[0].field.value);
  }

  lemma {:induction false} LaterRun(ps: seq<Piece>, off: nat, f: Field)
    requires Distinct(ps) && ps != [] && Labelled(ps[1..], f)
    ensures var runs, later := RunsOf(ps, off), RunsOf(ps[1..], off + |ps[0].text|);
      (f in runs <==> f in later) && (f in later ==> runs[f] == later[f])
  {
  }

  lemma {:induction false} Deeper(a: Bytes, b: Bytes, k: nat, n: nat)
    requires k + n <= |b|
    ensures (a + b)[|a| + k..|a| + k + n] == b[k..k + n]
  {
  }
}
