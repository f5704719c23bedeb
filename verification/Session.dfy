/** Session resolution: from the Cookie header to a subject. */
module Session {
  import opened Wrappers
  import opened Text
  import opened Cel

  /** Live sessions by cookie value. */
  type SessionStore = map<string, Subject>

  function PairValue(pair: string, name: string): Option<string> {
    match SplitOnce(Trim(pair), '=')
    case None => None
    case Some((k, v)) => if k == name then Some(v) else None
  }

  function FirstValue(pairs: seq<string>, name: string): Option<string> {
    if pairs == [] then None
    else
      var v := PairValue(pairs[0], name);
      if v.Some? then v else FirstValue(pairs[1..], name)
  }

  function SessionCookie(header: string, name: string): Option<string> {
    FirstValue(Split(header, ';'), name)
  }

  function Resolve(store: SessionStore, cookieHeader: Option<string>, cookieName: string): Option<Subject> {
    if cookieHeader.None? then None
    else
      var v := SessionCookie(cookieHeader.value, cookieName);
      if v.Some? && v.value in store then Some(store[v.value]) else None
  }

  // ----- what any header gives -----

  /** Blanks aside, the piece is the name, '=' and the value. */
  ghost predicate Gives(piece: string, name: string, value: string) {
    && '=' !in name
    && Trimmed(name + "=" + value)
    && exists l, r :: Around(piece, l, name + "=" + value, r)
  }

  predicate Around(piece: string, l: string, core: string, r: string) {
    Blank(l) && Blank(r) && piece == l + core + r
  }

  /** The first piece that gives the name any value gives it this one; pieces without
      '=', empty pieces and pieces of other names do not matter. */
  ghost predicate FirstGives(pieces: seq<string>, name: string, value: string) {
    exists k :: 0 <= k < |pieces| && Gives(pieces[k], name, value)
                && forall j, other :: 0 <= j < k ==> !Gives(pieces[j], name, other)
  }

  lemma PairValueIff(piece: string, name: string, value: string)
    ensures PairValue(piece, name) == Some(value) <==> Gives(piece, name, value)
  {
    hide Trim;
    var core := name + ['='] + value;
    assert core == name + "=" + value;
    if Gives(piece, name, value) {
      var l, r :| Around(piece, l, core, r);
      TrimUnique(l, core, r);
      SplitOnceGlued(name, '=', value);
    }
    if PairValue(piece, name) == Some(value) {
      var l, r := TrimCuts(piece);
      var t := Trim(piece);
      var i := FindChar(t, '=');
      assert t == t[..i] + ['='] + t[i + 1..];
      assert Around(piece, l, core, r);
    }
  }

  lemma {:induction false} FirstValueIff(pieces: seq<string>, name: string, value: string)
    ensures FirstValue(pieces, name) == Some(value) <==> FirstGives(pieces, name, value)
  {
    hide Gives, PairValue;
    if pieces != [] {
      var rest := pieces[1..];
      forall v
        ensures PairValue(pieces[0], name) == Some(v) <==> Gives(pieces[0], name, v)
      {
        PairValueIff(pieces[0], name, v);
      }
      FirstValueIff(rest, name, value);
      if FirstGives(rest, name, value) && PairValue(pieces[0], name).None? {
        var k :| 0 <= k < |rest| && Gives(rest[k], name, value)
                 && forall j, other :: 0 <= j < k ==> !Gives(rest[j], name, other);
        assert forall j :: 1 <= j <= k + 1 ==> pieces[j] == rest[j - 1];
      }
      if FirstGives(pieces, name, value) {
        var k :| 0 <= k < |pieces| && Gives(pieces[k], name, value)
                 && forall j, other :: 0 <= j < k ==> !Gives(pieces[j], name, other);
        if k > 0 {
          assert PairValue(pieces[0], name).None?;
          assert forall j :: 0 <= j < k ==> rest[j] == pieces[j + 1];
        }
      }
    }
  }

  predicate PiecesOf(header: string, pieces: seq<string>) {
    && pieces != []
    && (forall i :: 0 <= i < |pieces| ==> ';' !in pieces[i])
    && header == Join(pieces, ";")
  }

  /** Every text is made of pieces between semicolons, in one way. */
  lemma PiecesUnique(header: string, pieces: seq<string>)
    ensures PiecesOf(header, Split(header, ';'))
    ensures PiecesOf(header, pieces) ==> pieces == Split(header, ';')
  {
    assert ";" == [';'];
    JoinSplit(header, ';');
    if PiecesOf(header, pieces) {
      SplitJoin(pieces, ';');
    }
  }

  /** For every header text: the cookie found is the value in the first of its pieces
      that gives the name one. */
  lemma SessionCookieIff(header: string, pieces: seq<string>, name: string, value: string)
    requires PiecesOf(header, pieces)
    ensures SessionCookie(header, name) == Some(value) <==> FirstGives(pieces, name, value)
  {
    PiecesUnique(header, pieces);
    FirstValueIff(pieces, name, value);
  }

  // ----- the printer -----

  datatype Cookie = Cookie(name: string, value: string)

  /** A pair as it stands between two semicolons, with the blanks around it. */
  datatype Spaced = Spaced(before: string, cookie: Cookie, after: string)

  predicate NameOk(name: string) {
    '=' !in name && ';' !in name && (name != [] ==> !IsWhitespace(name[0]))
  }

  predicate ValueOk(value: string) {
    ';' !in value && (value != [] ==> !IsWhitespace(value[|value| - 1]))
  }

  predicate WellFormed(s: Spaced) {
    Blank(s.before) && Blank(s.after) && NameOk(s.cookie.name) && ValueOk(s.cookie.value)
  }

  function Piece(s: Spaced): string {
    s.before + (s.cookie.name + "=" + s.cookie.value) + s.after
  }

  function Pieces(cs: seq<Spaced>): (r: seq<string>)
    ensures |r| == |cs| && forall i :: 0 <= i < |cs| ==> r[i] == Piece(cs[i])
  {
    seq(|cs|, i requires 0 <= i < |cs| => Piece(cs[i]))
  }

  /** The Cookie header of section 4.2.1 of RFC 6265, with any blanks around pairs. */
  function Printed(cs: seq<Spaced>): string {
    Join(Pieces(cs), ";")
  }

  /** Position of the first cookie of the name, or the length. */
  function FirstNamed(cs: seq<Spaced>, name: string): (k: nat)
    ensures k <= |cs|
    ensures k < |cs| ==> cs[k].cookie.name == name
    ensures forall j :: 0 <= j < k ==> cs[j].cookie.name != name
  {
    if cs == [] || cs[0].cookie.name == name then 0 else 1 + FirstNamed(cs[1..], name)
  }

  function Lookup(cs: seq<Spaced>, name: string): Option<string> {
    var k := FirstNamed(cs, name);
    if k < |cs| then Some(cs[k].cookie.value) else None
  }

  lemma PieceReads(s: Spaced, name: string)
    requires WellFormed(s)
    ensures ';' !in Piece(s)
    ensures PairValue(Piece(s), name) == if s.cookie.name == name then Some(s.cookie.value) else None
  {
    hide Trim;
    var pair := s.cookie.name + ['='] + s.cookie.value;
    assert !IsWhitespace('=') && !IsWhitespace(';');
    assert Trimmed(pair) by {
      assert pair[0] == if s.cookie.name == [] then '=' else s.cookie.name[0];
      assert pair[|pair| - 1] == if s.cookie.value == [] then '=' else s.cookie.value[|s.cookie.value| - 1];
    }
    TrimUnique(s.before, pair, s.after);
    SplitOnceGlued(s.cookie.name, '=', s.cookie.value);
  }

  lemma {:induction false} FirstValuePrinted(cs: seq<Spaced>, name: string)
    requires forall s :: s in cs ==> WellFormed(s)
    ensures FirstValue(Pieces(cs), name) == Lookup(cs, name)
  {
    if cs != [] {
      PieceReads(cs[0], name);
      assert Pieces(cs)[1..] == Pieces(cs[1..]);
      FirstValuePrinted(cs[1..], name);
    }
  }

  lemma EmptyHeader(name: string)
    ensures SessionCookie([], name).None?
  {
    var pairs := Split([], ';');
    assert PairValue(pairs[0], name).None?;
    assert FirstValue(pairs, name) == FirstValue(pairs[1..], name);
    assert pairs[1..] == [];
  }

  /** Parsing a printed Cookie header finds the value of the first cookie of the name,
      '=' signs in values included, or nothing when no cookie has that name. */
  lemma CookieRoundTrip(cs: seq<Spaced>, name: string)
    requires forall s :: s in cs ==> WellFormed(s)
    ensures SessionCookie(Printed(cs), name) == Lookup(cs, name)
  {
    forall i | 0 <= i < |cs|
      ensures ';' !in Pieces(cs)[i]
    {
      PieceReads(cs[i], name);
    }
    SplitJoin(Pieces(cs), ';');
    FirstValuePrinted(cs, name);
    assert [';'] == ";";
    if cs == [] {
      EmptyHeader(name);
    }
  }

  /** The session is the one stored under the first cookie of the configured name. */
  lemma ResolvesPrinted(store: SessionStore, cs: seq<Spaced>, name: string, k: nat)
    requires forall s :: s in cs ==> WellFormed(s)
    requires k < |cs| && cs[k].cookie.name == name
    requires forall j :: 0 <= j < k ==> cs[j].cookie.name != name
    ensures Resolve(store, Some(Printed(cs)), name) ==
            if cs[k].cookie.value in store then Some(store[cs[k].cookie.value]) else None
  {
    CookieRoundTrip(cs, name);
    assert FirstNamed(cs, name) == k;
  }

  predicate Has(cs: seq<Spaced>, c: Cookie) {
    exists i :: 0 <= i < |cs| && cs[i].cookie == c
  }

  /** Same cookies, in any order and with any blanks. */
  ghost predicate SameCookies(a: seq<Spaced>, b: seq<Spaced>) {
    forall c :: Has(a, c) <==> Has(b, c)
  }

  ghost predicate OneValuePerName(cs: seq<Spaced>) {
    forall c, d :: Has(cs, c) && Has(cs, d) && c.name == d.name ==> c.value == d.value
  }

  lemma LookupHas(cs: seq<Spaced>, c: Cookie)
    requires Has(cs, c) && OneValuePerName(cs)
    ensures Lookup(cs, c.name) == Some(c.value)
  {
    var i :| 0 <= i < |cs| && cs[i].cookie == c;
    var k := FirstNamed(cs, c.name);
    assert k <= i && Has(cs, cs[k].cookie);
  }

  lemma LookupReordered(a: seq<Spaced>, b: seq<Spaced>, name: string)
    requires SameCookies(a, b) && OneValuePerName(a)
    ensures Lookup(a, name) == Lookup(b, name)
  {
    var i, j := FirstNamed(a, name), FirstNamed(b, name);
    if j < |b| {
      assert Has(b, b[j].cookie);
      LookupHas(a, b[j].cookie);
    } else {
      assert forall c :: Has(b, c) ==> c.name != name;
      assert i < |a| ==> Has(a, a[i].cookie);
    }
  }

  /** Cookies of distinct names can be sent in any order: the session is the same. */
  lemma CookieOrderInvisible(store: SessionStore, a: seq<Spaced>, b: seq<Spaced>, name: string)
    requires forall s :: s in a || s in b ==> WellFormed(s)
    requires SameCookies(a, b) && OneValuePerName(a)
    ensures Resolve(store, Some(Printed(a)), name) == Resolve(store, Some(Printed(b)), name)
  {
    CookieRoundTrip(a, name);
    CookieRoundTrip(b, name);
    LookupReordered(a, b, name);
  }

  lemma PairValueNamesOk(pair: string, name: string)
    requires ';' !in pair && PairValue(pair, name).Some?
    ensures NameOk(name)
  {
    var l, r := TrimCuts(pair);
    var t := Trim(pair);
    var i := FindChar(t, '=');
    assert name == t[..i];
    assert forall j :: 0 <= j < |t| ==> pair[|l| + j] == t[j] && pair[|l| + j] in pair;
  }

  lemma {:induction false} FirstValueNamesOk(pairs: seq<string>, name: string)
    requires forall i :: 0 <= i < |pairs| ==> ';' !in pairs[i]
    requires FirstValue(pairs, name).Some?
    ensures NameOk(name)
  {
    if PairValue(pairs[0], name).Some? {
      PairValueNamesOk(pairs[0], name);
    } else {
      FirstValueNamesOk(pairs[1..], name);
    }
  }

  ghost predicate Findable(name: string) {
    exists header :: SessionCookie(header, name).Some?
  }

  /** A configured cookie name can ever be found exactly when it has no '=' or ';' and
      does not start with a blank; any other name leaves everyone anonymous. */
  lemma FindableIff(name: string)
    ensures Findable(name) <==> NameOk(name)
  {
    if header :| SessionCookie(header, name).Some? {
      FirstValueNamesOk(Split(header, ';'), name);
    }
    if NameOk(name) {
      var cs := [Spaced("", Cookie(name, ""), "")];
      CookieRoundTrip(cs, name);
      assert SessionCookie(Printed(cs), name).Some?;
    }
  }
}
