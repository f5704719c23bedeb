/** The check reconstructed from the headers Envoy forwards, and the original URL. */
module Request {
  import opened Wrappers
  import opened Text
  import opened Utf8
  import Hostnames

  type Hostname = Hostnames.Hostname

  /** One received header field; names are case-insensitive. */
  datatype Field = Field(name: string, value: seq<byte>)

  /** Fields in arrival order; a name may occur more than once. */
  type Headers = seq<Field>

  /** Position of the first field of that (lower-case) name, or the length. */
  function FindField(headers: Headers, name: string): (k: nat)
    ensures k <= |headers|
    ensures k < |headers| ==> Lower(headers[k].name) == name
    ensures forall j :: 0 <= j < k ==> Lower(headers[j].name) != name
  {
    if headers == [] || Lower(headers[0].name) == name then 0
    else 1 + FindField(headers[1..], name)
  }

  /** Visible characters, space and tab (section 5.5 of RFC 9110): what can be read
      back from a field value as text. */
  predicate Readable(b: byte) {
    b == 0x9 || 0x20 <= b < 0x7F
  }

  function ToStr(value: seq<byte>): Option<string> {
    if forall b :: b in value ==> Readable(b)
    then Some(seq(|value|, i requires 0 <= i < |value| => value[i] as char))
    else None
  }

  /** The first field of the name, if its value is readable. A later, readable field of
      the same name is not consulted. */
  function Header(headers: Headers, name: string): Option<string> {
    var k := FindField(headers, name);
    if k < |headers| then ToStr(headers[k].value) else None
  }

  function UnwrapOr<T>(o: Option<T>, default: T): T {
    if o.Some? then o.value else default
  }

  datatype CheckRequest =
    CheckRequest(proto: string, host: Hostname, uri: string, verb: string, cookie: Option<string>)
  {
    /** The request target up to the first '?'. */
    function Path(): string {
      Split(uri, '?')[0]
    }

    function OriginalUrl(): string {
      proto + "://" + host + uri
    }
  }

  /** The host as it was spelled, forwarded host first. */
  function RawHost(headers: Headers): string {
    var forwarded := Header(headers, "x-forwarded-host");
    UnwrapOr(if forwarded.Some? then forwarded else Header(headers, "host"), "")
  }

  function FromHeaders(headers: Headers): CheckRequest {
    CheckRequest(
      UnwrapOr(Header(headers, "x-forwarded-proto"), "https"),
      Hostnames.New(RawHost(headers)),
      UnwrapOr(Header(headers, "x-forwarded-uri"), "/"),
      UnwrapOr(Header(headers, "x-forwarded-method"), "GET"),
      Header(headers, "cookie"))
  }

  /** The path is what stands before the first '?', whatever follows it. */
  lemma PathIff(r: CheckRequest, path: string)
    ensures r.Path() == path <==> '?' !in path && (r.uri == path || path + "?" <= r.uri)
  {
    var i := FindChar(r.uri, '?');
    if i == |r.uri| {
      assert '?' !in r.uri;
      assert (path + "?")[|path|] == '?';
      SplitNone(r.uri, '?');
    } else {
      var head, query := r.uri[..i], r.uri[i + 1..];
      assert '?' !in head && r.uri == head + ['?'] + query;
      SplitHead(head, '?', query);
      assert "?" == ['?'];
      if '?' !in path && path + "?" <= r.uri {
        assert r.uri[|path|] == '?';
        assert forall j :: 0 <= j < |path| ==> r.uri[j] == path[j] && path[j] in path;
        assert i == |path|;
      }
    }
  }

  // ----- what a header list says -----

  predicate ReadableText(s: string) {
    forall i :: 0 <= i < |s| ==> (s[i] as int) < 0x80 && Readable(s[i] as int)
  }

  /** Readable text: visible ASCII characters, spaces and tabs. */
  lemma ReadableTextIff(s: string)
    ensures ReadableText(s) <==> forall i :: 0 <= i < |s| ==> s[i] == '\t' || ' ' <= s[i] <= '~'
  {
    assert forall i :: 0 <= i < |s| && ReadableText(s) ==> Readable(s[i] as int);
  }

  lemma {:induction false} EncodeAscii(s: string)
    requires forall i :: 0 <= i < |s| ==> (s[i] as int) < 0x80
    ensures |Utf8.Encode(s)| == |s| && forall i :: 0 <= i < |s| ==> Utf8.Encode(s)[i] == s[i] as int
  {
    if s != [] {
      EncodeAscii(s[1..]);
    }
  }

  /** `o` is the text of the first field of the name, in its UTF-8 bytes; there is none
      if no field has the name, or the first one is no readable text. */
  ghost predicate Says(headers: Headers, name: string, o: Option<string>) {
    exists k :: 0 <= k <= |headers| && SaysAt(headers, name, o, k)
  }

  ghost predicate SaysAt(headers: Headers, name: string, o: Option<string>, k: int)
    requires 0 <= k <= |headers|
  {
    && (forall j :: 0 <= j < k ==> Lower(headers[j].name) != name)
    && (if k == |headers| then o.None?
        else
          && Lower(headers[k].name) == name
          && if o.Some? then ReadableText(o.value) && headers[k].value == Utf8.Encode(o.value)
             else forall s :: ReadableText(s) ==> headers[k].value != Utf8.Encode(s))
  }

  lemma ToStrIff(value: seq<byte>, s: string)
    ensures ToStr(value) == Some(s) <==> ReadableText(s) && value == Utf8.Encode(s)
  {
    if ReadableText(s) {
      EncodeAscii(s);
    }
    if ToStr(value) == Some(s) {
      assert forall i :: 0 <= i < |s| ==> s[i] as int == value[i] && value[i] in value;
      EncodeAscii(s);
      assert value == Utf8.Encode(s);
    }
    if ReadableText(s) && value == Utf8.Encode(s) {
      assert forall b :: b in value ==> Readable(b);
      assert ToStr(value).value == s;
    }
  }

  /** Reading a header inverts writing it: the text comes back exactly when it was sent
      first under that name and is visible. */
  lemma HeaderIff(headers: Headers, name: string, o: Option<string>)
    ensures Header(headers, name) == o <==> Says(headers, name, o)
  {
    var k := FindField(headers, name);
    if k < |headers| {
      forall s
        ensures ToStr(headers[k].value) == Some(s) <==> ReadableText(s) && headers[k].value == Utf8.Encode(s)
      {
        ToStrIff(headers[k].value, s);
      }
    }
    assert Header(headers, name) == o ==> SaysAt(headers, name, o, k);
  }

  /** The check rebuilt from a header list, for everything the list can say: the
      forwarded values, the plain host where no forwarded one can be read, and the
      defaults of whatever is missing or unreadable. */
  lemma FromHeadersExact(headers: Headers, proto: Option<string>, forwarded: Option<string>, host: Option<string>,
                         uri: Option<string>, verb: Option<string>, cookie: Option<string>)
    requires Says(headers, "x-forwarded-proto", proto) && Says(headers, "x-forwarded-host", forwarded)
    requires Says(headers, "host", host) && Says(headers, "x-forwarded-uri", uri)
    requires Says(headers, "x-forwarded-method", verb) && Says(headers, "cookie", cookie)
    ensures var r := FromHeaders(headers);
            && r.proto == (if proto.Some? then proto.value else "https")
            && (forwarded.Some? ==> EqIgnoreCase(r.host, forwarded.value))
            && (forwarded.None? && host.Some? ==> EqIgnoreCase(r.host, host.value))
            && (forwarded.None? && host.None? ==> r.host == "")
            && r.uri == (if uri.Some? then uri.value else "/")
            && r.verb == (if verb.Some? then verb.value else "GET")
            && r.cookie == cookie
  {
    hide Says, Header;
    HeaderIff(headers, "x-forwarded-proto", proto);
    HeaderIff(headers, "x-forwarded-host", forwarded);
    HeaderIff(headers, "host", host);
    HeaderIff(headers, "x-forwarded-uri", uri);
    HeaderIff(headers, "x-forwarded-method", verb);
    HeaderIff(headers, "cookie", cookie);
  }

  lemma HeaderAt(headers: Headers, name: string, k: nat, s: string)
    requires k < |headers| && Lower(headers[k].name) == name
    requires forall j :: 0 <= j < k ==> Lower(headers[j].name) != name
    requires ReadableText(s) && headers[k].value == Utf8.Encode(s)
    ensures Header(headers, name) == Some(s)
  {
    assert FindField(headers, name) == k;
    ToStrIff(headers[k].value, s);
  }

  /** Whatever the headers, the parts of the check are readable text. */
  lemma CheckReadable(headers: Headers)
    ensures var r := FromHeaders(headers); ReadableText(r.proto) && ReadableText(r.host) && ReadableText(r.uri)
  {
    hide ToStr;
    HeaderReadable(headers, "x-forwarded-proto");
    HeaderReadable(headers, "x-forwarded-host");
    HeaderReadable(headers, "host");
    HeaderReadable(headers, "x-forwarded-uri");
    assert ReadableText(RawHost(headers));
  }

  lemma HeaderReadable(headers: Headers, name: string)
    ensures Header(headers, name).Some? ==> ReadableText(Header(headers, name).value)
  {
    var k := FindField(headers, name);
    if k < |headers| && ToStr(headers[k].value).Some? {
      ToStrIff(headers[k].value, ToStr(headers[k].value).value);
    }
  }

  /** A header list that forwards just a scheme, a host and a target. */
  function Forwarded(proto: string, host: string, uri: string): Headers {
    [Field("x-forwarded-proto", Utf8.Encode(proto)),
     Field("x-forwarded-host", Utf8.Encode(host)),
     Field("x-forwarded-uri", Utf8.Encode(uri))]
  }

  lemma LowerFixed(s: string)
    requires forall i :: 0 <= i < |s| ==> !('A' <= s[i] <= 'Z')
    ensures Lower(s) == s
  {
  }

  lemma ForwardedReads(proto: string, host: string, uri: string)
    requires ReadableText(proto) && ReadableText(host) && ReadableText(uri)
    ensures FromHeaders(Forwarded(proto, host, uri)) == CheckRequest(proto, Hostnames.New(host), uri, "GET", None)
  {
    var h := Forwarded(proto, host, uri);
    var names := ["x-forwarded-proto", "x-forwarded-host", "x-forwarded-uri"];
    LowerFixed(names[0]);
    LowerFixed(names[1]);
    LowerFixed(names[2]);
    assert |names[0]| == 17 && |names[1]| == 16 && |names[2]| == 15;
    HeaderAt(h, names[0], 0, proto);
    HeaderAt(h, names[1], 1, host);
    HeaderAt(h, names[2], 2, uri);
    assert names[0][12] == 'p';
    assert FindField(h, "cookie") == 3 && FindField(h, "x-forwarded-method") == 3;
  }

  // ----- recovering the parts of an original URL -----

  predicate SeparatorAt(s: string, i: int) {
    0 <= i && i + 3 <= |s| && s[i] == ':' && s[i + 1] == '/' && s[i + 2] == '/'
  }

  /** Index of the first "://", or the length. */
  function FindSeparator(s: string): (i: nat)
    ensures i <= |s|
    ensures i < |s| ==> SeparatorAt(s, i)
    ensures forall j :: j < i || i == |s| ==> !SeparatorAt(s, j)
  {
    if s == [] || SeparatorAt(s, 0) then 0
    else
      var i := 1 + FindSeparator(s[1..]);
      assert forall j :: j != 0 ==> SeparatorAt(s, j) == SeparatorAt(s[1..], j - 1);
      i
  }

  /** Scheme up to the first "://", then the authority up to the next '/', then the
      target (section 3 of RFC 3986). */
  function SplitUrl(url: string): Option<(string, string, string)> {
    var c := FindSeparator(url);
    if c == |url| then None
    else
      var rest := url[c + 3..];
      var s := FindChar(rest, '/');
      Some((url[..c], rest[..s], rest[s..]))
  }

  predicate SchemeOk(proto: string) {
    forall j :: 0 <= j < |proto| ==> !SeparatorAt(proto, j)
  }

  predicate HostOk(host: string) {
    '/' !in host
  }

  predicate TargetOk(uri: string) {
    uri == [] || uri[0] == '/'
  }

  /** A check whose original URL can be taken apart again. */
  predicate Splittable(r: CheckRequest) {
    SchemeOk(r.proto) && HostOk(r.host) && TargetOk(r.uri)
  }

  lemma SplitUrlGlues(url: string)
    requires SplitUrl(url).Some?
    ensures var (p, h, u) := SplitUrl(url).value;
            p + "://" + h + u == url && HostOk(h) && TargetOk(u)
  {
    hide FindChar, FindSeparator;
    var c := FindSeparator(url);
    var rest := url[c + 3..];
    var s := FindChar(rest, '/');
    var p, h, u := url[..c], rest[..s], rest[s..];
    assert SplitUrl(url) == Some((p, h, u));
    assert h + u == rest;
    assert "://" + rest == url[c..];
    calc {
      p + "://" + h + u;
      p + ("://" + (h + u));
      url[..c] + url[c..];
      url;
    }
  }

  /** The reader takes every original URL apart into parts of this form that make up the
      URL again. */
  lemma SplitUrlReads(r: CheckRequest)
    ensures SplitUrl(r.OriginalUrl()).Some?
    ensures var (p, h, u) := SplitUrl(r.OriginalUrl()).value;
            p + "://" + h + u == r.OriginalUrl() && SchemeOk(p) && HostOk(h) && TargetOk(u)
  {
    hide FindChar, FindSeparator;
    var url := r.OriginalUrl();
    assert SeparatorAt(url, |r.proto|);
    SplitUrlGlues(url);
    var p := url[..FindSeparator(url)];
    assert forall j :: SeparatorAt(p, j) ==> SeparatorAt(url, j);
  }

  /** A URL gives its three parts back exactly when the scheme does not contain "://",
      the host has no '/' and the target is empty or starts with '/'. */
  lemma SplitUrlIff(r: CheckRequest)
    ensures SplitUrl(r.OriginalUrl()) == Some((r.proto, r.host, r.uri)) <==> Splittable(r)
  {
    hide FindChar, FindSeparator;
    var url, tail := r.OriginalUrl(), r.host + r.uri;
    SplitUrlReads(r);
    if Splittable(r) {
      SchemeFirst(r);
      assert url[|r.proto| + 3..] == tail && url[..|r.proto|] == r.proto;
      AuthorityIff(r.host, r.uri);
    }
  }

  lemma SchemeFirst(r: CheckRequest)
    requires SchemeOk(r.proto)
    ensures FindSeparator(r.OriginalUrl()) == |r.proto|
  {
    var url, p := r.OriginalUrl(), r.proto;
    assert SeparatorAt(url, |p|);
    assert forall j :: 0 <= j < |p| ==> url[j] == p[j];
    assert url[|p|] == ':';
    forall j | 0 <= j < |p|
      ensures !SeparatorAt(url, j)
    {
      assert j + 3 <= |p| ==> SeparatorAt(url, j) == SeparatorAt(p, j);
    }
  }

  lemma AuthorityIff(host: string, uri: string)
    ensures var tail := host + uri; var s := FindChar(tail, '/');
            (tail[..s] == host && tail[s..] == uri) <==> HostOk(host) && TargetOk(uri)
  {
    hide FindChar;
    var tail := host + uri;
    var s := FindChar(tail, '/');
    assert tail[..|host|] == host && tail[|host|..] == uri;
    if HostOk(host) && TargetOk(uri) {
      assert forall j :: 0 <= j < |host| ==> tail[j] == host[j] && host[j] in host;
      assert s == |host|;
    } else if '/' in host {
      var i :| 0 <= i < |host| && host[i] == '/';
      assert tail[i] == '/';
    } else {
      assert tail[|host|] == uri[0];
    }
  }
}
