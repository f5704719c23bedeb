/** `percent_encode` and `login_url`: the return target carried in the portal URL,
    with the reader the portal needs to get it back. */
module Percent {
  import opened Wrappers
  import opened Text
  import opened Utf8

  /** The unreserved set of section 2.3 of RFC 3986. */
  predicate Unreserved(b: byte) {
    || 'A' as int <= b <= 'Z' as int
    || 'a' as int <= b <= 'z' as int
    || '0' as int <= b <= '9' as int
    || b in {'-' as int, '_' as int, '.' as int, '~' as int}
  }

  /** ASCII letters, digits and four marks. */
  predicate PlainChar(c: char) {
    'A' <= c <= 'Z' || 'a' <= c <= 'z' || '0' <= c <= '9' || c == '-' || c == '_' || c == '.' || c == '~'
  }

  lemma UnreservedIff(b: byte)
    ensures Unreserved(b) <==> PlainChar(b as char)
  {
  }

  function HexDigit(n: int): char
    requires 0 <= n < 16
  {
    if n < 10 then (n + '0' as int) as char else (n - 10 + 'A' as int) as char
  }

  function EncodeByte(b: byte): (s: string)
    ensures |s| == if Unreserved(b) then 1 else 3
  {
    if Unreserved(b) then [b as char] else ['%', HexDigit(b / 16), HexDigit(b % 16)]
  }

  function PercentEncode(bs: seq<byte>): string {
    if bs == [] then [] else EncodeByte(bs[0]) + PercentEncode(bs[1..])
  }

  lemma {:induction false} EncodeAppend(a: seq<byte>, b: seq<byte>)
    ensures PercentEncode(a + b) == PercentEncode(a) + PercentEncode(b)
  {
    if a == [] {
      assert a + b == b;
    } else {
      assert (a + b)[1..] == a[1..] + b;
      EncodeAppend(a[1..], b);
    }
  }

  /** How each byte appears in the output, wherever it stands: a letter, a digit or one of
      `-_.~` as itself, and anything else as '%' and its two upper-case hex digits. */
  lemma ByteSpelled(before: seq<byte>, b: byte, after: seq<byte>)
    ensures var c := b as char;
            PercentEncode(before + [b] + after) ==
            PercentEncode(before)
            + (if 'A' <= c <= 'Z' || 'a' <= c <= 'z' || '0' <= c <= '9' || c in "-_.~" then [c]
               else ['%', "0123456789ABCDEF"[b / 16], "0123456789ABCDEF"[b % 16]])
            + PercentEncode(after)
  {
    hide EncodeByte, HexDigit;
    EncodeAppend(before + [b], after);
    EncodeAppend(before, [b]);
    ByteEncoding(b);
    assert PercentEncode([b]) == EncodeByte(b) + [] == EncodeByte(b);
  }

  lemma ByteEncoding(b: byte)
    ensures var c := b as char;
            EncodeByte(b) ==
            if 'A' <= c <= 'Z' || 'a' <= c <= 'z' || '0' <= c <= '9' || c in "-_.~" then [c]
            else ['%', "0123456789ABCDEF"[b / 16], "0123456789ABCDEF"[b % 16]]
  {
    HexSpelled(b / 16);
    HexSpelled(b % 16);
  }

  lemma HexSpelled(n: int)
    requires 0 <= n < 16
    ensures HexDigit(n) == "0123456789ABCDEF"[n]
  {
  }

  /** The loop over the bytes of the input, pushing into the growing buffer. */
  method EncodeText(input: string) returns (out: string)
    ensures out == PercentEncode(Utf8.Encode(input))
  {
    out := [];
    var bytes := Utf8.Encode(input);
    for i := 0 to |bytes|
      invariant out == PercentEncode(bytes[..i])
    {
      var b := bytes[i];
      if Unreserved(b) {
        out := out + [b as char];
      } else {
        out := out + ['%', HexDigit(b / 16), HexDigit(b % 16)];
      }
      assert bytes[..i + 1] == bytes[..i] + [b];
      EncodeAppend(bytes[..i], [b]);
      assert PercentEncode([b]) == EncodeByte(b) + [];
    }
    assert bytes[..|bytes|] == bytes;
  }

  // ----- reading it back -----

  /** A reader of section 2.1 of RFC 3986: hex digits of either case. */
  function HexValue(c: char): (n: int)
    ensures -1 <= n < 16
  {
    if '0' <= c <= '9' then c as int - '0' as int
    else if 'A' <= c <= 'F' then c as int - 'A' as int + 10
    else if 'a' <= c <= 'f' then c as int - 'a' as int + 10
    else -1
  }

  /** The first encoded byte and how many characters it took, if well formed. */
  function DecodeFirst(s: string): Option<(byte, nat)>
    requires s != []
  {
    if s[0] == '%' then
      if |s| < 3 || HexValue(s[1]) < 0 || HexValue(s[2]) < 0 then None
      else Some((HexValue(s[1]) * 16 + HexValue(s[2]), 3))
    else if s[0] as int < 0x80 then Some((s[0] as int, 1))
    else None
  }

  function PercentDecode(s: string): Option<seq<byte>> {
    if s == [] then Some([])
    else
      match DecodeFirst(s)
      case None => None
      case Some((b, n)) =>
        match PercentDecode(s[n..])
        case None => None
        case Some(rest) => Some([b] + rest)
  }

  lemma DecodeFirstOfByte(b: byte, rest: string)
    ensures DecodeFirst(EncodeByte(b) + rest) == Some((b, |EncodeByte(b)|))
  {
  }

  lemma {:induction false} PercentRoundTrip(bs: seq<byte>)
    ensures PercentDecode(PercentEncode(bs)) == Some(bs)
  {
    if bs != [] {
      var h, t := EncodeByte(bs[0]), PercentEncode(bs[1..]);
      DecodeFirstOfByte(bs[0], t);
      PercentRoundTrip(bs[1..]);
      assert PercentEncode(bs) == h + t && (h + t)[|h|..] == t;
      assert [bs[0]] + bs[1..] == bs;
    }
  }

  function CountReserved(bs: seq<byte>): nat {
    if bs == [] then 0 else (if PlainChar(bs[0] as char) then 0 else 1) + CountReserved(bs[1..])
  }

  lemma {:induction false} EncodedLength(bs: seq<byte>)
    ensures |PercentEncode(bs)| == |bs| + 2 * CountReserved(bs)
  {
    if bs != [] {
      EncodedLength(bs[1..]);
    }
  }

  /** The normal form of section 6.2.2 of RFC 3986: unreserved characters verbatim,
      every other byte as '%' and two upper-case hex digits. */
  predicate Canonical(s: string) {
    s == [] ||
    (if s[0] == '%' then
       && |s| >= 3
       && IsUpperHex(s[1]) && IsUpperHex(s[2])
       && !PlainChar((HexValue(s[1]) * 16 + HexValue(s[2])) as char)
       && Canonical(s[3..])
     else
       && PlainChar(s[0])
       && Canonical(s[1..]))
  }

  predicate IsUpperHex(c: char) {
    '0' <= c <= '9' || 'A' <= c <= 'F'
  }

  lemma {:induction false} EncodeCanonical(bs: seq<byte>)
    ensures Canonical(PercentEncode(bs))
  {
    if bs != [] {
      EncodeCanonical(bs[1..]);
      var h, t := EncodeByte(bs[0]), PercentEncode(bs[1..]);
      assert (h + t)[|h|..] == t;
    }
  }

  lemma {:induction false} CanonicalEncodes(s: string) returns (bs: seq<byte>)
    requires Canonical(s)
    ensures PercentEncode(bs) == s
  {
    if s == [] {
      bs := [];
    } else {
      var n := if s[0] == '%' then 3 else 1;
      var b: byte := if s[0] == '%' then HexValue(s[1]) * 16 + HexValue(s[2]) else s[0] as int;
      var rest := CanonicalEncodes(s[n..]);
      bs := [b] + rest;
      assert EncodeByte(b) == s[..n];
      assert s == s[..n] + s[n..];
    }
  }

  /** The image of the encoder is exactly the normal forms. */
  lemma EncodedIffCanonical(s: string)
    ensures Canonical(s) <==> exists bs :: PercentEncode(bs) == s
  {
    if Canonical(s) {
      var bs := CanonicalEncodes(s);
      assert PercentEncode(bs) == s;
    }
    forall bs | PercentEncode(bs) == s
      ensures Canonical(s)
    {
      EncodeCanonical(bs);
    }
  }

  /** The characters of a normal form: no blank and no delimiter of a URL or a form. */
  predicate OutputChar(c: char) {
    c == '%' || PlainChar(c)
  }

  lemma {:induction false} CanonicalPlain(s: string)
    requires Canonical(s)
    ensures forall i :: 0 <= i < |s| ==> OutputChar(s[i])
  {
    if s != [] {
      var n := if s[0] == '%' then 3 else 1;
      CanonicalPlain(s[n..]);
      forall i | 0 <= i < |s|
        ensures OutputChar(s[i])
      {
        if i >= n {
          assert s[i] == s[n..][i - n];
        }
      }
    }
  }

  // ----- the login URL -----

  function LoginUrl(portal: string, returnTo: string): string {
    portal + "?rd=" + PercentEncode(Utf8.Encode(returnTo))
  }

  /** Index of the last `c`, or -1. */
  function LastChar(s: string, c: char): (i: int)
    ensures -1 <= i < |s|
    ensures i >= 0 ==> s[i] == c
    ensures forall j :: i < j < |s| ==> s[j] != c
  {
    if s == [] then -1
    else if s[|s| - 1] == c then |s| - 1
    else LastChar(s[..|s| - 1], c)
  }

  /** What the portal does: cut at the last '?', drop `rd=`, undo both encodings. */
  function ReadLoginUrl(url: string): Option<(string, string)> {
    var q := LastChar(url, '?');
    if q < 0 || !("?rd=" <= url[q..]) then None
    else
      match PercentDecode(url[q + 4..])
      case None => None
      case Some(bs) =>
        match Utf8.Decode(bs)
        case None => None
        case Some(target) => Some((url[..q], target))
  }

  /** Every login URL gives back the portal and the return target it was built from,
      whatever characters (further '?' included) either of them contains. */
  lemma LoginUrlRoundTrip(portal: string, returnTo: string)
    ensures ReadLoginUrl(LoginUrl(portal, returnTo)) == Some((portal, returnTo))
  {
    hide PercentEncode, PercentDecode, Utf8.Encode, Utf8.Decode, Canonical;
    var enc := PercentEncode(Utf8.Encode(returnTo));
    var url := LoginUrl(portal, returnTo);
    EncodeCanonical(Utf8.Encode(returnTo));
    CanonicalPlain(enc);
    assert url[|portal|] == '?';
    forall j | |portal| < j < |url|
      ensures url[j] != '?'
    {
      if j >= |portal| + 4 {
        assert url[j] == enc[j - |portal| - 4];
      }
    }
    assert LastChar(url, '?') == |portal|;
    assert url[|portal|..] == "?rd=" + enc;
    assert url[|portal| + 4..] == enc && url[..|portal|] == portal;
    PercentRoundTrip(Utf8.Encode(returnTo));
    Utf8.RoundTrip(returnTo);
  }

  lemma LoginUrlInjective(p1: string, r1: string, p2: string, r2: string)
    ensures LoginUrl(p1, r1) == LoginUrl(p2, r2) <==> p1 == p2 && r1 == r2
  {
    LoginUrlRoundTrip(p1, r1);
    LoginUrlRoundTrip(p2, r2);
  }

  /** The portal can read out of what is built the very portal and target put in. */
  method BuildLoginUrl(portal: string, returnTo: string) returns (url: string)
    ensures url == LoginUrl(portal, returnTo)
    ensures ReadLoginUrl(url) == Some((portal, returnTo))
  {
    var encoded := EncodeText(returnTo);
    url := portal + "?rd=" + encoded;
    LoginUrlRoundTrip(portal, returnTo);
  }

  // ----- the return target as a form field -----

  /** Where a form value ends. */
  function ValueEnd(s: string): (i: nat)
    ensures i <= |s|
    ensures i < |s| ==> s[i] == '&' || s[i] == '#'
    ensures forall j :: 0 <= j < i ==> s[j] != '&' && s[j] != '#'
  {
    if s == [] || s[0] == '&' || s[0] == '#' then 0 else 1 + ValueEnd(s[1..])
  }

  function PlusToSpace(s: string): (r: string)
    ensures |r| == |s|
    ensures forall i :: 0 <= i < |s| ==> r[i] == if s[i] == '+' then ' ' else s[i]
  {
    seq(|s|, i requires 0 <= i < |s| => if s[i] == '+' then ' ' else s[i])
  }

  /** What a reader of form fields makes of the text after `rd=`: the value ends at '&' or
      '#', a '+' is a space, and both encodings are undone. */
  function FormValue(s: string): Option<string> {
    match PercentDecode(PlusToSpace(s[..ValueEnd(s)]))
    case None => None
    case Some(bs) => Utf8.Decode(bs)
  }

  /** The encoded target survives such a reader, whatever fields or fragment follow it. */
  lemma FormValueRecovers(returnTo: string, rest: string)
    requires rest == [] || rest[0] == '&' || rest[0] == '#'
    ensures FormValue(PercentEncode(Utf8.Encode(returnTo)) + rest) == Some(returnTo)
  {
    hide PercentEncode, PercentDecode, Canonical, Utf8.Encode, Utf8.Decode, ValueEnd;
    var bs := Utf8.Encode(returnTo);
    var enc := PercentEncode(bs);
    var s := enc + rest;
    EncodeCanonical(bs);
    CanonicalPlain(enc);
    forall j | 0 <= j < |enc|
      ensures s[j] == enc[j] && s[j] !in "&#+"
    {
      assert OutputChar(enc[j]);
    }
    assert |s| == |enc| + |rest| && (rest != [] ==> s[|enc|] == rest[0]);
    assert ValueEnd(s) == |enc|;
    assert s[..|enc|] == enc && PlusToSpace(enc) == enc;
    PercentRoundTrip(bs);
    Utf8.RoundTrip(returnTo);
  }

  /** An ordinary URL and form reader (sections 3.4 and 3.5 of RFC 3986): the query starts
      at the first '?' before any '#', and `rd` is its first field. */
  function ReadAsForm(url: string): Option<(string, string)> {
    var main := url[..FindChar(url, '#')];
    var q := FindChar(main, '?');
    if !("?rd=" <= main[q..]) then None
    else
      match FormValue(main[q + 4..])
      case None => None
      case Some(target) => Some((main[..q], target))
  }

  /** It recovers portal and target exactly when the configured portal has no query and no
      fragment of its own. */
  lemma ReadAsFormIff(portal: string, returnTo: string)
    ensures ReadAsForm(LoginUrl(portal, returnTo)) == Some((portal, returnTo))
            <==> '?' !in portal && '#' !in portal
  {
    hide FormValue, PercentEncode, Canonical, FindChar, Utf8.Encode;
    var enc := PercentEncode(Utf8.Encode(returnTo));
    EncodeCanonical(Utf8.Encode(returnTo));
    CanonicalPlain(enc);
    var tail := "?rd=" + enc;
    assert forall j :: 0 < j < |tail| ==> tail[j] != '?' && tail[j] != '#';
    var url := portal + tail;
    assert url == LoginUrl(portal, returnTo);
    assert |url| == |portal| + |tail| && url[|portal|..] == tail;
    assert forall j :: 0 <= j < |portal| ==> url[j] == portal[j] && portal[j] in portal;
    assert forall j :: |portal| <= j < |url| ==> url[j] == tail[j - |portal|];
    if '?' !in portal && '#' !in portal {
      assert FindChar(url, '#') == |url|;
      assert url[..|url|] == url && url[|portal|] == '?';
      assert FindChar(url, '?') == |portal|;
      FormValueRecovers(returnTo, []);
      assert url[|portal| + 4..] == enc == enc + [] && url[..|portal|] == portal;
    } else {
      var i :| 0 <= i < |portal| && (portal[i] == '?' || portal[i] == '#');
      assert url[i] == portal[i];
    }
  }
}
