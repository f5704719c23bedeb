/** The `str` operations of the standard library that the program is built from,
    over sequences of Unicode scalar values, with the laws the parsers need. */
module Text {
  import opened Wrappers

  /** The Unicode White_Space property, as `char::is_whitespace` decides it. */
  predicate IsWhitespace(c: char) {
    var n := c as int;
    || 0x9 <= n <= 0xD
    || n in {0x20, 0x85, 0xA0, 0x1680, 0x2028, 0x2029, 0x202F, 0x205F, 0x3000}
    || 0x2000 <= n <= 0x200A
  }

  predicate Blank(s: string) {
    forall i :: 0 <= i < |s| ==> IsWhitespace(s[i])
  }

  /** No blank at either end. */
  predicate Trimmed(s: string) {
    s != [] ==> !IsWhitespace(s[0]) && !IsWhitespace(s[|s| - 1])
  }

  // ----- trim -----

  function TrimStart(s: string): (r: string)
    ensures r == [] || !IsWhitespace(r[0])
  {
    if s != [] && IsWhitespace(s[0]) then TrimStart(s[1..]) else s
  }

  function TrimEnd(s: string): (r: string)
    ensures r <= s
    ensures r == [] || !IsWhitespace(r[|r| - 1])
  {
    if s != [] && IsWhitespace(s[|s| - 1]) then TrimEnd(s[..|s| - 1]) else s
  }

  function Trim(s: string): (r: string)
    ensures Trimmed(r)
  {
    TrimEnd(TrimStart(s))
  }

  lemma {:induction false} TrimStartSkips(l: string, s: string)
    requires Blank(l)
    ensures TrimStart(l + s) == TrimStart(s)
  {
    if l == [] {
      assert l + s == s;
    } else {
      assert (l + s)[1..] == l[1..] + s;
      TrimStartSkips(l[1..], s);
    }
  }

  lemma {:induction false} TrimEndSkips(s: string, r: string)
    requires Blank(r)
    ensures TrimEnd(s + r) == TrimEnd(s)
  {
    if r == [] {
      assert s + r == s;
    } else {
      var q := r[..|r| - 1];
      assert (s + r)[..|s + r| - 1] == s + q;
      TrimEndSkips(s, q);
    }
  }

  /** `Trim` is the only way to peel blanks off a text down to a trimmed middle. */
  lemma TrimUnique(l: string, m: string, r: string)
    requires Blank(l) && Blank(r) && Trimmed(m)
    ensures Trim(l + m + r) == m
  {
    assert l + m + r == l + (m + r);
    TrimStartSkips(l, m + r);
    if m == [] {
      assert m + r == r + [];
      TrimStartSkips(r, []);
    } else {
      TrimEndSkips(m, r);
    }
  }

  lemma {:induction false} TrimStartCuts(s: string) returns (l: string)
    ensures Blank(l) && s == l + TrimStart(s)
  {
    if s != [] && IsWhitespace(s[0]) {
      var k := TrimStartCuts(s[1..]);
      l := [s[0]] + k;
    } else {
      l := [];
    }
  }

  lemma {:induction false} TrimEndCuts(s: string) returns (r: string)
    ensures Blank(r) && s == TrimEnd(s) + r
  {
    if s != [] && IsWhitespace(s[|s| - 1]) {
      var q := TrimEndCuts(s[..|s| - 1]);
      r := q + [s[|s| - 1]];
    } else {
      r := [];
    }
  }

  /** What `Trim` removes: a blank on either side and nothing else. */
  lemma TrimCuts(s: string) returns (l: string, r: string)
    ensures Blank(l) && Blank(r) && s == l + Trim(s) + r
  {
    l := TrimStartCuts(s);
    r := TrimEndCuts(TrimStart(s));
    assert s == l + (Trim(s) + r);
  }

  /** Blanks around a text are invisible to `Trim`. */
  lemma TrimPadded(l: string, s: string, r: string)
    requires Blank(l) && Blank(r)
    ensures Trim(l + s + r) == Trim(s)
  {
    var a, b := TrimCuts(s);
    assert l + s + r == (l + a) + Trim(s) + (b + r);
    TrimUnique(l + a, Trim(s), b + r);
  }

  // ----- searching and cutting once -----

  /** Index of the first `c`, or the length. */
  function FindChar(s: string, c: char): (i: nat)
    ensures i <= |s|
    ensures forall j :: 0 <= j < i ==> s[j] != c
    ensures i < |s| ==> s[i] == c
  {
    if s == [] || s[0] == c then 0
    else 1 + FindChar(s[1..], c)
  }

  /** Index of the first blank, or the length. */
  function FindBlank(s: string): (i: nat)
    ensures i <= |s|
    ensures forall j :: 0 <= j < i ==> !IsWhitespace(s[j])
    ensures i < |s| ==> IsWhitespace(s[i])
  {
    if s == [] || IsWhitespace(s[0]) then 0
    else 1 + FindBlank(s[1..])
  }

  function CutAt(s: string, i: nat): Option<(string, string)>
    requires i <= |s|
  {
    if i == |s| then None else Some((s[..i], s[i + 1..]))
  }

  function SplitOnce(s: string, c: char): Option<(string, string)> {
    CutAt(s, FindChar(s, c))
  }

  function SplitOnceBlank(s: string): Option<(string, string)> {
    CutAt(s, FindBlank(s))
  }

  /** Cutting once inverts gluing, for every head without the separator. */
  lemma SplitOnceGlued(a: string, c: char, b: string)
    requires c !in a
    ensures SplitOnce(a + [c] + b, c) == Some((a, b))
  {
    var s := a + [c] + b;
    assert forall j :: 0 <= j < |a| ==> s[j] == a[j] && a[j] in a;
    assert s[|a|] == c && s[..|a|] == a && s[|a| + 1..] == b;
  }

  lemma SplitOnceBlankGlued(a: string, c: char, b: string)
    requires IsWhitespace(c)
    requires forall j :: 0 <= j < |a| ==> !IsWhitespace(a[j])
    ensures SplitOnceBlank(a + [c] + b) == Some((a, b))
  {
    var s := a + [c] + b;
    assert forall j :: 0 <= j < |a| ==> s[j] == a[j];
    assert s[|a|] == c && s[..|a|] == a && s[|a| + 1..] == b;
  }

  // ----- split and join -----

  /** `str::split` on one character: never empty, one part more than separators. */
  function Split(s: string, c: char): (parts: seq<string>)
    ensures |parts| >= 1
    ensures forall i :: 0 <= i < |parts| ==> c !in parts[i]
  {
    if s == [] then [[]]
    else
      var rest := Split(s[1..], c);
      if s[0] == c then [[]] + rest else [[s[0]] + rest[0]] + rest[1..]
  }

  function Join(parts: seq<string>, sep: string): string {
    if parts == [] then []
    else if |parts| == 1 then parts[0]
    else parts[0] + sep + Join(parts[1..], sep)
  }

  lemma {:induction false} SplitHead(a: string, c: char, b: string)
    requires c !in a
    ensures Split(a + [c] + b, c) == [a] + Split(b, c)
  {
    var s := a + [c] + b;
    if a == [] {
      assert s[1..] == b;
    } else {
      assert s[1..] == a[1..] + [c] + b;
      SplitHead(a[1..], c, b);
      assert s[0] == a[0] && a[0] in a;
      assert a == [a[0]] + a[1..];
    }
  }

  lemma {:induction false} SplitNone(a: string, c: char)
    requires c !in a
    ensures Split(a, c) == [a]
  {
    if a != [] {
      SplitNone(a[1..], c);
      assert a[0] in a && a == [a[0]] + a[1..];
    }
  }

  /** Splitting inverts joining exactly on the nonempty lists of separator-free parts. */
  lemma {:induction false} SplitJoin(parts: seq<string>, c: char)
    requires forall i :: 0 <= i < |parts| ==> c !in parts[i]
    ensures Split(Join(parts, [c]), c) == if parts == [] then [[]] else parts
  {
    if parts == [] {
    } else if |parts| == 1 {
      SplitNone(parts[0], c);
    } else {
      SplitHead(parts[0], c, Join(parts[1..], [c]));
      SplitJoin(parts[1..], c);
    }
  }

  lemma {:induction false} JoinSplit(s: string, c: char)
    ensures Join(Split(s, c), [c]) == s
  {
    if s != [] {
      var rest := Split(s[1..], c);
      JoinSplit(s[1..], c);
      assert s == [s[0]] + s[1..];
      if s[0] == c {
        assert ([[]] + rest)[1..] == rest;
        assert [] + [c] + Join(rest, [c]) == s;
      } else {
        var first := [s[0]] + rest[0];
        assert ([first] + rest[1..])[1..] == rest[1..];
        if |rest| > 1 {
          assert first + [c] + Join(rest[1..], [c]) == [s[0]] + (rest[0] + [c] + Join(rest[1..], [c]));
        }
      }
    }
  }

  /** The White_Space property listed: these 25 characters and no other. */
  const WHITE_SPACE: string :=
    "\t\n\U{B}\U{C}\r \U{85}\U{A0}\U{1680}\U{2000}\U{2001}\U{2002}\U{2003}\U{2004}" +
    "\U{2005}\U{2006}\U{2007}\U{2008}\U{2009}\U{200A}\U{2028}\U{2029}\U{202F}\U{205F}\U{3000}"

  lemma WhitespaceListed(c: char)
    ensures IsWhitespace(c) <==> c in WHITE_SPACE
  {
    assert forall i :: 0 <= i < |WHITE_SPACE| ==> IsWhitespace(WHITE_SPACE[i]);
  }

  lemma {:induction false} SplitSnoc(s: string, x: char, c: char)
    requires x != c
    ensures var p := Split(s, c); var n := |p| - 1;
            Split(s + [x], c) == p[..n] + [p[n] + [x]]
  {
    if s == [] {
      SplitNone([x], c);
      assert s + [x] == [x];
    } else {
      assert (s + [x])[1..] == s[1..] + [x];
      SplitSnoc(s[1..], x, c);
      var q := Split(s[1..], c);
      if s[0] != c && |q| == 1 {
        assert [s[0]] + (q[0] + [x]) == [s[0]] + q[0] + [x];
      }
    }
  }

  // ----- ASCII case -----

  function LowerChar(c: char): char {
    if 'A' <= c <= 'Z' then (c as int + 32) as char else c
  }

  function Lower(s: string): (r: string)
    ensures |r| == |s|
    ensures forall i :: 0 <= i < |s| ==> r[i] == LowerChar(s[i])
  {
    seq(|s|, i requires 0 <= i < |s| => LowerChar(s[i]))
  }

  /** Two texts that differ at most in the case of ASCII letters. */
  predicate EqIgnoreCase(a: string, b: string) {
    && |a| == |b|
    && forall i :: 0 <= i < |a| ==>
         || a[i] == b[i]
         || ('A' <= a[i] <= 'Z' && b[i] as int == a[i] as int + 32)
         || ('A' <= b[i] <= 'Z' && a[i] as int == b[i] as int + 32)
  }
}
