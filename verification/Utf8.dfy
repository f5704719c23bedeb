/** UTF-8 (section 3 of RFC 3629): what `str::as_bytes` yields, and its inverse. */
module Utf8 {
  import opened Wrappers

  type byte = n: int | 0 <= n < 0x100

  function EncodeChar(c: char): (bs: seq<byte>)
    ensures 1 <= |bs| <= 4
    ensures (c as int) < 0x80 ==> bs == [c as int]
    ensures (c as int) >= 0x80 ==> forall i :: 0 <= i < |bs| ==> bs[i] >= 0x80
  {
    var n := c as int;
    if n < 0x80 then [n]
    else if n < 0x800 then [0xC0 + n / 0x40, 0x80 + n % 0x40]
    else if n < 0x10000 then [0xE0 + n / 0x1000, 0x80 + n / 0x40 % 0x40, 0x80 + n % 0x40]
    else [0xF0 + n / 0x40000, 0x80 + n / 0x1000 % 0x40, 0x80 + n / 0x40 % 0x40, 0x80 + n % 0x40]
  }

  function Encode(s: string): seq<byte> {
    if s == [] then [] else EncodeChar(s[0]) + Encode(s[1..])
  }

  /** How many bytes the lead byte announces; 0 for a byte that cannot lead. */
  function Width(lead: int): nat {
    if lead < 0x80 then 1
    else if 0xC0 <= lead < 0xE0 then 2
    else if 0xE0 <= lead < 0xF0 then 3
    else if 0xF0 <= lead < 0xF8 then 4
    else 0
  }

  function CodePoint(bs: seq<int>): int
    requires bs != [] && |bs| == Width(bs[0])
  {
    if |bs| == 1 then bs[0]
    else if |bs| == 2 then (bs[0] - 0xC0) * 0x40 + (bs[1] - 0x80)
    else if |bs| == 3 then (bs[0] - 0xE0) * 0x1000 + (bs[1] - 0x80) * 0x40 + (bs[2] - 0x80)
    else (bs[0] - 0xF0) * 0x40000 + (bs[1] - 0x80) * 0x1000 + (bs[2] - 0x80) * 0x40 + (bs[3] - 0x80)
  }

  predicate IsScalar(n: int) {
    0 <= n < 0xD800 || 0xE000 <= n < 0x110000
  }

  function Decode(bs: seq<byte>): Option<string>
  {
    if bs == [] then Some([])
    else
      var w := Width(bs[0]);
      if w == 0 || w > |bs| then None
      else
        var n := CodePoint(bs[..w]);
        if !IsScalar(n) then None
        else
          match Decode(bs[w..])
          case None => None
          case Some(rest) => Some([n as char] + rest)
  }

  lemma EncodeCharReads(c: char)
    ensures var bs := EncodeChar(c); Width(bs[0]) == |bs| && CodePoint(bs) == c as int
  {
    var n := c as int;
    if n < 0x80 {
    } else if n < 0x800 {
    } else if n < 0x10000 {
      assert n / 0x1000 == n / 0x40 / 0x40;
    } else {
      assert n / 0x1000 == n / 0x40 / 0x40;
      assert n / 0x40000 == n / 0x1000 / 0x40;
    }
  }

  /** Decoding recovers every text, so no two texts share an encoding. */
  lemma {:induction false} RoundTrip(s: string)
    ensures Decode(Encode(s)) == Some(s)
  {
    if s != [] {
      var bs, rest := EncodeChar(s[0]), Encode(s[1..]);
      EncodeCharReads(s[0]);
      RoundTrip(s[1..]);
      assert Encode(s) == bs + rest && (bs + rest)[0] == bs[0];
      assert (bs + rest)[..|bs|] == bs && (bs + rest)[|bs|..] == rest;
      assert [s[0]] + s[1..] == s;
    }
  }

  lemma {:induction false} EncodeAppend(a: string, b: string)
    ensures Encode(a + b) == Encode(a) + Encode(b)
  {
    if a == [] {
      assert a + b == b;
    } else {
      assert (a + b)[1..] == a[1..] + b;
      EncodeAppend(a[1..], b);
    }
  }
}
