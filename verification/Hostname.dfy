/** A DNS host name, normalized to lower case on construction. */
module Hostnames {
  import opened Text

  type Hostname = s: string | Lower(s) == s witness ""

  function New(raw: string): Hostname {
    assert Lower(Lower(raw)) == Lower(raw);
    Lower(raw)
  }

  /** Host names are case-insensitive (RFC 4343): two spellings build the same key
      exactly when they differ in nothing but the case of ASCII letters. */
  lemma SameKeyIff(a: string, b: string)
    ensures New(a) == New(b) <==> EqIgnoreCase(a, b)
  {
    if New(a) == New(b) {
      forall i | 0 <= i < |a|
        ensures LowerChar(a[i]) == LowerChar(b[i])
      {
        assert Lower(a)[i] == Lower(b)[i];
      }
    }
    if EqIgnoreCase(a, b) {
      assert Lower(a) == Lower(b);
    }
  }

  /** The key is the spelling without upper-case ASCII letters. */
  lemma NewIff(raw: string, key: string)
    ensures key == New(raw) <==> EqIgnoreCase(key, raw) && forall c :: c in key ==> !('A' <= c <= 'Z')
  {
    SameKeyIff(key, raw);
    if forall c :: c in key ==> !('A' <= c <= 'Z') {
      assert forall i :: 0 <= i < |key| ==> key[i] in key;
      assert Lower(key) == key;
    }
  }
}
