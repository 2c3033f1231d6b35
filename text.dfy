/**
 * ASCII stand-ins for .NET's String.ToLower() and String.Trim().
 * ToLower folds only 'A'..'Z'; Trim removes only the ASCII white-space
 * characters (space and U+0009..U+000D).
 */
module Text {

  predicate IsWhiteSpace(c: char) {
    c == ' ' || '\t' <= c <= '\r'
  }

  /** A string with no white space at either end (what Trim produces). */
  predicate IsTrimmed(s: string) {
    s == [] || (!IsWhiteSpace(s[0]) && !IsWhiteSpace(s[|s| - 1]))
  }

  predicate AllWhiteSpace(s: string) {
    forall i :: 0 <= i < |s| ==> IsWhiteSpace(s[i])
  }

  function LowerChar(c: char): (d: char)
    ensures 'A' <= c <= 'Z' ==> d as int == c as int + 32
    ensures !('A' <= c <= 'Z') ==> d == c
    ensures !('A' <= d <= 'Z')
    ensures IsWhiteSpace(d) <==> IsWhiteSpace(c)
  {
    if 'A' <= c <= 'Z' then (c as int + 32) as char else c
  }

  function ToLower(s: string): (r: string)
    ensures |r| == |s|
    ensures forall i :: 0 <= i < |s| ==> r[i] == LowerChar(s[i])
  {
    if s == [] then [] else [LowerChar(s[0])] + ToLower(s[1..])
  }

  /** Drops leading white space. */
  function TrimStart(s: string): (r: string)
    ensures |r| <= |s| && r == s[|s| - |r|..]
    ensures r == [] || !IsWhiteSpace(r[0])
    ensures forall i :: 0 <= i < |s| - |r| ==> IsWhiteSpace(s[i])
  {
    if |s| > 0 && IsWhiteSpace(s[0]) then TrimStart(s[1..]) else s
  }

  /** Drops trailing white space. */
  function TrimEnd(s: string): (r: string)
    ensures |r| <= |s| && r == s[..|r|]
    ensures r == [] || !IsWhiteSpace(r[|r| - 1])
    ensures forall i :: |r| <= i < |s| ==> IsWhiteSpace(s[i])
  {
    if |s| > 0 && IsWhiteSpace(s[|s| - 1]) then TrimEnd(s[..|s| - 1]) else s
  }

  /** Drops white space at both ends. */
  function Trim(s: string): (r: string)
    ensures IsTrimmed(r) && |r| <= |s|
  {
    TrimEnd(TrimStart(s))
  }

  /** Trim keeps a middle slice of s, and all it cuts off is white space. */
  lemma TrimCutsWhiteSpace(s: string)
    ensures exists k :: 0 <= k <= |s| - |Trim(s)| && Trim(s) == s[k..k + |Trim(s)|]
                        && AllWhiteSpace(s[..k]) && AllWhiteSpace(s[k + |Trim(s)|..])
  {
    var t := TrimStart(s);
    var r := TrimEnd(t);
    var k := |s| - |t|;
    assert AllWhiteSpace(s[..k]);
    assert AllWhiteSpace(t[|r|..]);
    assert r == s[k..k + |r|] && s[k + |r|..] == t[|r|..] by { PrefixOfSuffix(s, t, r, k); }
  }

  lemma PrefixOfSuffix(s: string, t: string, r: string, k: nat)
    requires k <= |s| && t == s[k..] && |r| <= |t| && r == t[..|r|]
    ensures r == s[k..k + |r|] && s[k + |r|..] == t[|r|..]
  {
  }

  lemma ToLowerIdempotent(s: string)
    ensures ToLower(ToLower(s)) == ToLower(s)
  {
  }

  lemma ToLowerConcat(a: string, b: string)
    ensures ToLower(a + b) == ToLower(a) + ToLower(b)
  {
  }

  /** Lower-casing neither adds nor removes white space at the ends. */
  lemma ToLowerKeepsTrimmed(s: string)
    ensures IsTrimmed(ToLower(s)) <==> IsTrimmed(s)
    ensures AllWhiteSpace(ToLower(s)) <==> AllWhiteSpace(s)
  {
  }

  lemma {:induction false} TrimStartPadded(p: string, s: string)
    requires AllWhiteSpace(p)
    requires s == [] || !IsWhiteSpace(s[0])
    ensures TrimStart(p + s) == s
  {
    if p == [] {
      assert p + s == s;
    } else {
      assert (p + s)[1..] == p[1..] + s;
      TrimStartPadded(p[1..], s);
    }
  }

  lemma {:induction false} TrimEndPadded(s: string, q: string)
    requires AllWhiteSpace(q)
    requires s == [] || !IsWhiteSpace(s[|s| - 1])
    ensures TrimEnd(s + q) == s
  {
    if q == [] {
      assert s + q == s;
    } else {
      var q' := q[..|q| - 1];
      assert (s + q)[..|s + q| - 1] == s + q';
      TrimEndPadded(s, q');
    }
  }

  /** Trim undoes any white-space padding of a trimmed string. */
  lemma TrimPadded(p: string, s: string, q: string)
    requires AllWhiteSpace(p) && AllWhiteSpace(q)
    requires IsTrimmed(s)
    ensures Trim(p + s + q) == s
  {
    assert p + s + q == p + (s + q);
    if s == [] {
      assert s + q == q;
      assert AllWhiteSpace(p + q);
      TrimStartPadded(p + q, []);
      assert p + q + [] == p + q;
    } else {
      TrimStartPadded(p, s + q);
      TrimEndPadded(s, q);
    }
  }

  lemma TrimIdempotent(s: string)
    ensures Trim(Trim(s)) == Trim(s)
  {
    var t := Trim(s);
    assert [] + t + [] == t;
    TrimPadded([], t, []);
  }
}
