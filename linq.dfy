/** FirstOrDefault(source, predicate), the search both repository queries call, over an in-memory sequence. */
module Linq {
  import opened Options

  /** The first element in sequence order that satisfies p, or null. */
  function FirstOrDefault<T>(s: seq<T>, p: T -> bool): (r: Option<T>)
    ensures r.None? <==> forall i :: 0 <= i < |s| ==> !p(s[i])
    ensures r.Some? ==> exists i :: 0 <= i < |s| && s[i] == r.value && p(s[i])
                                    && forall j :: 0 <= j < i ==> !p(s[j])
  {
    if |s| == 0 then None
    else if p(s[0]) then Some(s[0])
    else
      var r := FirstOrDefault(s[1..], p);
      assert forall i :: 1 <= i < |s| ==> s[i] == s[1..][i - 1];
      r
  }

  /** Whichever element satisfies p with nothing satisfying p before it is the one returned. */
  lemma FirstOrDefaultIsFirst<T>(s: seq<T>, p: T -> bool, i: nat)
    requires i < |s| && p(s[i])
    requires forall j :: 0 <= j < i ==> !p(s[j])
    ensures FirstOrDefault(s, p) == Some(s[i])
  {
  }

  /** Searching a + b finds a's first match if a has one, and b's first match otherwise. */
  lemma {:induction false} FirstOrDefaultAppend<T>(a: seq<T>, b: seq<T>, p: T -> bool)
    ensures FirstOrDefault(a + b, p) == if FirstOrDefault(a, p).Some? then FirstOrDefault(a, p)
                                        else FirstOrDefault(b, p)
  {
    if a == [] {
      assert a + b == b;
    } else {
      assert (a + b)[0] == a[0];
      assert (a + b)[1..] == a[1..] + b;
      FirstOrDefaultAppend(a[1..], b, p);
    }
  }
}
