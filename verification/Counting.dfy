/** How often something happens in a list of events. */
module Counting {
  function Count<T>(s: seq<T>, p: T -> bool): nat {
    if s == [] then 0 else Count(s[..|s| - 1], p) + if p(s[|s| - 1]) then 1 else 0
  }

  lemma {:induction false} CountSnoc<T>(s: seq<T>, e: T, p: T -> bool)
    ensures Count(s + [e], p) == Count(s, p) + if p(e) then 1 else 0
  {
    assert (s + [e])[..|s|] == s;
  }

  /** It happens at all exactly when the count is not zero. */
  lemma {:induction false} CountSome<T>(s: seq<T>, p: T -> bool)
    ensures Count(s, p) > 0 <==> exists e :: e in s && p(e)
  {
    if s != [] {
      var t, e := s[..|s| - 1], s[|s| - 1];
      CountSome(t, p);
      assert s == t + [e];
    }
  }
}
