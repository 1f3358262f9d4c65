/** Python's ordering of `str` values: lexicographic by code point, a proper
    prefix before any of its extensions. The encoder sorts method names with it
    and derives the order of its types from it. */
module Strings {

  predicate Less(s: string, t: string)
  {
    if |s| == 0 then |t| > 0
    else if |t| == 0 then false
    else if s[0] != t[0] then s[0] < t[0]
    else Less(s[1..], t[1..])
  }

  lemma {:induction false} LessIrreflexive(s: string)
    ensures !Less(s, s)
  {
    if |s| > 0 {
      LessIrreflexive(s[1..]);
    }
  }

  lemma {:induction false} LessTransitive(s: string, t: string, u: string)
    requires Less(s, t) && Less(t, u)
    ensures Less(s, u)
  {
    if |s| > 0 && |t| > 0 && |u| > 0 && s[0] == t[0] && t[0] == u[0] {
      LessTransitive(s[1..], t[1..], u[1..]);
    }
  }

  lemma {:induction false} LessConnected(s: string, t: string)
    requires s != t
    ensures Less(s, t) || Less(t, s)
  {
    if |s| > 0 && |t| > 0 && s[0] == t[0] {
      assert s == [s[0]] + s[1..] && t == [t[0]] + t[1..];
      LessConnected(s[1..], t[1..]);
    }
  }

  /** Less is a strict total order on strings: both directions never hold at once. */
  lemma LessAsymmetric(s: string, t: string)
    requires Less(s, t)
    ensures !Less(t, s)
  {
    if Less(t, s) {
      LessTransitive(s, t, s);
      LessIrreflexive(s);
    }
  }
}
