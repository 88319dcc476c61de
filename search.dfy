/** First-match search and arg-max over sequences: the loops `for x in xs: if p(x): return x`
    and `idxmax()` that the scripts rely on. */
module Search {
  import opened Wrappers

  /** The position of the first element satisfying `p`, or None when no element does. */
  function FirstIndexWhere<T>(s: seq<T>, p: T -> bool): (r: Option<nat>)
    ensures r.Some? ==> r.value < |s| && p(s[r.value])
    ensures r.Some? ==> forall j :: 0 <= j < r.value ==> !p(s[j])
    ensures r.None? <==> forall j :: 0 <= j < |s| ==> !p(s[j])
  {
    if s == [] then None
    else if p(s[0]) then Some(0)
    else match FirstIndexWhere(s[1..], p)
      case None => None
      case Some(i) => Some(i + 1)
  }

  /** The contract of FirstIndexWhere pins its result down: any index that is a match with no
      earlier match is the one it returns. */
  lemma FirstIndexWhereUnique<T>(s: seq<T>, p: T -> bool, k: nat)
    requires k < |s| && p(s[k])
    requires forall j :: 0 <= j < k ==> !p(s[j])
    ensures FirstIndexWhere(s, p) == Some(k)
  {
  }

  /** Two tests that agree on every element find the same first match. */
  lemma FirstIndexWhereAgree<T>(s: seq<T>, p: T -> bool, q: T -> bool)
    requires forall i :: 0 <= i < |s| ==> p(s[i]) == q(s[i])
    ensures FirstIndexWhere(s, p) == FirstIndexWhere(s, q)
  {
    var r := FirstIndexWhere(s, p);
    if r.Some? {
      FirstIndexWhereUnique(s, q, r.value);
    }
  }

  /** An element of `s` whose score is at least every other element's score (the first such). */
  function ArgMax<T>(s: seq<T>, score: T -> real): (r: T)
    requires |s| > 0
    ensures r in s
    ensures forall i :: 0 <= i < |s| ==> score(s[i]) <= score(r)
  {
    if |s| == 1 then s[0]
    else
      var best := ArgMax(s[1..], score);
      assert forall i :: 1 <= i < |s| ==> s[i] == s[1..][i - 1];
      if score(s[0]) >= score(best) then s[0] else best
  }
}
