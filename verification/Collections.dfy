/** Small facts about sets and sequences. */
module Collections {

  function SetOf<T(==)>(s: seq<T>): set<T> {
    set x | x in s
  }

  function Min(a: int, b: int): int {
    if a < b then a else b
  }

  lemma Inhabited(s: set<int>)
    requires |s| != 0
    ensures exists k :: k in s
  {
    assert (forall k :: k !in s) ==> s == {};
  }

  /** `at` gives for each element of `a` where it comes from in `b`. */
  ghost predicate InOrder<T>(a: seq<T>, b: seq<T>, at: seq<nat>) {
    && |at| == |a|
    && (forall i | 0 <= i < |at| :: at[i] < |b| && b[at[i]] == a[i])
    && (forall i, j | 0 <= i < j < |at| :: at[i] < at[j])
  }

  /** `a` results from `b` by leaving out elements. */
  ghost predicate IsSubsequence<T>(a: seq<T>, b: seq<T>) {
    exists at: seq<nat> :: InOrder(a, b, at)
  }

  lemma SubsequenceOfNothing<T>()
    ensures IsSubsequence<T>([], [])
  {
    assert InOrder<T>([], [], []);
  }

  lemma SubsequenceSkip<T>(a: seq<T>, b: seq<T>, x: T)
    requires IsSubsequence(a, b)
    ensures IsSubsequence(a, b + [x])
  {
    var at: seq<nat> :| InOrder(a, b, at);
    assert InOrder(a, b + [x], at);
  }

  lemma SubsequenceBoth<T>(a: seq<T>, b: seq<T>, x: T)
    requires IsSubsequence(a, b)
    ensures IsSubsequence(a + [x], b + [x])
  {
    var at: seq<nat> :| InOrder(a, b, at);
    assert InOrder(a + [x], b + [x], at + [|b|]);
  }

  lemma SubsequencePrefix<T>(a: seq<T>, rest: seq<T>, b: seq<T>)
    requires IsSubsequence(a + rest, b)
    ensures IsSubsequence(a, b)
  {
    var at: seq<nat> :| InOrder(a + rest, b, at);
    assert forall i | 0 <= i < |a| :: (a + rest)[i] == a[i];
    assert InOrder(a, b, at[..|a|]);
  }
}
