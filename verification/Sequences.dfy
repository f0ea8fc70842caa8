/** Sequences of any kind of elements. */
module Sequences {

  ghost predicate Distinct<T>(s: seq<T>) {
    forall i, j | 0 <= i < j < |s| :: s[i] != s[j]
  }

  lemma Associative<T>(a: seq<T>, b: seq<T>, c: seq<T>)
    ensures a + (b + c) == a + b + c
  {
  }

  lemma FrontAndLast<T>(s: seq<T>)
    requires s != []
    ensures s == s[..|s|-1] + [s[|s|-1]]
  {
  }

  lemma HeadAndTail<T>(s: seq<T>)
    requires s != []
    ensures s == [s[0]] + s[1..]
  {
  }

  ghost predicate Increasing(s: seq<nat>) {
    forall j, k | 0 <= j < k < |s| :: s[j] < s[k]
  }

  /** `r` is what stands in `s` at the positions `at`, in order. */
  ghost predicate Selects<T>(s: seq<T>, at: seq<nat>, r: seq<T>) {
    && Increasing(at)
    && |r| == |at|
    && forall i | 0 <= i < |at| :: at[i] < |s| && r[i] == s[at[i]]
  }

  /** One more element, taken or not. */
  lemma SelectsMore<T>(s: seq<T>, at: seq<nat>, r: seq<T>, x: T)
    requires Selects(s, at, r)
    ensures Selects(s + [x], at, r) && Selects(s + [x], at + [|s|], r + [x])
  {
  }

  lemma NothingAppended<T>(s: seq<T>)
    ensures s + [] == s && [] + s == s
  {
  }
}
