/** The milestone tiles that raise a congratulation, and the choice of the one to announce. */
module Milestones {

  datatype Option<T> = None | Some(value: T)

  /** The milestone values, in the order they are checked. */
  const Targets: seq<int> := [2048, 4096, 8192, 16384, 32768, 65536, 131072]

  predicate Ascending(ms: seq<int>)
  {
    forall i, j :: 0 <= i < j < |ms| ==> ms[i] < ms[j]
  }

  lemma TargetsAscending()
    ensures Ascending(Targets)
  {
  }

  /** The first milestone of `ms` that `top` reaches and that is not in `achieved`. */
  function FirstReached(ms: seq<int>, achieved: set<int>, top: int): (r: Option<int>)
    ensures r.Some? ==> r.value in ms && r.value <= top && r.value !in achieved
    ensures r.None? ==> forall m :: m in ms && m <= top ==> m in achieved
  {
    if ms == [] then None
    else if top >= ms[0] && ms[0] !in achieved then Some(ms[0])
    else FirstReached(ms[1..], achieved, top)
  }

  /** With ascending milestones the one chosen is the smallest reached and not yet
      achieved. */
  lemma {:induction false} FirstReachedSmallest(ms: seq<int>, achieved: set<int>, top: int, m: int)
    requires Ascending(ms) && m in ms && m <= top && m !in achieved
    ensures FirstReached(ms, achieved, top).Some?
    ensures FirstReached(ms, achieved, top).value <= m
  {
    if ms[0] != m && !(top >= ms[0] && ms[0] !in achieved) {
      assert m in ms[1..];
      FirstReachedSmallest(ms[1..], achieved, top, m);
    }
  }

  /** The set of achieved milestones after recording `r`: at most one new element. */
  function Recorded(achieved: set<int>, r: Option<int>): (a: set<int>)
    ensures achieved <= a && |a - achieved| <= 1
    ensures r.Some? ==> r.value in a
  {
    if r.Some? then achieved + {r.value} else achieved
  }
}
