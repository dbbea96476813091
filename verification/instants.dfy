/** Points in time, counted from Go's zero time. */
module Instants {
  import opened Sets

  /** 0 is the zero time, which the route cache also uses for "no quarantine". */
  type Time = int

  function MaxTime(a: Time, b: Time): Time { if a > b then a else b }

  /** The latest of base and a finite set of instants. */
  ghost function Latest(base: Time, s: set<Time>): (m: Time)
    ensures m >= base && forall x :: x in s ==> m >= x
    ensures m == base || m in s
    decreases |s|
  {
    if s == {} then base
    else
      var x := Pick(s);
      assert forall y :: y in s ==> y == x || y in s - {x};
      Latest(MaxTime(base, x), s - {x})
  }

  lemma LatestIsUnique(base: Time, s: set<Time>, m: Time)
    requires m >= base && forall x :: x in s ==> m >= x
    requires m == base || m in s
    ensures m == Latest(base, s)
  {
  }
}
