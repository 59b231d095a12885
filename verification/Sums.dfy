/** Sums of integer sequences, and how one changed entry changes them. */
module Sums {

  function Sum(s: seq<int>): int {
    if s == [] then 0 else Sum(s[..|s| - 1]) + s[|s| - 1]
  }

  lemma SumAppend(s: seq<int>, x: int)
    ensures Sum(s + [x]) == Sum(s) + x
  {
    assert (s + [x])[..|s|] == s;
  }

  lemma {:induction false} SumUpdate(s: seq<int>, i: nat, v: int)
    requires i < |s|
    ensures Sum(s[i := v]) == Sum(s) - s[i] + v
  {
    var front := s[..|s| - 1];
    if i == |s| - 1 {
      assert s[i := v][..|s| - 1] == front;
    } else {
      SumUpdate(front, i, v);
      assert s[i := v][..|s| - 1] == front[i := v];
    }
  }

  lemma {:induction false} SumNonNegative(s: seq<int>)
    requires forall i :: 0 <= i < |s| ==> s[i] >= 0
    ensures Sum(s) >= 0
    ensures forall i :: 0 <= i < |s| ==> s[i] <= Sum(s)
  {
    if s == [] {
    } else {
      SumNonNegative(s[..|s| - 1]);
    }
  }

  lemma {:induction false} SumZero(s: seq<int>)
    requires forall i :: 0 <= i < |s| ==> s[i] == 0
    ensures Sum(s) == 0
  {
    if s == [] {
    } else {
      SumZero(s[..|s| - 1]);
    }
  }

  lemma {:induction false} SumMonotone(s: seq<int>, u: seq<int>)
    requires |s| == |u|
    requires forall i :: 0 <= i < |s| ==> s[i] <= u[i]
    ensures Sum(s) <= Sum(u)
  {
    if s == [] {
    } else {
      SumMonotone(s[..|s| - 1], u[..|u| - 1]);
    }
  }

  lemma {:induction false} SumPrefix(s: seq<int>, m: nat)
    requires m <= |s| && forall i :: 0 <= i < |s| ==> s[i] >= 0
    ensures Sum(s[..m]) <= Sum(s)
    decreases |s|
  {
    if m == |s| {
      assert s[..m] == s;
    } else {
      var front := s[..|s| - 1];
      assert s[..m] == front[..m];
      SumPrefix(front, m);
    }
  }
}
