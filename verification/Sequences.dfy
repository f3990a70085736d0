/**
  What several modules say about sequences.
*/
module Sequences {

  ghost predicate Distinct<T>(s: seq<T>) {
    forall i, j | 0 <= i < j < |s| :: s[i] != s[j]
  }

  function Reversed<T>(s: seq<T>): (r: seq<T>)
    ensures |r| == |s| && forall i | 0 <= i < |s| :: r[i] == s[|s| - 1 - i]
  {
    if s == [] then [] else Reversed(s[1..]) + [s[0]]
  }

  lemma ReversedMembers<T>(s: seq<T>)
    ensures forall n :: n in Reversed(s) <==> n in s
    ensures Distinct(s) ==> Distinct(Reversed(s))
  {
    forall n | n in s
      ensures n in Reversed(s)
    {
      var i :| 0 <= i < |s| && s[i] == n;
      assert Reversed(s)[|s| - 1 - i] == n;
    }
  }
}
