/** Notions every part of the model uses. */
module Basics {

  function Min(a: int, b: int): int { if a < b then a else b }

  function Max(a: int, b: int): int { if a < b then b else a }

  /** No element stands twice. */
  ghost predicate Distinct<T>(s: seq<T>) {
    forall i, j :: 0 <= i < j < |s| ==> s[i] != s[j]
  }

  function RemoveAt<T>(s: seq<T>, i: nat): seq<T>
    requires i < |s|
  {
    s[..i] + s[i + 1..]
  }

  lemma RemoveAtMembers<T>(s: seq<T>, i: nat)
    requires Distinct(s) && i < |s|
    ensures forall x :: x in RemoveAt(s, i) <==> x in s && x != s[i]
    ensures Distinct(RemoveAt(s, i))
  {
    var r := RemoveAt(s, i);
    assert forall m :: 0 <= m < |r| ==> r[m] == if m < i then s[m] else s[m + 1];
    forall x | x in s && x != s[i] ensures x in r {
      var m :| 0 <= m < |s| && s[m] == x;
      assert r[if m < i then m else m - 1] == x;
    }
  }
}
