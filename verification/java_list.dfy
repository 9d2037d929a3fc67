/** `java.util.List.remove(Object)` over immutable sequences: the first
    element equal to the argument goes, everything else keeps its order.
    Value equality stands in for Java's reference identity here. */
module JavaList {

  /** Position of the first x in s, or |s| when s has none. */
  function IndexOf<T(==)>(s: seq<T>, x: T): (i: nat)
    ensures i <= |s|
    ensures i < |s| ==> s[i] == x
    ensures i == |s| <==> x !in s
    ensures forall j :: 0 <= j < i ==> s[j] != x
  {
    if |s| == 0 then 0
    else if s[0] == x then 0
    else 1 + IndexOf(s[1..], x)
  }

  /** Removes the first occurrence of x; an absent x leaves s as it is. */
  function Remove<T(==)>(s: seq<T>, x: T): (r: seq<T>)
    ensures x !in s ==> r == s
    ensures x in s ==> r == s[..IndexOf(s, x)] + s[IndexOf(s, x) + 1..]
    ensures x in s ==> |r| == |s| - 1
  {
    if |s| == 0 then []
    else if s[0] == x then
      assert s == [s[0]] + s[1..];
      s[1..]
    else
      var tail := s[1..];
      var rest := Remove(tail, x);
      assert s == [s[0]] + tail;
      assert x in s ==> x in tail && IndexOf(s, x) == 1 + IndexOf(tail, x);
      assert x in s ==> [s[0]] + tail[..IndexOf(tail, x)] == s[..IndexOf(s, x)];
      assert x in s ==> tail[IndexOf(tail, x) + 1..] == s[IndexOf(s, x) + 1..];
      [s[0]] + rest
  }

  /** Remove takes exactly one x out of the multiset of elements, if any. */
  lemma {:induction false} RemoveMultiset<T>(s: seq<T>, x: T)
    ensures multiset(Remove(s, x)) == multiset(s) - multiset{x}
  {
    if |s| > 0 {
      assert s == [s[0]] + s[1..];
      if s[0] != x {
        RemoveMultiset(s[1..], x);
        assert Remove(s, x) == [s[0]] + Remove(s[1..], x);
      }
    }
  }
}
