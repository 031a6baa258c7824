/**
 Sequence helpers shared by the conductor's resizable arrays.
 */
module SeqUtil {

  /**
   The driver's unordered removal from an array: the last element is copied
   over position `i` and the length shrinks by one, so order is not kept but
   every other element stays.
   */
  function FastUnorderedRemove<T>(s: seq<T>, i: nat): (r: seq<T>)
    requires i < |s|
    ensures |r| == |s| - 1
    ensures multiset(r) == multiset(s) - multiset{s[i]}
    ensures forall j :: 0 <= j < |r| && j != i ==> r[j] == s[j]
    ensures i < |r| ==> r[i] == s[|s| - 1]
  {
    MoveLastOverMultiset(s, i);
    s[i := s[|s| - 1]][..|s| - 1]
  }

  lemma MoveLastOverMultiset<T>(s: seq<T>, i: nat)
    requires i < |s|
    ensures multiset(s[i := s[|s| - 1]][..|s| - 1]) == multiset(s) - multiset{s[i]}
  {
    var last := |s| - 1;
    var moved := s[i := s[last]];
    assert moved == moved[..last] + [moved[last]];
    assert multiset(moved) == multiset(moved[..last]) + multiset{s[last]};
    assert multiset(moved) == multiset(s) - multiset{s[i]} + multiset{s[last]};
    assert s[i] in multiset(s);
    forall y
      ensures multiset(moved[..last])[y] == (multiset(s) - multiset{s[i]})[y]
    {
      assert multiset(moved)[y] == multiset(moved[..last])[y] + multiset{s[last]}[y];
      assert multiset(moved)[y] == (multiset(s) - multiset{s[i]})[y] + multiset{s[last]}[y];
    }
  }

  /** Removing the element just appended gives back the original sequence. */
  lemma RemoveLastAppended<T>(s: seq<T>, x: T)
    ensures FastUnorderedRemove(s + [x], |s|) == s
  {
  }
}
