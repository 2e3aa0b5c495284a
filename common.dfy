/** Small datatypes and sequence facts shared by every module of the model. */
module Common {

  /** A value that may be missing: Python's `Optional[...]` and `dict.get`. */
  datatype Option<+T> = None | Some(value: T)

  /** How a Python call ends when an exception may escape from it. */
  datatype Completion<+T> = Returned(value: T) | Raised

  /** The elements of a sequence, as a set. */
  function Elems<T>(s: seq<T>): set<T> {
    set x | x in s
  }

  /** Only the empty sequence has no elements. */
  lemma ElemsEmpty<T>(s: seq<T>)
    ensures Elems(s) == {} <==> s == []
  {
    if s != [] {
      assert s[0] in Elems(s);
    }
  }

  /** No element occurs twice. */
  predicate Distinct<T(==)>(s: seq<T>) {
    forall i, j | 0 <= i < j < |s| :: s[i] != s[j]
  }

  /** A duplicate-free sequence has as many elements as its set. */
  lemma {:induction false} DistinctCard<T>(s: seq<T>)
    requires Distinct(s)
    ensures |Elems(s)| == |s|
  {
    if s != [] {
      var init := s[..|s| - 1];
      assert Distinct(init) by {
        forall i, j | 0 <= i < j < |init| ensures init[i] != init[j] {
          assert init[i] == s[i] && init[j] == s[j];
        }
      }
      DistinctCard(init);
      assert s == init + [s[|s| - 1]];
      assert Elems(s) == Elems(init) + {s[|s| - 1]};
      forall k | 0 <= k < |init| ensures init[k] != s[|s| - 1] {
        assert init[k] == s[k];
      }
    }
  }

  /** In a duplicate-free sequence every element occurs exactly once. */
  lemma {:induction false} DistinctOccursOnce<T>(s: seq<T>, x: T)
    requires Distinct(s) && x in s
    ensures multiset(s)[x] == 1
  {
    var k :| 0 <= k < |s| && s[k] == x;
    assert s == s[..k] + [x] + s[k + 1..];
    var before, after := s[..k], s[k + 1..];
    forall i | 0 <= i < |before| ensures before[i] != x {
      assert before[i] == s[i];
    }
    forall i | 0 <= i < |after| ensures after[i] != x {
      assert after[i] == s[k + 1 + i];
    }
    assert multiset(before)[x] == 0 && multiset(after)[x] == 0;
    assert multiset(s) == multiset(s[..k]) + multiset([x]) + multiset(s[k + 1..]);
  }
}
