/**
 * `ORDER BY` as the model computes it: an insertion sort by a "comes no later
 * than" relation. Rows that compare equal keep their table order.
 */
module Sorting {

  /** `le` is total and transitive, the shape of every `ORDER BY` key list. */
  ghost predicate TotalPreorder<T(!new)>(le: (T, T) -> bool) {
    && (forall a, b :: le(a, b) || le(b, a))
    && (forall a, b, c :: le(a, b) && le(b, c) ==> le(a, c))
  }

  ghost predicate SortedBy<T(!new)>(s: seq<T>, le: (T, T) -> bool) {
    forall i, j :: 0 <= i < j < |s| ==> le(s[i], s[j])
  }

  function Insert<T(!new)>(x: T, s: seq<T>, le: (T, T) -> bool): (r: seq<T>)
    ensures multiset(r) == multiset(s) + multiset{x}
  {
    if s == [] then [x]
    else if le(x, s[0]) then [x] + s
    else
      assert s == [s[0]] + s[1..];
      [s[0]] + Insert(x, s[1..], le)
  }

  lemma {:induction false} InsertSorted<T(!new)>(x: T, s: seq<T>, le: (T, T) -> bool)
    ensures TotalPreorder(le) && SortedBy(s, le) ==> SortedBy(Insert(x, s, le), le)
  {
    if TotalPreorder(le) && SortedBy(s, le) && s != [] {
      var r := Insert(x, s, le);
      if le(x, s[0]) {
        forall j | 1 <= j < |r| ensures le(r[0], r[j]) {
          assert r[j] == s[j - 1];
        }
      } else {
        assert le(s[0], x);
        InsertSorted(x, s[1..], le);
        var tail := Insert(x, s[1..], le);
        assert r == [s[0]] + tail;
        forall j | 0 <= j < |tail| ensures le(s[0], tail[j]) {
          assert tail[j] in multiset(tail);
          if tail[j] != x {
            assert tail[j] in multiset(s[1..]);
            assert tail[j] in s[1..];
          }
        }
      }
    }
  }

  /** The rows of `s` in `le` order; a permutation of `s`. */
  function SortBy<T(!new)>(s: seq<T>, le: (T, T) -> bool): (r: seq<T>)
    ensures multiset(r) == multiset(s) && |r| == |s|
    ensures forall x :: x in r <==> x in s
    ensures TotalPreorder(le) ==> SortedBy(r, le)
  {
    if s == [] then []
    else
      var rest := SortBy(s[1..], le);
      InsertSorted(s[0], rest, le);
      assert s == [s[0]] + s[1..];
      var r := Insert(s[0], rest, le);
      assert forall x :: x in r <==> x in multiset(r);
      assert forall x :: x in s <==> x in multiset(s);
      r
  }
}
